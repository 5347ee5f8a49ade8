/** The mock server's streams as the client decodes them: printer, reader and decoder together. */
module MockStream {
  import opened ByteText
  import opened Source
  import opened EventStream
  import opened Decoder
  import opened Wire
  import opened Trimming
  import opened Verdicts
  import opened Completion

  /** A payload that printing, reading and trimming leave as it is, and that does not end the stream. */
  ghost predicate Plain(p: Bytes, maxEvent: int) {
    NoBreaks(p) && TrimSpace(p) == p && p != [] && p != DONE && |p| + 8 <= maxEvent
  }

  /** The events of the payloads, and then the terminal marker. */
  function Stream(payloads: seq<Bytes>): Bytes {
    RawEvents(payloads) + RawEvent(DONE)
  }

  lemma DoneIsTrimmed()
    ensures TrimSpace(DONE) == DONE && NoBreaks(DONE)
  {
    assert HeadSpace(DONE) == 0 && TailSpace(DONE) == 0;
  }

  /**
   The decoder sees exactly the printed payloads, whatever follows the marker and
   however the connection then ends.
   */
  lemma {:induction false} StreamDecodes(payloads: seq<Bytes>, more: Bytes, fault: Fault, maxEvent: int, allowed: int)
    requires forall k: nat :: k < |payloads| ==> Plain(payloads[k], maxEvent)
    requires |DONE| + 8 <= maxEvent && |Stream(payloads)| <= allowed
    ensures ScriptOf(Stream(payloads) + more, fault, maxEvent, allowed) == Script(payloads, Done(|Stream(payloads)|))
    decreases |payloads|
  {
    hide NextEvent, TrimSpace, RawEvent, ScriptOf;
    DoneIsTrimmed();
    var s := Stream(payloads) + more;
    ScriptIs(s, fault, maxEvent, allowed);
    if payloads == [] {
      RawEventRoundTrip(DONE, more, fault, maxEvent);
      RawEventLength(DONE);
      assert s == RawEvent(DONE) + more;
    } else {
      var p, rest := payloads[0], payloads[1..];
      assert Plain(p, maxEvent);
      RawEventRoundTrip(p, Stream(rest) + more, fault, maxEvent);
      RawEventLength(p);
      assert s == RawEvent(p) + (Stream(rest) + more);
      assert s[|p| + 8..] == Stream(rest) + more;
      StreamDecodes(rest, more, fault, maxEvent, allowed - |p| - 8);
      assert [p] + rest == payloads;
    }
  }

  lemma RawEventLength(p: Bytes)
    ensures |RawEvent(p)| == |p| + 8
  {
  }

  /** In calm conditions the turn of such a reply is the payloads' deltas, whatever follows the marker. */
  lemma MockTurn(c: Client, sent: bool, payloads: seq<Bytes>, more: Bytes, fault: Fault, limit: int, f: Bytes,
                 t: Turn, raw: Bytes, used: nat, given: Bytes)
    requires forall k: nat :: k < |payloads| ==> Plain(payloads[k], c.limits.maxEvent)
    requires |DONE| + 8 <= c.limits.maxEvent && |Stream(payloads)| <= c.limits.maxStream
    requires Accepted(payloads, c.decode, limit, |payloads|) && SomeChoice(payloads, c.decode)
    requires LastReason(payloads, c.decode, f) && (f == [] || f == Ascii("stop") || f == Ascii("length"))
    requires c.Answers(Streaming(sent, Stream(payloads) + more, fault), limit, t, raw, used, given, true)
    ensures t == Turn(Shown(c.token, Texts(payloads, c.decode)), f, sent, None) && given == t.text
  {
    hide ScriptOf, Judge, Shown, LastReason, Accepted, Stream, Plain, Client.RawOf;
    StreamDecodes(payloads, more, fault, c.limits.maxEvent, c.limits.maxStream);
    FinishesBy(Script(payloads, Done(|Stream(payloads)|)), c.decode, limit, f);
  }

  /** An event whose data is white space is passed over. */
  lemma BlankIsSkipped(b: Bytes, rest: Bytes, fault: Fault, maxEvent: int, allowed: int)
    requires Spaces(b) && NoBreaks(b) && |b| + 8 <= maxEvent && |b| + 8 <= allowed
    ensures var s := Ascii("data: ") + b + [LF, LF];
            ScriptOf(s + rest, fault, maxEvent, allowed)
            == After([], |s|, ScriptOf(rest, fault, maxEvent, allowed - |s|))
  {
    hide NextEvent, TrimSpace, Spaces, ScriptOf;
    assert PREFIX == Ascii("data: ");
    var s := RawEvent(b);
    BlankIsSpaces(b);
    RawEventRoundTrip(b, rest, fault, maxEvent);
    ScriptIs(s + rest, fault, maxEvent, allowed);
    assert (s + rest)[|s|..] == rest;
  }

  /** White space around the marker does not hide it. */
  lemma PaddedDone(a: Bytes, b: Bytes, more: Bytes, fault: Fault, maxEvent: int, allowed: int)
    requires Spaces(a) && Spaces(b) && NoBreaks(a) && NoBreaks(b)
    requires |a| + |b| + 14 <= maxEvent && |a| + |b| + 14 <= allowed
    ensures var s := Ascii("data: ") + (a + Ascii("[DONE]") + b) + [LF, LF];
            ScriptOf(s + more, fault, maxEvent, allowed) == Script([], Done(|s|))
  {
    hide NextEvent, TrimSpace, Tight;
    var payload := a + DONE + b;
    assert DONE == Ascii("[DONE]") && PREFIX == Ascii("data: ");
    DoneIsTrimmed();
    PrintableIsTight(DONE);
    TrimSpaceIs(a, DONE, b);
    RawEventRoundTrip(payload, more, fault, maxEvent);
    ScriptIs(RawEvent(payload) + more, fault, maxEvent, allowed);
  }
}
