/**
 What decoding comes to, in every case: which payload stops it and with what error,
 and at the end of the stream the verdict of the last finish reason.
 */
module Verdicts {
  import opened ByteText
  import opened Source
  import opened EventStream
  import opened Decoder

  /** The first `k` payloads are acceptable and their text is within the limit. */
  ghost predicate Accepted(ps: seq<Bytes>, decode: Bytes -> Chunk, limit: int, k: nat) {
    && k <= |ps|
    && (forall j: nat :: j < k ==> Acceptable(decode(ps[j])))
    && (limit > 0 ==> |Texts(ps[..k], decode)| <= limit)
  }

  ghost predicate SomeChoice(ps: seq<Bytes>, decode: Bytes -> Chunk) {
    exists j: nat :: j < |ps| && decode(ps[j]).Delta?
  }

  predicate GivesReason(c: Chunk) {
    c.Delta? && c.finish != []
  }

  /** `f` is the finish reason of the last payload that gives one, or empty when none does. */
  ghost predicate LastReason(ps: seq<Bytes>, decode: Bytes -> Chunk, f: Bytes) {
    if f == [] then forall j: nat :: j < |ps| ==> !GivesReason(decode(ps[j]))
    else
      exists m: nat ::
        && m < |ps| && GivesReason(decode(ps[m])) && decode(ps[m]).finish == f
        && forall j: nat :: m < j < |ps| ==> !GivesReason(decode(ps[j]))
  }

  lemma {:induction false} ReasonSnoc(ps: seq<Bytes>, p: Bytes, decode: Bytes -> Chunk, f: Bytes)
    ensures LastFinish(ps + [p], decode, f)
            == if GivesReason(decode(p)) then decode(p).finish else LastFinish(ps, decode, f)
    decreases |ps|
  {
    if ps == [] {
      assert [p][1..] == [];
    } else {
      assert (ps + [p])[1..] == ps[1..] + [p];
      ReasonSnoc(ps[1..], p, decode, if GivesReason(decode(ps[0])) then decode(ps[0]).finish else f);
    }
  }

  lemma ReasonGrows(ps: seq<Bytes>, p: Bytes, decode: Bytes -> Chunk, f: Bytes)
    requires LastReason(ps, decode, f)
    ensures LastReason(ps + [p], decode, if GivesReason(decode(p)) then decode(p).finish else f)
  {
    var all := ps + [p];
    assert forall j: nat :: j < |ps| ==> all[j] == ps[j];
    assert all[|ps|] == p;
    if !GivesReason(decode(p)) && f != [] {
      var m: nat :| && m < |ps| && GivesReason(decode(ps[m])) && decode(ps[m]).finish == f
                    && forall j: nat :: m < j < |ps| ==> !GivesReason(decode(ps[j]));
      assert decode(all[m]).finish == f;
    }
  }

  lemma {:induction false} LastFinishIsReason(ps: seq<Bytes>, decode: Bytes -> Chunk)
    ensures LastReason(ps, decode, LastFinish(ps, decode, []))
    decreases |ps|
  {
    if ps != [] {
      LastFinishIsReason(Init(ps), decode);
      ReasonGrows(Init(ps), Last(ps), decode, LastFinish(Init(ps), decode, []));
      ReasonSnoc(Init(ps), Last(ps), decode, []);
      assert Init(ps) + [Last(ps)] == ps;
    }
  }

  /** There is one last finish reason only. */
  lemma OneReason(ps: seq<Bytes>, decode: Bytes -> Chunk, f: Bytes, g: Bytes)
    requires LastReason(ps, decode, f) && LastReason(ps, decode, g)
    ensures f == g
  {
  }

  // --------------------------------------------------------- up to a payload

  lemma AcceptedBefore(ps: seq<Bytes>, decode: Bytes -> Chunk, limit: int, k: nat)
    requires 0 < k && Accepted(ps, decode, limit, k)
    ensures Accepted(ps, decode, limit, k - 1)
    ensures Texts(ps[..k], decode) == Texts(ps[..k - 1], decode) + TextOf(decode(ps[k - 1]))
  {
    assert ps[..k] == ps[..k - 1] + [ps[k - 1]];
    TextsSnoc(ps[..k - 1], ps[k - 1], decode);
  }

  /** After accepted payloads the fold stands at their text and last finish reason, and knows of any choice. */
  lemma {:induction false} Reaches(script: Script, decode: Bytes -> Chunk, limit: int, k: nat)
    requires Accepted(script.payloads, decode, limit, k)
    ensures var done := script.payloads[..k];
            Judge(script, decode, limit, [], [], false)
            == Judge(Drop(script, k), decode, limit, Texts(done, decode), LastFinish(done, decode, []),
                     SomeChoice(done, decode))
    decreases k
  {
    var ps := script.payloads;
    if k == 0 {
      assert ps[..0] == [] && Drop(script, 0) == script;
    } else {
      var before, p := ps[..k - 1], ps[k - 1];
      AcceptedBefore(ps, decode, limit, k);
      Reaches(script, decode, limit, k - 1);
      assert ps[..k] == before + [p];
      ReasonSnoc(before, p, decode, []);
      ChoiceSnoc(before, p, decode);
      assert Acceptable(decode(p));
      JudgeStep(Drop(script, k - 1), decode, limit, Texts(before, decode), LastFinish(before, decode, []),
                SomeChoice(before, decode));
      assert Drop(Drop(script, k - 1), 1) == Drop(script, k);
    }
  }

  lemma ChoiceSnoc(ps: seq<Bytes>, p: Bytes, decode: Bytes -> Chunk)
    ensures SomeChoice(ps + [p], decode) == (SomeChoice(ps, decode) || decode(p).Delta?)
  {
    var all := ps + [p];
    assert forall j: nat :: j < |ps| ==> all[j] == ps[j];
    assert all[|ps|] == p;
  }

  lemma JudgeStep(script: Script, decode: Bytes -> Chunk, limit: int, text: Bytes, finish: Bytes, saw: bool)
    requires script.payloads != []
    ensures var c := decode(script.payloads[0]);
            Acceptable(c) && (limit > 0 ==> |text + TextOf(c)| <= limit) ==>
              Judge(script, decode, limit, text, finish, saw)
              == Judge(Drop(script, 1), decode, limit, text + TextOf(c),
                       if GivesReason(c) then c.finish else finish, saw || c.Delta?)
  {
    assert text + [] == text;
  }

  /** The first payload that is not accepted decides the error, and the text before it is kept. */
  lemma StopsAt(script: Script, decode: Bytes -> Chunk, limit: int, k: nat)
    requires k < |script.payloads| && Accepted(script.payloads, decode, limit, k)
    ensures var r := Judge(script, decode, limit, [], [], false);
            var c := decode(script.payloads[k]);
            var text := Texts(script.payloads[..k], decode);
            && (c == Malformed ==> r == Decoded(text, [], Some(MalformedJson)))
            && (c == ErrorObject ==> r == Decoded(text, [], Some(EndpointError)))
            && (c == ManyChoices ==> r == Decoded(text, [], Some(TooManyChoices)))
            && (c == ToolCalls ==> r == Decoded(text, [], Some(ToolCallRequested)))
            && (c == FunctionCall ==> r == Decoded(text, [], Some(FunctionCallRequested)))
            && (c == BadContent ==> r == Decoded(text, [], Some(BadDelta)))
            && (c.Delta? && 0 < limit < |text| + |c.text| ==> r == Decoded(text, [], Some(OutputTooLong)))
  {
    Reaches(script, decode, limit, k);
  }

  /** Without [DONE] the text so far is kept, and the script's own error is the error. */
  lemma EndsWithoutDone(script: Script, decode: Bytes -> Chunk, limit: int)
    requires Accepted(script.payloads, decode, limit, |script.payloads|) && script.ending.Failed?
    ensures Judge(script, decode, limit, [], [], false)
            == Decoded(Texts(script.payloads, decode), [], Some(script.ending.error))
  {
    Reaches(script, decode, limit, |script.payloads|);
    assert script.payloads[..|script.payloads|] == script.payloads;
  }

  /** With [DONE] the last finish reason decides. */
  lemma FinishesBy(script: Script, decode: Bytes -> Chunk, limit: int, f: Bytes)
    requires Accepted(script.payloads, decode, limit, |script.payloads|) && script.ending.Done?
    requires LastReason(script.payloads, decode, f)
    ensures var r := Judge(script, decode, limit, [], [], false);
            var text := Texts(script.payloads, decode);
            if !SomeChoice(script.payloads, decode) then r == Decoded([], [], Some(NoChoices))
            else if f == [] || f == Ascii("stop") || f == Ascii("length") then r == Decoded(text, f, None)
            else r == Decoded(text, [], Some(BadFinish))
  {
    var ps := script.payloads;
    Reaches(script, decode, limit, |ps|);
    assert ps[..|ps|] == ps;
    LastFinishIsReason(ps, decode);
    OneReason(ps, decode, f, LastFinish(ps, decode, []));
    FinishWords(f);
    NoChoiceNoText(ps, decode);
  }

  lemma {:induction false} NoChoiceNoText(ps: seq<Bytes>, decode: Bytes -> Chunk)
    ensures !SomeChoice(ps, decode) ==> Texts(ps, decode) == []
    decreases |ps|
  {
    if ps != [] {
      NoChoiceNoText(Init(ps), decode);
      TextsSnoc(Init(ps), Last(ps), decode);
      ChoiceSnoc(Init(ps), Last(ps), decode);
      assert Init(ps) + [Last(ps)] == ps;
    }
  }

  /** One of these three cases always applies. */
  lemma {:induction false} AcceptedMost(ps: seq<Bytes>, decode: Bytes -> Chunk, limit: int, from: nat) returns (k: nat)
    requires Accepted(ps, decode, limit, from)
    ensures Accepted(ps, decode, limit, k)
    ensures k < |ps| ==>
              var c := decode(ps[k]);
              !Acceptable(c) || (c.Delta? && 0 < limit < |Texts(ps[..k], decode)| + |c.text|)
    decreases |ps| - from
  {
    k := from;
    if from < |ps| {
      assert ps[..from + 1] == ps[..from] + [ps[from]];
      TextsSnoc(ps[..from], ps[from], decode);
      if Accepted(ps, decode, limit, from + 1) {
        k := AcceptedMost(ps, decode, limit, from + 1);
      }
    }
  }

  // ------------------------------------------------- how a stream without [DONE] ends

  lemma {:induction false} BlockFails(s: Bytes, fault: Fault, remaining: int, first: bool)
    ensures var r := BlockFrom(s, fault, remaining, first);
            r.NoBlock? ==>
              || (r.error == TooLarge && |s| >= remaining)
              || (r.n == |s| && match fault
                                case Eof => r.error == EndOfInput || r.error == EndedEarly
                                case Timeout => r.error == IdleTimeout
                                case Broken => r.error == ReadFailed)
    decreases |s|
  {
    hide NextLine;
    LineFails(s, fault, remaining);
    var l := NextLine(s, fault, remaining);
    if l.Line? && l.text != [] { BlockFails(s[l.n..], fault, remaining - l.n, false); }
  }

  lemma LineFails(s: Bytes, fault: Fault, remaining: int)
    ensures var l := NextLine(s, fault, remaining);
            l.NoLine? ==>
              || (l.error == TooLarge && |s| >= remaining)
              || (l.n == |s| && match fault
                                case Eof => l.error == EndOfInput
                                case Timeout => l.error == IdleTimeout
                                case Broken => l.error == ReadFailed)
  {
  }

  /**
   A script without [DONE] fails by the limit it exceeds, and otherwise by the way
   the source ended.
   */
  lemma {:induction false} ScriptFails(s: Bytes, fault: Fault, maxEvent: int, allowed: int)
    ensures var r := ScriptOf(s, fault, maxEvent, allowed);
            r.ending.Failed? ==>
              || (r.ending.error == StreamTooLong && |s| > allowed)
              || (r.ending.error == EventTooLarge && |s| >= maxEvent)
              || (fault == Eof && r.ending.error == StreamEndedEarly)
              || (fault == Timeout && r.ending.error == IdleTimeoutReached)
              || (fault == Broken && r.ending.error == SourceFailed)
    decreases |s|
  {
    hide BlockFrom, Trimmed;
    BlockFails(s, fault, maxEvent, true);
    var e := NextEvent(s, fault, maxEvent);
    if e.n <= allowed && e.Event? { ScriptFails(s[e.n..], fault, maxEvent, allowed - e.n); }
  }
}
