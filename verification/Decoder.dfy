/**
 The stream decoder (`decodeStream`): events are read up to `[DONE]` and folded
 into the assistant's text and finish reason, with an error exit at every step.
 */
module Decoder {
  import opened ByteText
  import opened Source
  import opened EventStream
  import opened Delivery

  /** What decoding one payload and checking it in order can come to. */
  datatype Chunk =
    | Malformed
    | ErrorObject
    | NoChoice
    | ManyChoices
    | ToolCalls
    | FunctionCall
    | BadContent
    | Delta(text: Bytes, finish: Bytes)

  datatype StreamError =
    | Cancelled
    | IdleTimeoutReached
    | StreamTooLong
    | EventTooLarge
    | SourceFailed
    | StreamEndedEarly
    | MalformedJson
    | EndpointError
    | TooManyChoices
    | ToolCallRequested
    | FunctionCallRequested
    | BadDelta
    | OutputTooLong
    | WriteFailed
    | NoChoices
    | BadFinish

  datatype Decoded = Decoded(text: Bytes, finish: Bytes, error: Option<StreamError>)

  datatype Limits = Limits(maxEvent: int, maxStream: int)

  /** "[DONE]", "stop" and "length" */
  const DONE: Bytes := [91, 68, 79, 78, 69, 93]
  const STOP: Bytes := [115, 116, 111, 112]
  const LENGTH: Bytes := [108, 101, 110, 103, 116, 104]

  function ErrorOf(e: ReadError): StreamError {
    match e
    case EndOfInput => StreamEndedEarly
    case EndedEarly => StreamEndedEarly
    case IdleTimeout => IdleTimeoutReached
    case ReadFailed => SourceFailed
    case TooLarge => EventTooLarge
  }

  function Fail(text: Bytes, e: StreamError): Decoded {
    Decoded(text, [], Some(e))
  }

  // ------------------------------------------------- from bytes to payloads

  /** `Done(n)`: the [DONE] event ended after `n` bytes. */
  datatype Ending = Done(n: nat) | Failed(error: StreamError)

  datatype Script = Script(payloads: seq<Bytes>, ending: Ending)

  function After(payloads: seq<Bytes>, n: nat, r: Script): Script {
    Script(payloads + r.payloads, if r.ending.Done? then Done(n + r.ending.n) else r.ending)
  }

  /** The trimmed data of an event; empty for a blank line or blank data. */
  function Trimmed(data: Option<Bytes>): Bytes {
    if data == None then [] else TrimSpace(data.value)
  }

  /** The nonblank payloads up to the first [DONE], within the limits. */
  function ScriptOf(s: Bytes, fault: Fault, maxEvent: int, allowed: int): (r: Script)
    decreases |s|
  {
    var e := NextEvent(s, fault, maxEvent);
    if e.n > allowed then Script([], Failed(StreamTooLong))
    else if e.NoEvent? then Script([], Failed(ErrorOf(e.error)))
    else
      var data := Trimmed(e.data);
      if data == DONE then Script([], Done(e.n))
      else After(if data == [] then [] else [data], e.n, ScriptOf(s[e.n..], fault, maxEvent, allowed - e.n))
  }

  lemma ScriptStep(s: Bytes, fault: Fault, maxEvent: int, allowed: int, payloads: seq<Bytes>, n: nat)
    ensures var e := NextEvent(s, fault, maxEvent);
            After(payloads, n, ScriptOf(s, fault, maxEvent, allowed))
            == if e.n > allowed then Script(payloads, Failed(StreamTooLong))
               else if e.NoEvent? then Script(payloads, Failed(ErrorOf(e.error)))
               else
                 var data := Trimmed(e.data);
                 if data == DONE then Script(payloads, Done(n + e.n))
                 else After(payloads + (if data == [] then [] else [data]), n + e.n,
                            ScriptOf(s[e.n..], fault, maxEvent, allowed - e.n))
  {
    hide NextEvent, Trimmed, After;
    var e := NextEvent(s, fault, maxEvent);
    AfterNone(payloads, n);
    if e.n <= allowed && e.Event? && Trimmed(e.data) != DONE {
      var more := if Trimmed(e.data) == [] then [] else [Trimmed(e.data)];
      AfterAfter(payloads, n, more, e.n, ScriptOf(s[e.n..], fault, maxEvent, allowed - e.n));
    }
  }

  lemma AfterAfter(p: seq<Bytes>, n: nat, q: seq<Bytes>, m: nat, r: Script)
    ensures After(p, n, After(q, m, r)) == After(p + q, n + m, r)
  {
    assert p + (q + r.payloads) == p + q + r.payloads;
  }

  lemma AfterNone(p: seq<Bytes>, n: nat)
    ensures forall ending: Ending ::
              After(p, n, Script([], ending)) == Script(p, if ending.Done? then Done(n + ending.n) else ending)
  {
    assert p + [] == p;
  }

  lemma ScriptIs(s: Bytes, fault: Fault, maxEvent: int, allowed: int)
    ensures var e := NextEvent(s, fault, maxEvent); var r := ScriptOf(s, fault, maxEvent, allowed);
            if e.n > allowed || e.NoEvent? then r.ending.Failed?
            else if Trimmed(e.data) == DONE then r == Script([], Done(e.n))
            else
              var data := Trimmed(e.data);
              var rest := ScriptOf(s[e.n..], fault, maxEvent, allowed - e.n);
              && r == After(if data == [] then [] else [data], e.n, rest)
              && r.ending == if rest.ending.Done? then Done(e.n + rest.ending.n) else rest.ending
  {
    hide NextEvent, Trimmed;
  }

  /** Bytes after a settled [DONE] event change nothing, however the source then ends. */
  lemma {:induction false} ScriptSettled(s: Bytes, more: Bytes, fault: Fault, later: Fault, maxEvent: int, allowed: int)
    requires var r := ScriptOf(s, fault, maxEvent, allowed); r.ending.Done? && Settled(s, r.ending.n)
    ensures ScriptOf(s + more, later, maxEvent, allowed) == ScriptOf(s, fault, maxEvent, allowed)
    decreases |s|
  {
    hide ScriptOf, NextEvent, Trimmed, After;
    var e := NextEvent(s, fault, maxEvent);
    var t := s[e.n..];
    ScriptIs(s, fault, maxEvent, allowed);
    ScriptIs(s + more, later, maxEvent, allowed);
    if Trimmed(e.data) == DONE {
      EventSettled(s, more, fault, later, maxEvent);
    } else {
      var n := ScriptOf(t, fault, maxEvent, allowed - e.n).ending.n;
      ScriptTakes(t, fault, maxEvent, allowed - e.n);
      assert Settled(t, n) by { assert t[n - 1] == s[e.n + n - 1]; }
      EventSettled(s, more, fault, later, maxEvent);
      assert (s + more)[e.n..] == t + more;
      ScriptSettled(t, more, fault, later, maxEvent, allowed - e.n);
    }
  }

  lemma NothingAllowed(s: Bytes, fault: Fault, maxEvent: int, allowed: int)
    requires allowed < 0
    ensures ScriptOf(s, fault, maxEvent, allowed) == Script([], Failed(StreamTooLong))
  {
    hide NextEvent;
  }

  /** Nothing changes when the source stops one byte past the limit, or later. */
  lemma {:induction false} ScriptCut(s: Bytes, fault: Fault, later: Fault, maxEvent: int, allowed: int, m: nat)
    requires allowed < m <= |s|
    ensures ScriptOf(s[..m], later, maxEvent, allowed) == ScriptOf(s, fault, maxEvent, allowed)
    decreases |s|
  {
    hide NextEvent, Trimmed, After;
    var e := NextEvent(s, fault, maxEvent);
    EventCut(s, fault, later, maxEvent, m);
    if e.n <= allowed && e.Event? {
      assert s[..m][e.n..] == s[e.n..][..m - e.n];
      ScriptCut(s[e.n..], fault, later, maxEvent, allowed - e.n, m - e.n);
    }
  }

  lemma {:induction false} ScriptTakes(s: Bytes, fault: Fault, maxEvent: int, allowed: int)
    ensures var r := ScriptOf(s, fault, maxEvent, allowed);
            r.ending.Done? ==> 0 < r.ending.n <= |s| && r.ending.n <= allowed
    decreases |s|
  {
    hide Trimmed;
    var e := NextEvent(s, fault, maxEvent);
    if e.Event? { ScriptTakes(s[e.n..], fault, maxEvent, allowed - e.n); }
  }

  /** The nonblank payloads before the first [DONE], and whether there is one. */
  function UpToDone(events: seq<Option<Bytes>>): (seq<Bytes>, bool) {
    if events == [] then ([], false)
    else if Trimmed(events[0]) == DONE then ([], true)
    else
      var (ps, done) := UpToDone(events[1..]);
      ((if Trimmed(events[0]) == [] then [] else [Trimmed(events[0])]) + ps, done)
  }

  /** A limit was what ended the script. */
  predicate LimitEnded(ending: Ending) {
    ending == Failed(EventTooLarge) || ending == Failed(StreamTooLong)
  }

  /**
   The payloads of the script are those of the text's grouped lines up to [DONE]:
   always the first of them, and all of them unless a limit ended the script. So
   converting the line ends does not change it.
   */
  lemma {:induction false} ScriptOfLines(s: Bytes, fault: Fault, maxEvent: int, allowed: int)
    ensures var r := ScriptOf(s, fault, maxEvent, allowed);
            r.payloads <= UpToDone(Group(Lines(s).0, [])).0
    ensures var r := ScriptOf(s, fault, maxEvent, allowed);
            !LimitEnded(r.ending) ==> (r.payloads, r.ending.Done?) == UpToDone(Group(Lines(s).0, []))
    decreases |s|
  {
    hide NextEvent, Trimmed, Lines, Group;
    var e := NextEvent(s, fault, maxEvent);
    if e.n <= allowed && (e.Event? || e.error != TooLarge) {
      EventIsGroup(s, fault, maxEvent);
      if e.Event? {
        var t := s[e.n..];
        ScriptOfLines(t, fault, maxEvent, allowed - e.n);
        assert ([e.data] + Group(Lines(t).0, []))[1..] == Group(Lines(t).0, []);
      }
    }
  }

  // ------------------------------------------------- from payloads to a result

  predicate FinishOk(finish: Bytes) {
    finish == [] || finish == STOP || finish == LENGTH
  }

  lemma FinishWords(finish: Bytes)
    ensures FinishOk(finish) <==> finish == [] || finish == Ascii("stop") || finish == Ascii("length")
  {
    assert STOP == Ascii("stop") && LENGTH == Ascii("length");
  }

  /** The end of the stream, once [DONE] was seen. */
  function Finish(text: Bytes, finish: Bytes, sawChoice: bool): Decoded {
    if !sawChoice && text == [] then Fail([], NoChoices)
    else if FinishOk(finish) then Decoded(text, finish, None)
    else Fail(text, BadFinish)
  }

  /** One payload: an error that ends the turn, or the state after it. */
  datatype StepResult = Stop(error: StreamError) | Go(text: Bytes, finish: Bytes, sawChoice: bool)

  function Step(c: Chunk, limit: int, text: Bytes, finish: Bytes, sawChoice: bool): StepResult {
    match c
    case Malformed => Stop(MalformedJson)
    case ErrorObject => Stop(EndpointError)
    case NoChoice => Go(text, finish, sawChoice)
    case ManyChoices => Stop(TooManyChoices)
    case ToolCalls => Stop(ToolCallRequested)
    case FunctionCall => Stop(FunctionCallRequested)
    case BadContent => Stop(BadDelta)
    case Delta(t, f) =>
      if t != [] && limit > 0 && |text| + |t| > limit then Stop(OutputTooLong)
      else Go(text + t, if f != [] then f else finish, true)
  }

  /** The fold over the payloads, from a text and finish reason so far. */
  function Judge(script: Script, decode: Bytes -> Chunk, limit: int,
                 text: Bytes, finish: Bytes, sawChoice: bool): Decoded
    decreases |script.payloads|
  {
    if script.payloads == [] then
      match script.ending
      case Done(_) => Finish(text, finish, sawChoice)
      case Failed(e) => Fail(text, e)
    else
      match Step(decode(script.payloads[0]), limit, text, finish, sawChoice)
      case Stop(e) => Fail(text, e)
      case Go(t, f, s) => Judge(Drop(script, 1), decode, limit, t, f, s)
  }

  function Drop(script: Script, k: nat): Script
    requires k <= |script.payloads|
  {
    script.(payloads := script.payloads[k..])
  }

  predicate Acceptable(c: Chunk) {
    c.NoChoice? || c.Delta?
  }

  function TextOf(c: Chunk): Bytes {
    if c.Delta? then c.text else []
  }

  /** The deltas of the payloads, one after the other. */
  function Texts(payloads: seq<Bytes>, decode: Bytes -> Chunk): Bytes {
    if payloads == [] then [] else TextOf(decode(payloads[0])) + Texts(payloads[1..], decode)
  }

  /** The last nonempty finish reason, or `finish` when there is none. */
  function LastFinish(payloads: seq<Bytes>, decode: Bytes -> Chunk, finish: Bytes): Bytes {
    if payloads == [] then finish
    else
      var c := decode(payloads[0]);
      LastFinish(payloads[1..], decode, if c.Delta? && c.finish != [] then c.finish else finish)
  }

  /** The stream is good: stated without any running state. */
  ghost predicate Succeeds(script: Script, decode: Bytes -> Chunk, limit: int) {
    && script.ending.Done?
    && (forall k: nat :: k < |script.payloads| ==> Acceptable(decode(script.payloads[k])))
    && (exists k: nat :: k < |script.payloads| && decode(script.payloads[k]).Delta?)
    && (var f := LastFinish(script.payloads, decode, []);
        f == [] || f == Ascii("stop") || f == Ascii("length"))
    && (limit > 0 ==> |Texts(script.payloads, decode)| <= limit)
  }

  lemma FirstAndRest(ps: seq<Bytes>, decode: Bytes -> Chunk)
    requires ps != []
    ensures (forall k: nat :: k < |ps| ==> Acceptable(decode(ps[k])))
       <==> Acceptable(decode(ps[0])) && forall k: nat :: k < |ps| - 1 ==> Acceptable(decode(ps[1..][k]))
    ensures (exists k: nat :: k < |ps| && decode(ps[k]).Delta?)
       <==> decode(ps[0]).Delta? || exists k: nat :: k < |ps| - 1 && decode(ps[1..][k]).Delta?
  {
    assert forall k: nat :: 0 < k < |ps| ==> ps[k] == ps[1..][k - 1];
    assert forall k: nat :: k < |ps| - 1 ==> ps[1..][k] == ps[k + 1];
  }

  /** What is left to decode is good, given the text, finish reason and choice so far. */
  ghost predicate GoodFrom(script: Script, decode: Bytes -> Chunk, limit: int, text: Bytes, finish: Bytes, saw: bool) {
    var ps := script.payloads;
    && script.ending.Done?
    && (forall k: nat :: k < |ps| ==> Acceptable(decode(ps[k])))
    && (saw || exists k: nat :: k < |ps| && decode(ps[k]).Delta?)
    && FinishOk(LastFinish(ps, decode, finish))
    && (limit > 0 ==> |text + Texts(ps, decode)| <= limit)
  }

  lemma GoodStep(script: Script, decode: Bytes -> Chunk, limit: int, text: Bytes, finish: Bytes, saw: bool)
    requires script.payloads != []
    ensures var c := decode(script.payloads[0]);
            var rest := Drop(script, 1);
            var f := if c.Delta? && c.finish != [] then c.finish else finish;
            && (GoodFrom(script, decode, limit, text, finish, saw)
                <==> Acceptable(c) && GoodFrom(rest, decode, limit, text + TextOf(c), f, saw || c.Delta?))
            && text + Texts(script.payloads, decode) == (text + TextOf(c)) + Texts(rest.payloads, decode)
            && LastFinish(script.payloads, decode, finish) == LastFinish(rest.payloads, decode, f)
  {
    hide FinishOk, Acceptable;
    var ps := script.payloads;
    FirstAndRest(ps, decode);
    var c := decode(ps[0]);
    assert text + (TextOf(c) + Texts(ps[1..], decode)) == (text + TextOf(c)) + Texts(ps[1..], decode);
  }

  lemma {:induction false} JudgeFrom(script: Script, decode: Bytes -> Chunk, limit: int,
                                     text: Bytes, finish: Bytes, saw: bool)
    requires limit > 0 ==> |text| <= limit
    requires text != [] ==> saw
    ensures var r := Judge(script, decode, limit, text, finish, saw);
            && (r.error == None <==> GoodFrom(script, decode, limit, text, finish, saw))
            && (r.error == None ==> r.text == text + Texts(script.payloads, decode)
                                    && r.finish == LastFinish(script.payloads, decode, finish))
    decreases |script.payloads|
  {
    var ps := script.payloads;
    if ps == [] {
      assert text + [] == text;
    } else {
      hide FinishOk, GoodFrom;
      GoodStep(script, decode, limit, text, finish, saw);
      var c, rest := decode(ps[0]), Drop(script, 1);
      if c.NoChoice? {
        assert text + [] == text;
        JudgeFrom(rest, decode, limit, text, finish, saw);
      } else if c.Delta? {
        if c.text != [] && limit > 0 && |text| + |c.text| > limit {
          TooLongIsNotGood(rest, decode, limit, text + c.text, if c.finish != [] then c.finish else finish, true);
        } else {
          JudgeFrom(rest, decode, limit, text + c.text, if c.finish != [] then c.finish else finish, true);
        }
      }
    }
  }

  lemma TooLongIsNotGood(script: Script, decode: Bytes -> Chunk, limit: int, text: Bytes, finish: Bytes, saw: bool)
    requires limit > 0 && |text| > limit
    ensures !GoodFrom(script, decode, limit, text, finish, saw)
  {
  }

  /** Decoding succeeds exactly when the stream is good, and then gives all its deltas. */
  lemma SucceedsExactly(script: Script, decode: Bytes -> Chunk, limit: int)
    ensures var r := Judge(script, decode, limit, [], [], false);
            && (r.error == None <==> Succeeds(script, decode, limit))
            && (r.error == None ==> r.text == Texts(script.payloads, decode)
                                    && r.finish == LastFinish(script.payloads, decode, []))
  {
    JudgeFrom(script, decode, limit, [], [], false);
    FinishWords(LastFinish(script.payloads, decode, []));
    assert [] + Texts(script.payloads, decode) == Texts(script.payloads, decode);
  }

  // ------------------------------------------------------------- the decoder

  lemma {:induction false} TextsSnoc(ps: seq<Bytes>, p: Bytes, decode: Bytes -> Chunk)
    ensures Texts(ps + [p], decode) == Texts(ps, decode) + TextOf(decode(p))
  {
    if ps == [] {
      assert Texts([p], decode) == TextOf(decode(p)) + [];
    } else {
      assert (ps + [p])[1..] == ps[1..] + [p];
      TextsSnoc(ps[1..], p, decode);
      var t, u, v := TextOf(decode(ps[0])), Texts(ps[1..], decode), TextOf(decode(p));
      assert t + (u + v) == (t + u) + v;
    }
  }

  /** The fold has dealt with the payloads `ps` of the script and stands at the given state. */
  ghost predicate Standing(script: Script, ps: seq<Bytes>, decode: Bytes -> Chunk, limit: int,
                           text: Bytes, finish: Bytes, sawChoice: bool)
  {
    && ps <= script.payloads
    && text == Texts(ps, decode)
    && (text != [] ==> sawChoice)
    && (limit > 0 ==> |text| <= limit)
    && Judge(script, decode, limit, [], [], false) == Judge(Drop(script, |ps|), decode, limit, text, finish, sawChoice)
  }

  lemma StandingStep(script: Script, ps: seq<Bytes>, p: Bytes, decode: Bytes -> Chunk, limit: int,
                     text: Bytes, finish: Bytes, sawChoice: bool)
    requires Standing(script, ps, decode, limit, text, finish, sawChoice)
    requires ps + [p] <= script.payloads
    ensures var r := Step(decode(p), limit, text, finish, sawChoice);
            if r.Stop? then Judge(script, decode, limit, [], [], false) == Fail(text, r.error)
            else Standing(script, ps + [p], decode, limit, r.text, r.finish, r.sawChoice)
  {
    var rest := Drop(script, |ps|);
    assert rest.payloads[0] == (ps + [p])[|ps|] == p;
    assert Drop(rest, 1) == Drop(script, |ps| + 1);
    TextsSnoc(ps, p, decode);
    assert text + [] == text;
  }

  lemma StandingFirst(script: Script, decode: Bytes -> Chunk, limit: int)
    ensures Standing(script, [], decode, limit, [], [], false)
  {
    assert Drop(script, 0) == script;
  }

  lemma AfterNothing(script: Script)
    ensures script == After([], 0, script)
  {
    assert [] + script.payloads == script.payloads;
  }

  lemma AfterPrefix(p: seq<Bytes>, n: nat, r: Script)
    ensures p <= After(p, n, r).payloads
  {
  }

  /**
   On every exit the text is the deltas of the first `used` payloads and within
   the limit; and the result is the fold's, unless the turn was cut short from
   outside, which cannot happen in calm conditions.
   */
  ghost predicate Outcome(script: Script, decode: Bytes -> Chunk, limit: int, used: nat, r: Decoded, calm: bool) {
    && used <= |script.payloads|
    && r.text == Texts(script.payloads[..used], decode)
    && (limit > 0 ==> |r.text| <= limit)
    && (r.error != None ==> r.finish == [])
    && (|| r == Judge(script, decode, limit, [], [], false)
        || (!calm && r.error in {Some(Cancelled), Some(IdleTimeoutReached), Some(WriteFailed)}))
  }

  lemma CutShort(script: Script, ps: seq<Bytes>, decode: Bytes -> Chunk, limit: int,
                 text: Bytes, finish: Bytes, sawChoice: bool, e: StreamError)
    requires Standing(script, ps, decode, limit, text, finish, sawChoice)
    requires e in {Cancelled, IdleTimeoutReached, WriteFailed}
    ensures Outcome(script, decode, limit, |ps|, Fail(text, e), false)
  {
    hide Judge, Texts;
    assert script.payloads[..|ps|] == ps;
  }

  lemma Stopped(script: Script, ps: seq<Bytes>, decode: Bytes -> Chunk, limit: int,
                text: Bytes, finish: Bytes, sawChoice: bool, e: StreamError, calm: bool)
    requires Standing(script, ps, decode, limit, text, finish, sawChoice)
    requires Judge(script, decode, limit, [], [], false) == Fail(text, e)
    ensures Outcome(script, decode, limit, |ps|, Fail(text, e), calm)
  {
    hide Judge, Texts;
    assert script.payloads[..|ps|] == ps;
  }

  /** With no payload left, the fold ends as the script does. */
  lemma Ended(script: Script, ps: seq<Bytes>, decode: Bytes -> Chunk, limit: int,
              text: Bytes, finish: Bytes, sawChoice: bool, calm: bool)
    requires Standing(script, ps, decode, limit, text, finish, sawChoice) && ps == script.payloads
    ensures var r := if script.ending.Done? then Finish(text, finish, sawChoice) else Fail(text, script.ending.error);
            Outcome(script, decode, limit, |ps|, r, calm)
    ensures !sawChoice ==> text == []
  {
    hide Texts, FinishOk;
    assert script.payloads[..|ps|] == ps;
  }

  /** The checks of one choice, in the code's order; `ok` is false when the callback fails. */
  method TakeChunk(c: Chunk, limit: int, sink: DeltaSink, text: Bytes, finish: Bytes, sawChoice: bool)
    returns (r: StepResult, ok: bool)
    requires sink.Valid()
    modifies sink.Repr()
    ensures sink.Valid()
    ensures r == Step(c, limit, text, finish, sawChoice)
    ensures r.Stop? ==> ok && sink.received == old(sink.received)
    ensures r.Go? ==> r.text == text + TextOf(c) && sink.received == old(sink.received) + TextOf(c)
    ensures r.Stop? ==> r.error != Cancelled
    ensures sink.NeverFails() ==> ok
  {
    ok := true;
    assert text + [] == text && sink.received + [] == sink.received;
    hide DeltaSink.Valid;
    match c
    case Malformed => r := Stop(MalformedJson);
    case ErrorObject => r := Stop(EndpointError);
    case NoChoice => r := Go(text, finish, sawChoice);
    case ManyChoices => r := Stop(TooManyChoices);
    case ToolCalls => r := Stop(ToolCallRequested);
    case FunctionCall => r := Stop(FunctionCallRequested);
    case BadContent => r := Stop(BadDelta);
    case Delta(t, reason) =>
      var assembled, last := text, finish;
      if t != [] {
        if limit > 0 && |text| + |t| > limit {
          return Stop(OutputTooLong), true;
        }
        assembled := assembled + t;
        ok := sink.OnDelta(t);
      }
      if reason != [] {
        last := reason;
      }
      r := Go(assembled, last, true);
  }

  /** The caller's context is asked first, then the stream's. */
  method Poll(ctx: Cancellation) returns (stop: Option<StreamError>)
    modifies ctx
    ensures stop in {None, Some(Cancelled), Some(IdleTimeoutReached)}
    ensures ctx.Never() ==> stop == None
    ensures stop == Some(Cancelled) ==> exists i: nat :: ctx.parentDone(i)
  {
    var done := ctx.ParentErr();
    if done {
      return Some(Cancelled);
    }
    done := ctx.StreamErr();
    stop := if done then Some(IdleTimeoutReached) else None;
  }

  method DecodeStream(ctx: Cancellation, br: ByteReader, limits: Limits, decode: Bytes -> Chunk,
                      limit: int, sink: DeltaSink)
    returns (r: Decoded, ghost used: nat)
    requires br.Valid() && sink.Valid()
    modifies ctx, br, sink.Repr()
    ensures br.Valid() && sink.Valid()
    ensures sink.received == old(sink.received) + r.text
    ensures var script := ScriptOf(old(br.Rest()), br.fault, limits.maxEvent, limits.maxStream);
            Outcome(script, decode, limit, used, r, ctx.Never() && sink.NeverFails())
    ensures r.error == Some(Cancelled) ==> exists i: nat :: ctx.parentDone(i)
  {
    hide ScriptOf, NextEvent, Judge, Texts, Standing, Outcome, After, TrimSpace, Step, FinishOk;
    hide DeltaSink.Valid, DeltaSink.NeverFails, Cancellation.Never;
    var assembled: Bytes, finish: Bytes, sawChoice := [], [], false;
    var totalRead := 0;
    ghost var calm := ctx.Never() && sink.NeverFails();
    ghost var script := ScriptOf(br.Rest(), br.fault, limits.maxEvent, limits.maxStream);
    ghost var ps: seq<Bytes>, rest := [], script;
    StandingFirst(script, decode, limit);
    AfterNothing(script);
    while true
      invariant br.Valid() && sink.Valid() && br.pos == old(br.pos) + totalRead
      invariant rest == ScriptOf(br.Rest(), br.fault, limits.maxEvent, limits.maxStream - totalRead)
      invariant script == After(ps, totalRead, rest)
      invariant Standing(script, ps, decode, limit, assembled, finish, sawChoice)
      invariant sink.received == old(sink.received) + assembled
      decreases |br.data| - br.pos
    {
      var stop := Poll(ctx);
      if stop != None {
        CutShort(script, ps, decode, limit, assembled, finish, sawChoice, stop.value);
        return Fail(assembled, stop.value), |ps|;
      }
      ScriptStep(br.Rest(), br.fault, limits.maxEvent, limits.maxStream - totalRead, ps, totalRead);
      ghost var before := br.Rest();
      var event := ReadSSEEvent(br, limits.maxEvent);
      totalRead := totalRead + event.n;
      if totalRead > limits.maxStream {
        Ended(script, ps, decode, limit, assembled, finish, sawChoice, calm);
        return Fail(assembled, StreamTooLong), |ps|;
      }
      if event.NoEvent? {
        stop := Poll(ctx);
        if stop != None {
          CutShort(script, ps, decode, limit, assembled, finish, sawChoice, stop.value);
          return Fail(assembled, stop.value), |ps|;
        }
        Ended(script, ps, decode, limit, assembled, finish, sawChoice, calm);
        return Fail(assembled, ErrorOf(event.error)), |ps|;
      }
      assert br.Rest() == before[event.n..];
      rest := ScriptOf(br.Rest(), br.fault, limits.maxEvent, limits.maxStream - totalRead);
      if event.data == None {
        assert ps + [] == ps;
        continue;
      }
      var data := TrimSpace(event.data.value);
      if data == [] {
        assert ps + [] == ps;
        continue;
      }
      if data == DONE {
        break;
      }
      AfterPrefix(ps + [data], totalRead, rest);
      StandingStep(script, ps, data, decode, limit, assembled, finish, sawChoice);
      var next, ok := TakeChunk(decode(data), limit, sink, assembled, finish, sawChoice);
      if next.Stop? {
        Stopped(script, ps, decode, limit, assembled, finish, sawChoice, next.error, calm);
        return Fail(assembled, next.error), |ps|;
      }
      ps := ps + [data];
      assembled, finish, sawChoice := next.text, next.finish, next.sawChoice;
      if !ok {
        CutShort(script, ps, decode, limit, assembled, finish, sawChoice, WriteFailed);
        return Fail(assembled, WriteFailed), |ps|;
      }
    }
    Ended(script, ps, decode, limit, assembled, finish, sawChoice, calm);
    used := |ps|;
    if !sawChoice && assembled == [] {
      r := Fail([], NoChoices);
    } else if FinishOk(finish) {
      r := Decoded(assembled, finish, None);
    } else {
      r := Fail(assembled, BadFinish);
    }
  }
}
