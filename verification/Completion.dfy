/**
 One streamed completion (`doStream`): the decoder reads a length-limited body and
 its deltas pass through the secret filter to the caller.
 */
module Completion {
  import opened ByteText
  import opened Source
  import opened EventStream
  import opened Redaction
  import opened Delivery
  import opened Decoder
  import opened Conversation

  /** What the endpoint does with a request: an HTTP exchange, seen from its outcome. */
  datatype Reply =
    | NoResponse(sent: bool)
    | Rejected(sent: bool)
    | Streaming(sent: bool, body: Bytes, fault: Fault)

  datatype TurnError = TransportCancelled | TransportFailed | EndpointRejected | Stream(error: StreamError)

  predicate IsInterrupt(e: TurnError) {
    e == TransportCancelled || e == Stream(Cancelled)
  }

  datatype Turn = Turn(text: Bytes, finish: Bytes, sent: bool, error: Option<TurnError>)

  /** The bytes that io.LimitReader lets through, and how it ends. */
  function LimitReader(body: Bytes, fault: Fault, max: int): (Bytes, Fault) {
    if max <= 0 then ([], Eof)
    else if |body| >= max then (body[..max], Eof)
    else (body, fault)
  }

  /** The script of a body within the limits. */
  function BodyScript(body: Bytes, fault: Fault, limits: Limits): Script {
    ScriptOf(body, fault, limits.maxEvent, limits.maxStream)
  }

  /** Reading one byte more than the stream limit is enough: the script is that of the whole body. */
  lemma LimitIsUnseen(body: Bytes, fault: Fault, maxEvent: int, maxStream: int)
    ensures var (data, end) := LimitReader(body, fault, maxStream + 1);
            ScriptOf(data, end, maxEvent, maxStream) == ScriptOf(body, fault, maxEvent, maxStream)
  {
    hide ScriptOf;
    if maxStream < 0 {
      NothingAllowed(body, fault, maxEvent, maxStream);
      NothingAllowed([], Eof, maxEvent, maxStream);
    } else if maxStream < |body| {
      ScriptCut(body, fault, Eof, maxEvent, maxStream, maxStream + 1);
    }
  }

  /** The text a caller is given for the deltas `raw`. */
  function Shown(token: Bytes, raw: Bytes): Bytes {
    if token == [] then raw else Redacted(token, raw)
  }

  /** Whatever the endpoint sends after a settled [DONE] event, and however it then closes, the turn is the same. */
  lemma LaterBytesIgnored(body: Bytes, more: Bytes, fault: Fault, later: Fault, limits: Limits)
    requires var r := BodyScript(body, fault, limits); r.ending.Done? && Settled(body, r.ending.n)
    ensures BodyScript(body + more, later, limits) == BodyScript(body, fault, limits)
  {
    ScriptSettled(body, more, fault, later, limits.maxEvent, limits.maxStream);
  }

  /** A token that does not line up with the mark is never shown, in no turn at all. */
  lemma TokenNotShown(token: Bytes, raw: Bytes)
    requires token != [] && !Leaks(token)
    ensures !Contains(Shown(token, raw), token)
  {
    NoMarkNoCopy(token, raw);
  }

  /** Filtering makes a text at most ten times as long. */
  lemma ShownLength(token: Bytes, raw: Bytes)
    ensures |Shown(token, raw)| <= if token == [] then |raw| else 10 * |raw|
  {
    if token != [] {
      CutOfIsCut(token, raw);
      LengthConserved(token, raw, CutOf(token, raw));
    }
  }

  /** Nothing is cancelled and no call of the callback fails. */
  ghost predicate IsCalm(ctx: Cancellation, user: UserCallback?) {
    ctx.Never() && (user != null ==> forall i: nat :: !user.fails(i))
  }

  /** Errors that come from outside the stream: cancellation, the idle watchdog, or a failing callback. */
  predicate IsCutShort(e: Option<TurnError>) {
    || e == Some(TransportCancelled)
    || e in {Some(Stream(Cancelled)), Some(Stream(IdleTimeoutReached)), Some(Stream(WriteFailed))}
  }

  class Client {
    const token: Bytes
    const limits: Limits
    const decode: Bytes -> Chunk
    const replies: nat -> Reply
    var requests: seq<seq<Message>>

    constructor (token: Bytes, limits: Limits, decode: Bytes -> Chunk, replies: nat -> Reply)
      ensures this.token == token && this.limits == limits && this.decode == decode && this.replies == replies
      ensures requests == []
    {
      this.token, this.limits, this.decode, this.replies, requests := token, limits, decode, replies, [];
    }

    /** A body that decodes to its end without error. */
    ghost predicate Good(reply: Reply, limit: int) {
      reply.Streaming? && Succeeds(BodyScript(reply.body, reply.fault, limits), decode, limit)
    }

    /** What a reply comes to when nothing is cancelled and no callback fails. */
    function CalmTurn(reply: Reply, limit: int): Turn {
      match reply
      case NoResponse(sent) => Turn([], [], sent, Some(TransportFailed))
      case Rejected(sent) => Turn([], [], sent, Some(EndpointRejected))
      case Streaming(sent, body, fault) =>
        TurnOf(sent, Judge(BodyScript(body, fault, limits), decode, limit, [], [], false))
    }

    function TurnOf(sent: bool, d: Decoded): Turn {
      Turn(Shown(token, d.text), d.finish, sent, if d.error == None then None else Some(Stream(d.error.value)))
    }

    /** The deltas so far: those of the first `used` payloads of the body. */
    ghost predicate RawOf(reply: Reply, raw: Bytes, used: nat) {
      if reply.Streaming? then
        var ps := BodyScript(reply.body, reply.fault, limits).payloads;
        used <= |ps| && raw == Texts(ps[..used], decode)
      else raw == []
    }

    /**
     The text is the deltas `raw` as shown. The turn is the one the reply alone
     decides, unless it was cut short from outside. What the caller was handed,
     `given`, is the text, but for the last mark when an error comes before the flush.
     */
    ghost predicate Answers(reply: Reply, limit: int, t: Turn, raw: Bytes, used: nat, given: Bytes, calm: bool) {
      && t.sent == reply.sent
      && t.text == Shown(token, raw)
      && (limit > 0 ==> |raw| <= limit)
      && RawOf(reply, raw, used)
      && (t == CalmTurn(reply, limit) || (!calm && IsCutShort(t.error) && t.finish == []))
      && (given == t.text || (t.error != None && t.text == given + MARK))
    }

    lemma AnswerLength(reply: Reply, limit: int, t: Turn, raw: Bytes, used: nat, given: Bytes, calm: bool)
      requires limit > 0 && Answers(reply, limit, t, raw, used, given, calm)
      ensures |t.text| <= if token == [] then limit else 10 * limit
    {
      hide CalmTurn, RawOf, Shown;
      ShownLength(token, raw);
    }

    /**
     There is no error only for a good body, and then all its deltas are given; in calm
     conditions a good body always ends without one.
     */
    lemma AnswersGood(reply: Reply, limit: int, t: Turn, raw: Bytes, used: nat, given: Bytes, calm: bool)
      requires Answers(reply, limit, t, raw, used, given, calm)
      ensures t.error == None ==>
                && Good(reply, limit) && given == t.text
                && var ps := BodyScript(reply.body, reply.fault, limits).payloads;
                   t.text == Shown(token, Texts(ps, decode)) && t.finish == LastFinish(ps, decode, [])
      ensures calm && Good(reply, limit) ==> t.error == None
    {
      hide Judge, Texts, LastFinish, Succeeds, Shown, BodyScript, RawOf;
      if reply.Streaming? {
        SucceedsExactly(BodyScript(reply.body, reply.fault, limits), decode, limit);
      }
    }

    /** A decoded body and the tail of `doStream` make an answer; `e` is the error after the tail. */
    lemma ToAnswers(reply: Reply, limit: int, d: Decoded, used: nat, e: Option<StreamError>, given: Bytes, calm: bool)
      requires reply.Streaming? && Outcome(BodyScript(reply.body, reply.fault, limits), decode, limit, used, d, calm)
      requires e == d.error || (e == Some(WriteFailed) && !calm)
      requires var text := Shown(token, d.text); given == text || (e != None && text == given + MARK)
      ensures var t := TurnOf(reply.sent, Decoded(d.text, if e == None then d.finish else [], e));
              Answers(reply, limit, t, d.text, used, given, calm)
    {
      hide Judge, Texts, Shown, BodyScript;
    }

    /** The tail of `doStream`: the returned text is redacted as a whole, and after success the filter is flushed. */
    method ShowText(sink: DeltaSink, raw: Bytes, e: Option<StreamError>)
      returns (text: Bytes, err: Option<StreamError>, ghost given: Bytes)
      requires sink.Valid() && sink.received == raw
      requires if token == [] then sink.filter == null else sink.filter != null && sink.filter.secret == token
      modifies sink.Repr()
      ensures text == Shown(token, raw)
      ensures given == text || (err != None && text == given + MARK)
      ensures sink.user != null ==> Concat(sink.user.handed) == sink.start + given
      ensures err == e || (e == None && err == Some(WriteFailed) && !sink.NeverFails())
    {
      hide Redacted, Concat, IsCut;
      text, err, given := raw, e, sink.delivered;
      if sink.filter != null {
        text := sink.filter.RedactAssembledText(text);
        assert text == given + (if sink.filter.pending == [] then [] else MARK);
        assert given + [] == given;
        if err == None {
          var ok;
          ghost var rest;
          ok, rest := sink.Flush();
          given := given + rest;
          if !ok {
            err := Some(WriteFailed);
          }
        }
      }
    }

    method DecodeBody(ctx: Cancellation, reply: Reply, limit: int, user: UserCallback?)
      returns (t: Turn, ghost raw: Bytes, ghost used: nat, ghost given: Bytes)
      requires reply.Streaming?
      modifies ctx, if user == null then {} else {user}
      ensures Answers(reply, limit, t, raw, used, given, IsCalm(ctx, user))
      ensures user != null ==> Concat(user.handed) == old(Concat(user.handed)) + given
      ensures t.error.Some? && IsInterrupt(t.error.value) ==> exists i: nat :: ctx.parentDone(i)
    {
      hide ScriptOf, Shown, Concat, LimitReader, Outcome, Answers;
      LimitIsUnseen(reply.body, reply.fault, limits.maxEvent, limits.maxStream);
      var (data, end) := LimitReader(reply.body, reply.fault, limits.maxStream + 1);
      var br := new ByteReader(data, end);
      var filt: SecretFilter? := null;
      if token != [] {
        filt := new SecretFilter(token);
      }
      var sink := new DeltaSink(filt, user);
      assert br.Rest() == data;
      ghost var calm := IsCalm(ctx, user);
      var d;
      d, used := DecodeStream(ctx, br, limits, decode, limit, sink);
      raw := d.text;
      var text, err;
      text, err, given := ShowText(sink, d.text, d.error);
      var finish := if err == None then d.finish else [];
      t := Turn(text, finish, reply.sent, if err == None then None else Some(Stream(err.value)));
      ToAnswers(reply, limit, d, used, err, given, calm);
    }

    method StreamResult(ctx: Cancellation, messages: seq<Message>, limit: int, user: UserCallback?)
      returns (t: Turn, ghost raw: Bytes, ghost used: nat, ghost given: Bytes)
      modifies this, ctx, if user == null then {} else {user}
      ensures requests == old(requests) + [messages]
      ensures Answers(replies(|old(requests)|), limit, t, raw, used, given, IsCalm(ctx, user))
      ensures user != null ==> Concat(user.handed) == old(Concat(user.handed)) + given
      ensures t.error.Some? && IsInterrupt(t.error.value) ==> exists i: nat :: ctx.parentDone(i)
    {
      hide Concat, Shown;
      requests := requests + [messages];
      var reply := replies(|requests| - 1);
      raw, used, given := [], 0, [];
      NothingShown();
      match reply
      case NoResponse(sent) =>
        var done := ctx.ParentErr();
        t := Turn([], [], sent, Some(if done then TransportCancelled else TransportFailed));
        assert user != null ==> Concat(user.handed) + [] == Concat(user.handed);
      case Rejected(sent) =>
        t := Turn([], [], sent, Some(EndpointRejected));
        assert user != null ==> Concat(user.handed) + [] == Concat(user.handed);
      case Streaming(_, _, _) =>
        hide Answers;
        t, raw, used, given := DecodeBody(ctx, reply, limit, user);
    }

    lemma NothingShown()
      ensures Shown(token, []) == []
    {
      ShownLength(token, []);
    }
  }
}
