/**
 The session loop itself: `runOpts`, `handleCommand` and `emit`, over a conversation,
 a client and a record writer.
 */
module Repl {
  import opened ByteText
  import opened Source
  import opened Delivery
  import opened Completion
  import opened Conversation
  import opened InputLines
  import opened Session
  import opened Runs

  /** The optional record writer. `entries` also remembers attempts that failed, and the calls behind the records. */
  class Recorder {
    const recording: bool
    const fails: nat -> bool
    var written: seq<Record>
    ghost var entries: seq<Entry>

    ghost predicate Valid()
      reads this
    {
      written == if recording then Written(entries) else []
    }

    ghost predicate CanFail() {
      recording && exists i: nat :: fails(i)
    }

    constructor (recording: bool, fails: nat -> bool)
      ensures Valid() && entries == [] && this.recording == recording && this.fails == fails
    {
      this.recording, this.fails, written, entries := recording, fails, [], [];
    }

    /** Without a writer nothing fails; with one, just what it refuses. */
    method Emit(r: Record, ghost call: Option<Call>) returns (ok: bool)
      requires Valid()
      modifies this
      ensures Valid() && entries == old(entries) + [Entry(r, call, ok)]
      ensures ok == (!recording || !fails(|old(written)|))
      ensures !ok ==> CanFail()
    {
      ok := !recording || !fails(|written|);
      if recording && ok {
        written := written + [r];
      }
      LogGrows(entries, Entry(r, call, ok));
      entries := entries + [Entry(r, call, ok)];
    }
  }

  datatype Ending = OnEof | OnQuit | OnInterrupt | OnWriteFailure | OnReadFailure

  datatype Next = Continue | Exit(code: int, ending: Ending)

  /** Between two lines: no turn is staged, and conversation, requests and output are what the log says. */
  ghost predicate Between(w: World, conv: Conversation, rec: Recorder, out: UserCallback?)
    reads conv, w.client, rec, if out == null then {} else {out}
  {
    && conv.Valid() && conv.staged == None
    && conv.budget == w.cfg.budget && conv.reserve == w.cfg.reserve && conv.system == SystemOf(w.cfg)
    && rec.Valid()
    && conv.history == Committed(Records(rec.entries))
    && w.client.requests == w.before + Requests(rec.entries)
    && (out != null ==> Concat(out.handed) == w.printed + Printed(rec.entries))
    && RunLog(w, rec.entries)
  }

  ghost predicate Open(entries: seq<Entry>) {
    entries != [] ==> !Terminal(Last(entries))
  }

  /** What handling a line comes to, by its entry. */
  ghost predicate Handles(e: Entry, n: nat, next: Next, failed: bool, interruptCode: int) {
    && e.record.line == n
    && failed == IsFailure(e.record)
    && next == if e.record.InterruptedTurn? then Exit(interruptCode, OnInterrupt)
               else if !e.written then Exit(EXIT_ERROR, OnWriteFailure)
               else if e.record.QuitRecord? then Exit(EXIT_OK, OnQuit)
               else Continue
  }

  lemma LogStep(w: World, past: seq<Entry>, e: Entry)
    requires RunLog(w, past) && Open(past) && Correct(w, past, e)
    ensures RunLog(w, past + [e])
    ensures Requests(past + [e]) == Requests(past) + RequestOf(e)
    ensures Printed(past + [e]) == Printed(past) + PrintedBy(e)
    ensures Committed(Records(past + [e]))
            == if e.record.OkTurn? then
                 Without(Committed(Records(past)), e.record.trimmed)
                 + [Message(User, e.record.input), Message(Assistant, e.record.output)]
               else if e.record.ClearRecord? then []
               else Committed(Records(past))
  {
    hide RunLog, Correct, Committed, OkSince, TrimmedSince, Without, Units, Request;
    hide Records, Requests, RequestOf, Printed, PrintedBy;
    RunLogGrows(w, past, e);
    LogGrows(past, e);
    RunTrims(w, past);
    if e.record.OkTurn? { TurnTrims(w, past, e); }
    CommittedStep(Records(past), e.record);
  }

  // ------------------------------------------------------------------- turns

  lemma TurnStep(w: World, past: seq<Entry>, n: nat, text: Bytes, e: Entry)
    requires RunLog(w, past) && Open(past) && IsTurn(w, past, n, text, e)
    requires n > 0 && Line(w, n - 1).Got? && Line(w, n - 1).text == text
    requires var cmd := TrimSpace(text); cmd != [] && cmd != QUIT && cmd != CLEAR && !([SLASH] <= cmd)
    ensures e.record.line == n && RunLog(w, past + [e])
    ensures Requests(past + [e]) == Requests(past) + RequestOf(e)
    ensures Printed(past + [e]) == Printed(past) + PrintedBy(e)
    ensures Committed(Records(past + [e]))
            == if e.record.OkTurn? then
                 Without(Committed(Records(past)), e.record.trimmed)
                 + [Message(User, e.record.input), Message(Assistant, e.record.output)]
               else Committed(Records(past))
  {
    hide RunLog, Committed, Records, Requests, RequestOf, Printed, PrintedBy, Line, TrimSpace, VerdictOn, ReplyAfter;
    hide Client.Answers, Without, Request;
    LogStep(w, past, e);
  }

  /** The call of a staged turn with its line break, and the commit or abort that its answer leads to. */
  method CallAndSettle(conv: Conversation, client: Client, msgs: seq<Message>, ctx: Cancellation, out: UserCallback?)
    returns (turn: Turn, interrupted: bool, ghost call: Call)
    requires conv.Valid() && conv.staged.Some?
    modifies conv, client, ctx, if out == null then {} else {out}
    ensures conv.Valid() && conv.staged == None
    ensures client.requests == old(client.requests) + [msgs]
    ensures call.messages == msgs && call.turn == turn
    ensures client.Answers(client.replies(|old(client.requests)|), conv.budget, turn, call.raw, call.used, call.given,
                           IsCalm(ctx, out))
    ensures out != null ==> Concat(out.handed) == old(Concat(out.handed)) + (call.given + LineBreak(turn))
    ensures conv.history == if turn.error != None then old(conv.history)
                            else Without(old(conv.history), old(conv.staged).value.trimmed)
                                 + [old(conv.staged).value.user, Message(Assistant, turn.text)]
    ensures interrupted ==> turn.error != None && !IsCalm(ctx, out) && exists i: nat :: ctx.parentDone(i)
    ensures turn.error.Some? && IsInterrupt(turn.error.value) ==> interrupted
  {
    hide Client.Answers, Without, Concat;
    ghost var raw, used, given;
    turn, raw, used, given := client.StreamResult(ctx, msgs, conv.budget, out);
    call := Call(msgs, turn, raw, used, given);
    PrintBreak(turn, out);
    if out != null { JoinThree(old(Concat(out.handed)), given, LineBreak(turn)); }
    interrupted := false;
    if turn.error != None {
      conv.Abort();
      interrupted := IsInterrupt(turn.error.value);
      if !interrupted {
        interrupted := ctx.ParentErr();
      }
    } else {
      // A turn is staged, so committing it cannot fail.
      var committed := conv.Commit(turn.text);
      assert committed;
    }
  }

  lemma JoinThree(a: Bytes, b: Bytes, c: Bytes)
    ensures a + b + c == a + (b + c)
  {
  }

  /** Ends the printed answer's line; a failure to print it is ignored. */
  method PrintBreak(t: Turn, out: UserCallback?)
    modifies if out == null then {} else {out}
    ensures out != null ==> Concat(out.handed) == old(Concat(out.handed)) + LineBreak(t)
    ensures out != null ==>
              var unbroken := t.text != [] && t.text[|t.text| - 1] != LF;
              Concat(out.handed)
              == old(Concat(out.handed)) + if unbroken || (t.text == [] && t.error == None) then [LF] else []
  {
    if out == null {
      return;
    }
    assert Concat(out.handed) + [] == Concat(out.handed);
    if t.text != [] && Last(t.text) != LF {
      var _ := out.Call([LF]);
    } else if t.text == [] && t.error == None {
      var _ := out.Call([LF]);
    }
  }

  method TakeTurn(ghost w: World, n: nat, text: Bytes, conv: Conversation, client: Client, rec: Recorder,
                  ctx: Cancellation, out: UserCallback?, interruptCode: int)
    returns (next: Next, failed: bool, ghost e: Entry)
    requires client == w.client && w.calm == IsCalm(ctx, out)
    requires Between(w, conv, rec, out) && Open(rec.entries)
    requires n > 0 && Line(w, n - 1).Got? && Line(w, n - 1).text == text
    requires var cmd := TrimSpace(text); cmd != [] && cmd != QUIT && cmd != CLEAR && !([SLASH] <= cmd)
    modifies conv, client, rec, ctx, if out == null then {} else {out}
    ensures Between(w, conv, rec, out) && rec.entries == old(rec.entries) + [e]
    ensures Handles(e, n, next, failed, interruptCode)
    ensures e.call.Some? ==>
              exists k: nat :: InOrder(e.call.value.messages, conv.system, old(conv.history), k, Message(User, text))
    ensures !e.written ==> rec.CanFail()
    ensures next.Exit? && next.ending == OnInterrupt ==> exists i: nat :: ctx.parentDone(i)
  {
    hide RunLog, Committed, Records, Requests, Printed, Line, TrimSpace, StageVerdict, Client.Answers, Without, Request;
    hide InOrder, Alternates;
    hide Conversation.Valid, Recorder.Valid, Recorder.CanFail, IsCalm, Concat, LineBreak;
    ghost var past, call := rec.entries, None;
    var record: Record;
    failed := true;
    var r := conv.Stage(text);
    if r.Err? {
      record := ErrorTurn(n, Some(text), false, CannotStage(r.error));
    } else {
      var (msgs, trimmed) := r.value;
      ghost var c;
      var turn, interrupted;
      turn, interrupted, c := CallAndSettle(conv, client, msgs, ctx, out);
      call := Some(c);
      if turn.error == None {
        record, failed := OkTurn(n, text, turn.text, turn.finish, trimmed), false;
      } else if interrupted {
        record, failed := InterruptedTurn(n, text, turn.sent), false;
      } else {
        record := ErrorTurn(n, Some(text), turn.sent, TurnFailed(turn.error.value));
      }
    }
    var ok := rec.Emit(record, call);
    e := Entry(record, call, ok);
    TurnStep(w, past, n, text, e);
    JoinThreeRequests(w.before, Requests(past), RequestOf(e));
    JoinThree(w.printed, Printed(past), PrintedBy(e));
    next := if record.InterruptedTurn? then Exit(interruptCode, OnInterrupt)
            else if ok then Continue
            else Exit(EXIT_ERROR, OnWriteFailure);
  }

  lemma JoinThreeRequests(a: seq<seq<Message>>, b: seq<seq<Message>>, c: seq<seq<Message>>)
    ensures a + b + c == a + (b + c) && a + [] == a
  {
  }

  // ------------------------------------------------------------ other lines

  /** A line that makes no call: its entry follows from the line alone. */
  lemma PlainStep(w: World, past: seq<Entry>, e: Entry)
    requires RunLog(w, past) && Open(past) && Correct(w, past, e) && e.call == None && !e.record.OkTurn?
    ensures RunLog(w, past + [e])
    ensures Requests(past + [e]) == Requests(past) && Printed(past + [e]) == Printed(past)
    ensures Committed(Records(past + [e])) == if e.record.ClearRecord? then [] else Committed(Records(past))
  {
    hide RunLog, Correct, Committed, Records, Requests, Printed, Without, Units, Request;
    LogStep(w, past, e);
    assert Requests(past) + [] == Requests(past) && Printed(past) + [] == Printed(past);
  }

  method HandleCommand(ghost w: World, n: nat, text: Bytes, conv: Conversation, rec: Recorder, ghost out: UserCallback?)
    returns (next: Next, handled: bool, ghost e: Entry)
    requires Between(w, conv, rec, out) && Open(rec.entries)
    requires n > 0 && Line(w, n - 1).Got? && Line(w, n - 1).text == text
    modifies conv, rec
    ensures Between(w, conv, rec, out)
    ensures handled <==> Padded(text, Ascii("/quit")) || Padded(text, Ascii("/clear"))
    ensures handled ==> (e.record.QuitRecord? <==> Padded(text, Ascii("/quit")))
    ensures handled <==> TrimSpace(text) in {QUIT, CLEAR}
    ensures !handled ==> rec.entries == old(rec.entries)
    ensures handled ==> rec.entries == old(rec.entries) + [e] && Handles(e, n, next, false, 0)
                        && (!e.written ==> rec.CanFail()) && !e.record.InterruptedTurn?
  {
    hide RunLog, Committed, Records, Requests, Printed, Concat, Line, TrimSpace, IsTurn, Padded, Ascii;
    hide Conversation.Valid, Recorder.Valid, Recorder.CanFail;
    var cmd := TrimSpace(text);
    CommandsArePadded(text);
    ghost var past := rec.entries;
    assert cmd == QUIT || cmd == CLEAR ==> cmd != [];
    var ok;
    e := Entry(QuitRecord(n), None, true);
    if cmd == QUIT {
      ok := rec.Emit(QuitRecord(n), None);
      e := Entry(QuitRecord(n), None, ok);
      PlainStep(w, past, e);
      return if ok then Exit(EXIT_OK, OnQuit) else Exit(EXIT_ERROR, OnWriteFailure), true, e;
    }
    if cmd == CLEAR {
      conv.Clear();
      ok := rec.Emit(ClearRecord(n), None);
      e := Entry(ClearRecord(n), None, ok);
      PlainStep(w, past, e);
      return if ok then Continue else Exit(EXIT_ERROR, OnWriteFailure), true, e;
    }
    return Continue, false, e;
  }

  /** A nonblank line within the bound: a command, an unknown command, or a turn. */
  method HandleLine(ghost w: World, n: nat, text: Bytes, conv: Conversation, client: Client, rec: Recorder,
                    ctx: Cancellation, out: UserCallback?, interruptCode: int)
    returns (next: Next, failed: bool, ghost e: Entry)
    requires client == w.client && w.calm == IsCalm(ctx, out)
    requires Between(w, conv, rec, out) && Open(rec.entries)
    requires n > 0 && Line(w, n - 1).Got? && Line(w, n - 1).text == text && TrimSpace(text) != []
    modifies conv, client, rec, ctx, if out == null then {} else {out}
    ensures Between(w, conv, rec, out) && rec.entries == old(rec.entries) + [e]
    ensures Handles(e, n, next, failed, interruptCode)
    ensures !e.written ==> rec.CanFail()
    ensures next.Exit? && next.ending == OnInterrupt ==> exists i: nat :: ctx.parentDone(i)
  {
    hide RunLog, Committed, Records, Requests, Printed, Concat, Line, TrimSpace, IsTurn, IsCalm;
    hide Conversation.Valid, Recorder.Valid, Recorder.CanFail;
    ghost var past := rec.entries;
    var handled;
    next, handled, e := HandleCommand(w, n, text, conv, rec, out);
    if handled {
      failed := false;
      return;
    }
    if [SLASH] <= TrimSpace(text) {
      var ok := rec.Emit(CommandError(n, text), None);
      e := Entry(CommandError(n, text), None, ok);
      PlainStep(w, past, e);
      return if ok then Continue else Exit(EXIT_ERROR, OnWriteFailure), true, e;
    }
    next, failed, e := TakeTurn(w, n, text, conv, client, rec, ctx, out, interruptCode);
  }

  method HandleOverlong(ghost w: World, n: nat, conv: Conversation, rec: Recorder, ghost out: UserCallback?)
    returns (next: Next, ghost e: Entry)
    requires Between(w, conv, rec, out) && Open(rec.entries)
    requires n > 0 && Line(w, n - 1).Overlong?
    modifies rec
    ensures Between(w, conv, rec, out) && rec.entries == old(rec.entries) + [e]
    ensures e.record == ErrorTurn(n, None, false, LineTooLong)
    ensures Handles(e, n, next, true, 0) && (!e.written ==> rec.CanFail())
  {
    hide RunLog, Committed, Records, Requests, Printed, Concat, Line, IsTurn;
    hide Conversation.Valid, Recorder.Valid, Recorder.CanFail;
    ghost var past := rec.entries;
    var ok := rec.Emit(ErrorTurn(n, None, false, LineTooLong), None);
    e := Entry(ErrorTurn(n, None, false, LineTooLong), None, ok);
    PlainStep(w, past, e);
    next := if ok then Continue else Exit(EXIT_ERROR, OnWriteFailure);
  }

  // ------------------------------------------------------------------ the run

  /** The log so far covers exactly the handled lines among those taken, and `failed` sums it up. */
  ghost predicate Covers(w: World, entries: seq<Entry>, taken: nat, failed: bool) {
    && taken <= |SplitLF(w.data)|
    && LinesOf(entries) == Handled(w, taken)
    && failed == HasFailure(entries)
  }

  lemma CoversLine(w: World, entries: seq<Entry>, taken: nat, failed: bool, e: Entry)
    requires Covers(w, entries, taken, failed)
    requires e.record.line == taken + 1 && IsHandled(Line(w, taken))
    ensures Covers(w, entries + [e], taken + 1, failed || IsFailure(e.record))
  {
    hide IsHandled, IsFailure, SplitLF, TrimCR;
    var grown := entries + [e];
    assert Init(grown) == entries;
    assert forall j: nat :: j < |entries| ==> grown[j] == entries[j];
    assert grown[|entries|] == e;
    LineBounds(w, taken);
  }

  lemma CoversBlank(w: World, entries: seq<Entry>, taken: nat, failed: bool)
    requires Covers(w, entries, taken, failed) && !IsHandled(Line(w, taken)) && Line(w, taken).Got?
    ensures Covers(w, entries, taken + 1, failed)
  {
    hide Line, IsHandled, SplitLF;
    LineBounds(w, taken);
    assert Handled(w, taken) + [] == Handled(w, taken);
  }

  lemma LineBounds(w: World, k: nat)
    ensures var r := Line(w, k);
            && (IsHandled(r) || r.Got? || r.Overlong? ==> k < |SplitLF(w.data)|)
            && (r.Got? || r.Overlong? ==> r.number == k + 1)
            && (r.Got? && r.eof ==> k + 1 == |SplitLF(w.data)| && w.fault == Eof)
            && (r.Finished? ==> k >= |SplitLF(w.data)| && w.fault == Eof)
            && (r.Failed? ==> w.fault != Eof)
            && r != Interrupted
  {
  }

  lemma EmptyLog(w: World)
    ensures RunLog(w, []) && Committed(Records([])) == [] && Requests([]) == [] && Printed([]) == []
    ensures Covers(w, [], 0, false)
    ensures w.before + [] == w.before && w.printed + [] == w.printed
  {
  }

  /** Why a run ended, and what it then exits with. */
  ghost predicate Ends(w: World, entries: seq<Entry>, taken: nat, canFail: bool,
                       interruptCode: int, code: int, ending: Ending)
  {
    match ending
    case OnEof =>
      // The whole input was taken; failure is what the log shows.
      && w.fault == Eof && taken == |SplitLF(w.data)| && Open(entries)
      && code == if HasFailure(entries) then EXIT_ERROR else EXIT_OK
    case OnQuit =>
      && entries != [] && Last(entries).record == QuitRecord(taken) && Last(entries).written
      && code == EXIT_OK
    case OnInterrupt => code == interruptCode
    case OnWriteFailure =>
      && canFail && entries != [] && Last(entries).record.line == taken
      && !Last(entries).written && !Last(entries).record.InterruptedTurn?
      && code == EXIT_ERROR
    case OnReadFailure => w.fault != Eof && Open(entries) && code == EXIT_ERROR
  }

  /** The state of the run when `taken` lines are done and another is due. */
  ghost predicate Steady(w: World, conv: Conversation, rec: Recorder, out: UserCallback?, taken: nat, failed: bool)
    reads conv, w.client, rec, if out == null then {} else {out}
  {
    Between(w, conv, rec, out) && Open(rec.entries) && Covers(w, rec.entries, taken, failed)
  }

  /** The same facts, when the run ends there. */
  ghost predicate Ended(w: World, conv: Conversation, rec: Recorder, out: UserCallback?, taken: nat,
                        interruptCode: int, code: int, ending: Ending)
    reads conv, w.client, rec, if out == null then {} else {out}
  {
    && Between(w, conv, rec, out)
    && LinesOf(rec.entries) == Handled(w, taken) && taken <= |SplitLF(w.data)|
    && Ends(w, rec.entries, taken, rec.CanFail(), interruptCode, code, ending)
  }

  /** A line taken within the bound, blank or not; `eof` when no LF ended it. */
  method TakeGot(ghost w: World, n: nat, text: Bytes, eof: bool, conv: Conversation, client: Client, rec: Recorder,
                 ctx: Cancellation, out: UserCallback?, interruptCode: int, failedTurn: bool)
    returns (next: Next, failed: bool)
    requires client == w.client && w.calm == IsCalm(ctx, out)
    requires n > 0 && Steady(w, conv, rec, out, n - 1, failedTurn) && Line(w, n - 1) == Got(n, text, eof)
    modifies conv, client, rec, ctx, if out == null then {} else {out}
    ensures next == Continue ==> Steady(w, conv, rec, out, n, failed)
    ensures next.Exit? ==> Ended(w, conv, rec, out, n, interruptCode, next.code, next.ending)
    ensures next.Exit? && next.ending == OnInterrupt ==> exists i: nat :: ctx.parentDone(i)
  {
    hide Between, HasFailure, TrimSpace, Line, SplitLF, Handled, LinesOf, IsCalm, IsFailure, Recorder.CanFail;
    LineBounds(w, n - 1);
    ghost var past := rec.entries;
    next, failed := Continue, failedTurn;
    if TrimSpace(text) == [] {
      CoversBlank(w, past, n - 1, failedTurn);
    } else {
      ghost var e;
      next, failed, e := HandleLine(w, n, text, conv, client, rec, ctx, out, interruptCode);
      CoversLine(w, past, n - 1, failedTurn, e);
      failed := failedTurn || failed;
    }
    if next == Continue && eof {
      next := Exit(if failed then EXIT_ERROR else EXIT_OK, OnEof);
    }
  }

  method TakeOverlong(ghost w: World, n: nat, conv: Conversation, rec: Recorder, ghost out: UserCallback?,
                      ghost interruptCode: int, ghost failedTurn: bool)
    returns (next: Next)
    requires n > 0 && Steady(w, conv, rec, out, n - 1, failedTurn) && Line(w, n - 1) == Overlong(n)
    modifies rec
    ensures next == Continue ==> Steady(w, conv, rec, out, n, true)
    ensures next.Exit? ==> Ended(w, conv, rec, out, n, interruptCode, next.code, next.ending)
                           && next.ending == OnWriteFailure
  {
    hide Between, HasFailure, Line, SplitLF, Handled, LinesOf, Recorder.CanFail;
    ghost var past, e := rec.entries, Entry(QuitRecord(n), None, true);
    next, e := HandleOverlong(w, n, conv, rec, out);
    CoversLine(w, past, n - 1, failedTurn, e);
  }

  /** One turn of the loop. */
  method OneLine(ghost w: World, conv: Conversation, reader: InputReader, client: Client, rec: Recorder,
                 ctx: Cancellation, out: UserCallback?, interruptCode: int, failedTurn: bool)
    returns (next: Next, failed: bool)
    requires client == w.client && w.calm == IsCalm(ctx, out)
    requires reader.Valid() && Reads(w, reader) && Steady(w, conv, rec, out, reader.line, failedTurn)
    modifies conv, reader, reader.br, client, rec, ctx, if out == null then {} else {out}
    ensures next.Exit? ==> Ended(w, conv, rec, out, reader.line, interruptCode, next.code, next.ending)
    ensures next == Continue ==>
              && reader.Valid() && Steady(w, conv, rec, out, reader.line, failed)
              && old(reader.line) < reader.line <= |SplitLF(w.data)|
    ensures next.Exit? && next.ending == OnInterrupt ==> exists i: nat :: ctx.parentDone(i)
  {
    hide Between, HasFailure, LineAt, SplitLF, Handled, LinesOf, InputReader.Valid, IsCalm, Recorder.CanFail;
    var done := ctx.ParentErr();
    if done {
      return Exit(interruptCode, OnInterrupt), failedTurn;
    }
    LineBounds(w, reader.line);
    var got := reader.ReadLine(ctx);
    failed := failedTurn;
    match got
    case Interrupted => next := Exit(interruptCode, OnInterrupt);
    case Failed => next := Exit(EXIT_ERROR, OnReadFailure);
    case Finished => next := Exit(if failed then EXIT_ERROR else EXIT_OK, OnEof);
    case Overlong(n) =>
      next := TakeOverlong(w, n, conv, rec, out, interruptCode, failedTurn);
      failed := true;
    case Got(n, text, eof) =>
      next, failed := TakeGot(w, n, text, eof, conv, client, rec, ctx, out, interruptCode, failedTurn);
  }

  /** The reader reads the input of the run. */
  ghost predicate Reads(w: World, reader: InputReader) {
    reader.br.data == w.data && reader.br.fault == w.fault && reader.max == MaxLine(w.cfg)
  }

  lemma StartsSteady(w: World, conv: Conversation, rec: Recorder, out: UserCallback?)
    requires conv.Valid() && conv.staged == None && conv.history == []
    requires conv.budget == w.cfg.budget && conv.reserve == w.cfg.reserve && conv.system == SystemOf(w.cfg)
    requires w.client.requests == w.before && rec.Valid() && rec.entries == []
    requires out != null ==> Concat(out.handed) == w.printed
    ensures Steady(w, conv, rec, out, 0, false)
  {
    EmptyLog(w);
  }

  method Run(cfg: Config, input: ByteReader, client: Client, rec: Recorder, ctx: Cancellation,
             out: UserCallback?, interruptCode: int)
    returns (code: int, ending: Ending, conv: Conversation, ghost w: World, ghost taken: nat)
    requires input.Valid() && input.pos == 0 && rec.Valid() && rec.entries == []
    modifies input, client, rec, ctx, if out == null then {} else {out}
    ensures w == World(cfg, input.data, input.fault, client, old(client.requests),
                       if out == null then [] else old(Concat(out.handed)), IsCalm(ctx, out))
    ensures Between(w, conv, rec, out)
    ensures LinesOf(rec.entries) == Handled(w, taken) && taken <= |SplitLF(input.data)|
    ensures Ends(w, rec.entries, taken, rec.CanFail(), interruptCode, code, ending)
    ensures ending == OnInterrupt ==> exists i: nat :: ctx.parentDone(i)
    ensures ending == OnWriteFailure ==> exists i: nat :: rec.fails(i)
    ensures rec.recording && !LostLast(rec.entries) ==> conv.history == Committed(rec.written)
    ensures forall k: nat :: k < taken ==>
              (TooLongRecorded(rec.entries, k + 1)
               <==> |SplitLF(input.data)[k]| > 4096 && |SplitLF(input.data)[k]| > cfg.budget)
  {
    hide TooLongRecorded, Between, Covers, Steady, SplitLF, RunLog, Committed, Concat, IsCalm, Ends;
    w := World(cfg, input.data, input.fault, client, client.requests,
               if out == null then [] else Concat(out.handed), IsCalm(ctx, out));
    conv := new Conversation(cfg.budget, cfg.reserve, cfg.systemPrompt);
    var reader := new InputReader(input, MaxLine(cfg));
    var failedTurn := false;
    StartsSteady(w, conv, rec, out);
    while true
      invariant fresh(conv) && fresh(reader) && reader.br == input && reader.max == MaxLine(cfg)
      invariant reader.Valid() && Steady(w, conv, rec, out, reader.line, failedTurn)
      decreases |SplitLF(input.data)| - reader.line
    {
      var next;
      next, failedTurn := OneLine(w, conv, reader, client, rec, ctx, out, interruptCode, failedTurn);
      if next.Exit? {
        EndFacts(w, conv, rec, out, reader.line, interruptCode, next.code, next.ending);
        return next.code, next.ending, conv, w, reader.line;
      }
    }
  }

  lemma EndFacts(w: World, conv: Conversation, rec: Recorder, out: UserCallback?, taken: nat,
                 interruptCode: int, code: int, ending: Ending)
    requires Ended(w, conv, rec, out, taken, interruptCode, code, ending)
    ensures ending == OnWriteFailure ==> exists i: nat :: rec.fails(i)
    ensures rec.recording && !LostLast(rec.entries) ==> conv.history == Committed(rec.written)
    ensures forall k: nat :: k < taken ==>
              (TooLongRecorded(rec.entries, k + 1)
               <==> |SplitLF(w.data)[k]| > 4096 && |SplitLF(w.data)[k]| > w.cfg.budget)
  {
    hide RunLog, Committed, Written, Records, LostLast, TooLongRecorded, SplitLF, LinesOf, Handled;
    WrittenSaysHistory(w, rec.entries);
    forall k: nat | k < taken
      ensures TooLongRecorded(rec.entries, k + 1)
              <==> |SplitLF(w.data)[k]| > 4096 && |SplitLF(w.data)[k]| > w.cfg.budget
    {
      LongLines(w, rec.entries, taken, k);
    }
  }
}
