/**
 One session seen through its log: what each entry must be, and what that implies
 over whole runs for the history, the requests, the accounting and the token.
 */
module Session {
  import opened ByteText
  import opened Source
  import opened Redaction
  import opened Completion
  import opened Conversation
  import opened InputLines

  /** "/quit" and "/clear" */
  const QUIT: Bytes := [47, 113, 117, 105, 116]
  const CLEAR: Bytes := [47, 99, 108, 101, 97, 114]

  const MIN_INPUT_BOUND: nat := 4096
  const EXIT_OK: int := 0
  const EXIT_ERROR: int := 1

  datatype Config = Config(budget: int, reserve: int, systemPrompt: Bytes)

  function MaxLine(cfg: Config): nat {
    if cfg.budget < MIN_INPUT_BOUND then MIN_INPUT_BOUND else cfg.budget
  }

  function SystemOf(cfg: Config): Option<Message> {
    if cfg.systemPrompt == [] then None else Some(Message(System, cfg.systemPrompt))
  }

  // ------------------------------------------------------------------ records

  datatype ErrorKind = LineTooLong | CannotStage(stage: StageError) | TurnFailed(turn: TurnError)

  datatype Record =
    | OkTurn(line: nat, input: Bytes, output: Bytes, finish: Bytes, trimmed: nat)
    | ErrorTurn(line: nat, given: Option<Bytes>, sent: bool, error: ErrorKind)
    | InterruptedTurn(line: nat, input: Bytes, sent: bool)
    | ClearRecord(line: nat)
    | QuitRecord(line: nat)
    | CommandError(line: nat, input: Bytes)

  predicate IsFailure(r: Record) {
    r.ErrorTurn? || r.CommandError?
  }

  /** The (input, output) pairs of the ok records since the last clear record. */
  function OkSince(records: seq<Record>): seq<(Bytes, Bytes)> {
    if records == [] then []
    else
      match Last(records)
      case ClearRecord(_) => []
      case OkTurn(_, input, output, _, _) => OkSince(Init(records)) + [(input, output)]
      case _ => OkSince(Init(records))
  }

  /** The sum of their `trimmed_pairs`. */
  function TrimmedSince(records: seq<Record>): nat {
    if records == [] then 0
    else
      match Last(records)
      case ClearRecord(_) => 0
      case OkTurn(_, _, _, _, trimmed) => TrimmedSince(Init(records)) + trimmed
      case _ => TrimmedSince(Init(records))
  }

  function Flatten(pairs: seq<(Bytes, Bytes)>): seq<Message> {
    if pairs == [] then []
    else Flatten(Init(pairs)) + [Message(User, Last(pairs).0), Message(Assistant, Last(pairs).1)]
  }

  /** What the records say the committed history is: the last pairs, as many as were not trimmed. */
  function Committed(records: seq<Record>): seq<Message> {
    Without(Flatten(OkSince(records)), TrimmedSince(records))
  }

  // ------------------------------------------------------------------ the log

  /**
   A request that was made, the answer, the deltas behind it (those of `used`
   payloads), and what the caller was handed.
   */
  datatype Call = Call(messages: seq<Message>, turn: Turn, raw: Bytes, used: nat, given: Bytes)

  /** One handled line: the call it made, if any, then its record, and whether that was accepted. */
  datatype Entry = Entry(record: Record, call: Option<Call>, written: bool)

  /** Nothing may follow such an entry. */
  predicate Terminal(e: Entry) {
    e.record.QuitRecord? || e.record.InterruptedTurn? || !e.written
  }

  ghost predicate HasFailure(entries: seq<Entry>) {
    exists j: nat :: j < |entries| && IsFailure(entries[j].record)
  }

  function Records(entries: seq<Entry>): seq<Record> {
    if entries == [] then [] else Records(Init(entries)) + [Last(entries).record]
  }

  /** The records that were accepted. */
  function Written(entries: seq<Entry>): seq<Record> {
    if entries == [] then []
    else Written(Init(entries)) + (if Last(entries).written then [Last(entries).record] else [])
  }

  function RequestOf(e: Entry): seq<seq<Message>> {
    if e.call == None then [] else [e.call.value.messages]
  }

  /** The requests the log accounts for, in order. */
  function Requests(entries: seq<Entry>): seq<seq<Message>> {
    if entries == [] then [] else Requests(Init(entries)) + RequestOf(Last(entries))
  }

  /** The line break printed after an answer that does not end in one, and after an empty answer without error. */
  function LineBreak(t: Turn): Bytes {
    if t.text != [] then (if Last(t.text) != LF then [LF] else [])
    else if t.error == None then [LF]
    else []
  }

  function PrintedBy(e: Entry): Bytes {
    if e.call == None then [] else e.call.value.given + LineBreak(e.call.value.turn)
  }

  /** Everything the run printed to the caller's output. */
  function Printed(entries: seq<Entry>): Bytes {
    if entries == [] then [] else Printed(Init(entries)) + PrintedBy(Last(entries))
  }

  function LinesOf(entries: seq<Entry>): seq<nat> {
    if entries == [] then [] else LinesOf(Init(entries)) + [Last(entries).record.line]
  }

  /** All the logs of a run grow by one entry. */
  lemma LogGrows(entries: seq<Entry>, e: Entry)
    ensures Records(entries + [e]) == Records(entries) + [e.record]
    ensures Written(entries + [e]) == Written(entries) + (if e.written then [e.record] else [])
    ensures Requests(entries + [e]) == Requests(entries) + RequestOf(e)
    ensures Printed(entries + [e]) == Printed(entries) + PrintedBy(e)
    ensures LinesOf(entries + [e]) == LinesOf(entries) + [e.record.line]
  {
    assert Init(entries + [e]) == entries;
  }

  // -------------------------------------------------- what each entry must be

  /**
   What a run is given: `before` lists requests made earlier and `printed` what the
   output held, and `calm` says that nothing cancels and no write of deltas fails.
   */
  datatype World = World(cfg: Config, data: Bytes, fault: Fault, client: Client,
                         before: seq<seq<Message>>, printed: Bytes, calm: bool)

  function Line(w: World, k: nat): LineResult {
    LineAt(w.data, w.fault, MaxLine(w.cfg), k)
  }

  /** A line that leaves a record. */
  predicate IsHandled(r: LineResult) {
    r.Overlong? || (r.Got? && TrimSpace(r.text) != [])
  }

  function VerdictOn(w: World, past: seq<Entry>, text: Bytes): Verdict {
    StageVerdict(SystemOf(w.cfg), Committed(Records(past)), Message(User, text), w.cfg.budget, w.cfg.reserve)
  }

  function ReplyAfter(w: World, past: seq<Entry>): Reply {
    w.client.replies(|w.before| + |Requests(past)|)
  }

  /**
   The entry of a message line, given the log before it. The request is the system
   prompt, the log's own history with the least number of oldest pairs dropped, and
   the line; the record tells what the endpoint's reply to it came to.
   */
  ghost predicate IsTurn(w: World, past: seq<Entry>, n: nat, text: Bytes, e: Entry) {
    var v := VerdictOn(w, past, text);
    if v.Reject? then
      e.call == None && e.record == ErrorTurn(n, Some(text), false, CannotStage(v.error))
    else
      && e.call.Some?
      && var c := e.call.value;
         && c.messages == Request(SystemOf(w.cfg), Without(Committed(Records(past)), v.trimmed), Message(User, text))
         && w.client.Answers(ReplyAfter(w, past), w.cfg.budget, c.turn, c.raw, c.used, c.given, w.calm)
         && IsRecordOf(e.record, n, text, v.trimmed, c.turn, w.calm)
  }

  /** An ok record for a turn without error; otherwise an error record, or an interrupted one when something cancels. */
  predicate IsRecordOf(r: Record, n: nat, text: Bytes, trimmed: nat, t: Turn, calm: bool) {
    if t.error == None then r == OkTurn(n, text, t.text, t.finish, trimmed)
    else
      || (r == ErrorTurn(n, Some(text), t.sent, TurnFailed(t.error.value)) && !IsInterrupt(t.error.value))
      || (r == InterruptedTurn(n, text, t.sent) && !calm)
  }

  /** The entry of its line, by number: the kind of the record follows from the line alone, or is a turn's. */
  ghost predicate Correct(w: World, past: seq<Entry>, e: Entry) {
    var n := e.record.line;
    && n > 0
    && match Line(w, n - 1)
       case Overlong(_) => e.call == None && e.record == ErrorTurn(n, None, false, LineTooLong)
       case Got(_, text, _) =>
         var cmd := TrimSpace(text);
         && cmd != []
         && (if cmd == QUIT then e.call == None && e.record == QuitRecord(n)
             else if cmd == CLEAR then e.call == None && e.record == ClearRecord(n)
             else if [SLASH] <= cmd then e.call == None && e.record == CommandError(n, text)
             else IsTurn(w, past, n, text, e))
       case _ => false
  }

  /** Every entry is right given the ones before it, and only the last can be terminal. */
  ghost predicate RunLog(w: World, entries: seq<Entry>) {
    && (forall j: nat :: j < |entries| ==> Correct(w, entries[..j], entries[j]))
    && (forall j: nat :: j < |entries| - 1 ==> !Terminal(entries[j]))
  }

  lemma RunLogGrows(w: World, entries: seq<Entry>, e: Entry)
    requires RunLog(w, entries) && Correct(w, entries, e)
    requires entries != [] ==> !Terminal(Last(entries))
    ensures RunLog(w, entries + [e])
  {
    hide Correct, Terminal;
    var grown := entries + [e];
    forall j: nat | j < |grown|
      ensures Correct(w, grown[..j], grown[j])
    {
      if j < |entries| { assert grown[..j] == entries[..j]; } else { assert grown[..j] == entries; }
    }
  }

  lemma RunLogPrefix(w: World, entries: seq<Entry>, n: nat)
    requires RunLog(w, entries) && n <= |entries|
    ensures RunLog(w, entries[..n])
  {
    hide Correct, Terminal;
    var before := entries[..n];
    forall j: nat | j < n
      ensures Correct(w, before[..j], before[j])
    {
      assert before[..j] == entries[..j];
    }
  }

  lemma CorrectAt(w: World, entries: seq<Entry>, j: nat)
    requires RunLog(w, entries) && j < |entries|
    ensures Correct(w, entries[..j], entries[j])
  {
    hide Correct;
  }

  lemma RunLogInit(w: World, entries: seq<Entry>)
    requires RunLog(w, entries) && entries != []
    ensures RunLog(w, Init(entries)) && Correct(w, Init(entries), Last(entries))
  {
    hide Correct, Terminal;
    RunLogPrefix(w, entries, |entries| - 1);
  }

  // ------------------------------------------------------------ line numbers

  /** The numbers of the handled lines among the first `taken`. */
  function Handled(w: World, taken: nat): seq<nat> {
    if taken == 0 then []
    else Handled(w, taken - 1) + (if IsHandled(Line(w, taken - 1)) then [taken] else [])
  }

  lemma {:induction false} HandledBound(w: World, taken: nat)
    ensures forall i: nat :: i < |Handled(w, taken)| ==> 0 < Handled(w, taken)[i] <= taken
    decreases taken
  {
    hide Line, IsHandled;
    if taken > 0 { HandledBound(w, taken - 1); }
  }

  lemma {:induction false} HandledIncrease(w: World, taken: nat)
    ensures forall i: nat, j: nat :: i < j < |Handled(w, taken)| ==> Handled(w, taken)[i] < Handled(w, taken)[j]
    decreases taken
  {
    hide Line, IsHandled;
    if taken > 0 {
      var before := Handled(w, taken - 1);
      var all := Handled(w, taken);
      HandledIncrease(w, taken - 1);
      HandledBound(w, taken - 1);
      assert all == before + (if IsHandled(Line(w, taken - 1)) then [taken] else []);
      forall i: nat, j: nat | i < j < |all|
        ensures all[i] < all[j]
      {
        if j < |before| { assert before[i] < before[j]; }
      }
    }
  }

  lemma {:induction false} HandledAre(w: World, taken: nat, k: nat)
    requires k < taken
    ensures IsHandled(Line(w, k)) <==> k + 1 in Handled(w, taken)
    decreases taken
  {
    hide Line, IsHandled;
    var before := Handled(w, taken - 1);
    assert Handled(w, taken) == before + (if IsHandled(Line(w, taken - 1)) then [taken] else []);
    if k < taken - 1 {
      HandledAre(w, taken - 1, k);
    } else {
      HandledBound(w, taken - 1);
      assert taken !in before;
    }
  }

  lemma {:induction false} HandledPrefix(w: World, a: nat, b: nat)
    requires a <= b
    ensures Handled(w, a) <= Handled(w, b)
    decreases b
  {
    hide Line, IsHandled;
    if a < b { HandledPrefix(w, a, b - 1); }
  }

  lemma {:induction false} LinesAt(entries: seq<Entry>, j: nat)
    ensures |LinesOf(entries)| == |entries|
    ensures j < |entries| ==> LinesOf(entries)[j] == entries[j].record.line
    decreases |entries|
  {
    if entries != [] { LinesAt(Init(entries), j); }
  }

  /**
   The record lines of a run strictly increase, and a line taken has a record just
   when it is overlong or not blank.
   */
  lemma RecordLinesIncrease(w: World, entries: seq<Entry>, taken: nat)
    requires LinesOf(entries) == Handled(w, taken)
    ensures forall i: nat, j: nat :: i < j < |entries| ==> entries[i].record.line < entries[j].record.line
    ensures forall k: nat :: k < taken ==>
              (IsHandled(Line(w, k)) <==> exists j: nat :: j < |entries| && entries[j].record.line == k + 1)
  {
    hide Line, IsHandled, LinesOf, Handled;
    HandledIncrease(w, taken);
    LinesAt(entries, 0);
    forall i: nat, j: nat | i < j < |entries|
      ensures entries[i].record.line < entries[j].record.line
    {
      LinesAt(entries, i);
      LinesAt(entries, j);
    }
    forall k: nat | k < taken
      ensures IsHandled(Line(w, k)) <==> exists j: nat :: j < |entries| && entries[j].record.line == k + 1
    {
      HandledAre(w, taken, k);
      forall j: nat { LinesAt(entries, j); }
    }
  }

  // -------------------------------------------------------- history laws

  lemma {:induction false} FlattenLength(pairs: seq<(Bytes, Bytes)>)
    ensures |Flatten(pairs)| == 2 * |pairs|
  {
    if pairs != [] { FlattenLength(Init(pairs)); }
  }

  /** Dropping pairs and flattening commute. */
  lemma {:induction false} FlattenDrop(pairs: seq<(Bytes, Bytes)>, k: nat)
    requires k <= |pairs|
    ensures Without(Flatten(pairs), k) == Flatten(pairs[k..])
    decreases |pairs|
  {
    FlattenLength(pairs);
    if k < |pairs| {
      FlattenDrop(Init(pairs), k);
      FlattenLength(Init(pairs));
      assert Init(pairs[k..]) == Init(pairs)[k..];
    }
  }

  lemma OkStep(pairs: seq<(Bytes, Bytes)>, trimmed: nat, k: nat, p: (Bytes, Bytes))
    requires trimmed <= |pairs|
    ensures var history := Without(Flatten(pairs), trimmed);
            2 * k <= |history| ==>
              && trimmed + k <= |pairs|
              && Without(Flatten(pairs + [p]), trimmed + k)
                 == Without(history, k) + [Message(User, p.0), Message(Assistant, p.1)]
  {
    hide Without;
    FlattenDrop(pairs, trimmed);
    FlattenLength(pairs[trimmed..]);
    if 2 * k <= |Without(Flatten(pairs), trimmed)| {
      var kept, all := pairs[trimmed..], pairs + [p];
      FlattenDrop(kept, k);
      FlattenDrop(all, trimmed + k);
      assert all[trimmed + k..] == kept[k..] + [p];
      assert Init(kept[k..] + [p]) == kept[k..];
    }
  }

  lemma OkExtends(records: seq<Record>, r: Record)
    requires r.OkTurn? && TrimmedSince(records) <= |OkSince(records)|
    ensures HasPairs(Committed(records), r.trimmed) ==>
              && Committed(records + [r])
                 == Without(Committed(records), r.trimmed) + [Message(User, r.input), Message(Assistant, r.output)]
              && TrimmedSince(records + [r]) <= |OkSince(records + [r])|
  {
    hide Without, Flatten;
    OkStep(OkSince(records), TrimmedSince(records), r.trimmed, (r.input, r.output));
    assert Init(records + [r]) == records;
  }

  lemma ClearEmpties(records: seq<Record>, r: Record)
    requires r.ClearRecord?
    ensures Committed(records + [r]) == [] && TrimmedSince(records + [r]) == 0
  {
    assert OkSince(records + [r]) == [];
  }

  lemma OthersKeep(records: seq<Record>, r: Record)
    requires !r.OkTurn? && !r.ClearRecord?
    ensures OkSince(records + [r]) == OkSince(records)
    ensures TrimmedSince(records + [r]) == TrimmedSince(records)
  {
    assert Init(records + [r]) == records;
  }

  /** What a record does to the committed history: ok turns extend it, clears empty it, nothing else touches it. */
  lemma CommittedStep(records: seq<Record>, r: Record)
    requires TrimmedSince(records) <= |OkSince(records)|
    ensures r.OkTurn? && HasPairs(Committed(records), r.trimmed) ==>
              Committed(records + [r])
              == Without(Committed(records), r.trimmed) + [Message(User, r.input), Message(Assistant, r.output)]
    ensures r.ClearRecord? ==> Committed(records + [r]) == []
    ensures !r.OkTurn? && !r.ClearRecord? ==> Committed(records + [r]) == Committed(records)
    ensures (r.OkTurn? ==> HasPairs(Committed(records), r.trimmed)) ==>
              TrimmedSince(records + [r]) <= |OkSince(records + [r])|
  {
    hide OkSince, TrimmedSince, Without, Flatten;
    if r.OkTurn? {
      OkExtends(records, r);
    } else if r.ClearRecord? {
      ClearEmpties(records, r);
    } else {
      OthersKeep(records, r);
    }
  }

  lemma CommittedEven(records: seq<Record>)
    requires TrimmedSince(records) <= |OkSince(records)|
    ensures |Committed(records)| == 2 * (|OkSince(records)| - TrimmedSince(records))
  {
    hide OkSince, TrimmedSince;
    FlattenLength(OkSince(records));
  }

  // ------------------------------------------------------------ whole runs

  /** An accepted turn's request fits, and would not with fewer pairs dropped. */
  lemma AcceptedFits(w: World, history: seq<Message>, user: Message)
    requires |history| % 2 == 0
    requires StageVerdict(SystemOf(w.cfg), history, user, w.cfg.budget, w.cfg.reserve).Accept?
    ensures var k := StageVerdict(SystemOf(w.cfg), history, user, w.cfg.budget, w.cfg.reserve).trimmed;
            && HasPairs(history, k)
            && Units(Request(SystemOf(w.cfg), Without(history, k), user)) + w.cfg.reserve <= w.cfg.budget
            && forall j: nat :: j < k ==>
                 Units(Request(SystemOf(w.cfg), Without(history, j), user)) + w.cfg.reserve > w.cfg.budget
  {
    hide Units, Request, LeastTrim, Without;
    TrimIsLeast(SystemOf(w.cfg), history, user, w.cfg.budget - w.cfg.reserve);
  }

  /** A turn that staging finds too large would be so with any number of pairs dropped. */
  lemma RejectedNeverFits(w: World, history: seq<Message>, user: Message, k: nat)
    requires StageVerdict(SystemOf(w.cfg), history, user, w.cfg.budget, w.cfg.reserve) == Reject(DoesNotFit)
    ensures Units(Request(SystemOf(w.cfg), Without(history, k), user)) + w.cfg.reserve > w.cfg.budget
  {
    hide Units, Request, LeastTrim, Without;
    RequestUnits(SystemOf(w.cfg), Without(history, k), user);
  }

  lemma OkIsTurn(w: World, past: seq<Entry>, e: Entry)
    requires Correct(w, past, e) && e.record.OkTurn?
    ensures IsTurn(w, past, e.record.line, e.record.input, e) && VerdictOn(w, past, e.record.input).Accept?
  {
    hide VerdictOn, LineAt, TrimSpace, Client.Answers, ReplyAfter;
  }

  lemma TurnTrims(w: World, past: seq<Entry>, e: Entry)
    requires Correct(w, past, e) && e.record.OkTurn?
    requires var rs := Records(past); TrimmedSince(rs) <= |OkSince(rs)|
    ensures HasPairs(Committed(Records(past)), e.record.trimmed)
    ensures |e.record.output| <= if w.client.token == [] then w.cfg.budget else 10 * w.cfg.budget
    ensures var kept := Without(Committed(Records(past)), e.record.trimmed);
            var user := Message(User, e.record.input);
            Units(Request(SystemOf(w.cfg), kept, user)) + w.cfg.reserve <= w.cfg.budget
  {
    hide Correct, Units, Request, LeastTrim, Without, Committed, Records, OkSince, TrimmedSince;
    hide Client.Answers, ReplyAfter;
    OkIsTurn(w, past, e);
    CommittedEven(Records(past));
    AcceptedFits(w, Committed(Records(past)), Message(User, e.record.input));
    var c := e.call.value;
    w.client.AnswerLength(ReplyAfter(w, past), w.cfg.budget, c.turn, c.raw, c.used, c.given, w.calm);
  }

  /** The trimmed pairs of a log are among its ok records since the last clear. */
  ghost predicate Trims(records: seq<Record>) {
    TrimmedSince(records) <= |OkSince(records)|
  }

  lemma TrimsStep(w: World, past: seq<Entry>, e: Entry)
    requires Correct(w, past, e) && Trims(Records(past))
    ensures Trims(Records(past + [e]))
  {
    hide Correct, Committed, Records, OkSince, TrimmedSince, Units, Request, Without;
    LogGrows(past, e);
    if e.record.OkTurn? { TurnTrims(w, past, e); }
    CommittedStep(Records(past), e.record);
  }

  lemma {:induction false} RunTrims(w: World, entries: seq<Entry>)
    requires RunLog(w, entries)
    ensures Trims(Records(entries))
    decreases |entries|
  {
    hide RunLog, Correct, Records, Trims;
    if entries == [] {
      NothingTrimmed();
    } else {
      RunLogInit(w, entries);
      RunTrims(w, Init(entries));
      TrimsStep(w, Init(entries), Last(entries));
      assert Init(entries) + [Last(entries)] == entries;
    }
  }

  lemma NothingTrimmed()
    ensures Trims(Records([]))
  {
  }

  /**
   The committed history is the last k pairs of the ok records since the last
   clear, with k and the sum of their trimmed pairs making up their number.
   */
  lemma LogTrims(w: World, entries: seq<Entry>)
    requires RunLog(w, entries)
    ensures var rs := Records(entries);
            TrimmedSince(rs) <= |OkSince(rs)| && Committed(rs) == Flatten(OkSince(rs)[TrimmedSince(rs)..])
  {
    hide RunLog, Records, OkSince, TrimmedSince, Flatten, Without;
    RunTrims(w, entries);
    FlattenDrop(OkSince(Records(entries)), TrimmedSince(Records(entries)));
  }

  /** The last entry changed the history but its record was not accepted. */
  predicate LostLast(entries: seq<Entry>) {
    entries != [] && !Last(entries).written && (Last(entries).record.OkTurn? || Last(entries).record.ClearRecord?)
  }

  lemma {:induction false} AllWritten(entries: seq<Entry>)
    requires forall j: nat :: j < |entries| ==> entries[j].written
    ensures Written(entries) == Records(entries)
    decreases |entries|
  {
    if entries != [] { AllWritten(Init(entries)); }
  }

  lemma PastWritten(w: World, entries: seq<Entry>)
    requires RunLog(w, entries) && entries != []
    ensures Written(Init(entries)) == Records(Init(entries))
  {
    hide Correct, Records, Written;
    var past := Init(entries);
    assert forall j: nat :: j < |past| ==> !Terminal(entries[j]) && past[j] == entries[j];
    AllWritten(past);
  }

  /** The accepted records say what the history is, unless the record of the very last change was lost. */
  lemma WrittenSaysHistory(w: World, entries: seq<Entry>)
    requires RunLog(w, entries)
    ensures !LostLast(entries) ==> Committed(Written(entries)) == Committed(Records(entries))
  {
    hide RunLog, Correct, Records, Written, Committed, OkSince, TrimmedSince;
    if entries == [] {
      AllWritten(entries);
    } else {
      var past, e := Init(entries), Last(entries);
      PastWritten(w, entries);
      LogGrows(past, e);
      assert past + [e] == entries && Records(past) + [] == Records(past);
      RunLogInit(w, entries);
      RunTrims(w, past);
      CommittedStep(Records(past), e.record);
    }
  }

  // --------------------------------------------------- accounting over runs

  /** The startup check (`systemPromptFits`) and what a loaded configuration guarantees. */
  predicate Started(cfg: Config) {
    && 0 < cfg.reserve < cfg.budget <= MAX_INT64
    && (cfg.systemPrompt != [] ==>
          FitsVerdict(Units(StartupRequest(cfg)), cfg.budget, cfg.reserve) == Ok(true))
  }

  function StartupRequest(cfg: Config): seq<Message> {
    [Message(System, cfg.systemPrompt), Message(User, [])]
  }

  lemma StartupUnits(cfg: Config)
    ensures Units(StartupRequest(cfg)) == |cfg.systemPrompt| + 96
  {
    var m := StartupRequest(cfg);
    CostAppend([m[0]], [m[1]]);
    assert [m[0]] + [m[1]] == m;
    forall x: Message
      ensures Cost([x]) == |x.content| + 32
    {
      assert Init([x]) == [] && Cost([]) == 0;
    }
  }

  method SystemPromptFits(cfg: Config) returns (r: Result<bool>)
    ensures 0 < cfg.reserve < cfg.budget <= MAX_INT64 ==> (r == Ok(true) <==> Started(cfg))
    ensures 0 < cfg.reserve < cfg.budget <= 0x7FFF_FFFF_FFFF_FFFF ==>
              (r == Ok(true) <==> cfg.systemPrompt == [] || |cfg.systemPrompt| + 96 + cfg.reserve <= cfg.budget)
  {
    StartupUnits(cfg);
    if cfg.systemPrompt == [] {
      return Ok(true);
    }
    r := Fits(StartupRequest(cfg), cfg.budget, cfg.reserve);
  }

  /** Twice the budget, less the reserve, plus one message; or ten times the reply when it is filtered. */
  function HistoryBound(w: World): int {
    (if w.client.token == [] then 2 * w.cfg.budget else 11 * w.cfg.budget) - w.cfg.reserve + PER_MESSAGE
  }

  function StandingUnits(w: World, entries: seq<Entry>): nat {
    Units(Fixed(SystemOf(w.cfg)) + Committed(Records(entries)))
  }

  lemma {:induction false} HistoryIsBounded(w: World, entries: seq<Entry>)
    requires Started(w.cfg) && RunLog(w, entries)
    ensures StandingUnits(w, entries) <= HistoryBound(w)
    decreases |entries|
  {
    hide Started, RunLog, Correct, Units, HistoryBound, Trims;
    if entries == [] {
      StartIsBounded(w);
    } else {
      hide StandingUnits;
      var past, e := Init(entries), Last(entries);
      RunLogInit(w, entries);
      HistoryIsBounded(w, past);
      RunTrims(w, past);
      BoundedStep(w, past, e);
      assert past + [e] == entries;
    }
  }

  lemma BoundedStep(w: World, past: seq<Entry>, e: Entry)
    requires Started(w.cfg) && Correct(w, past, e) && Trims(Records(past))
    requires StandingUnits(w, past) <= HistoryBound(w)
    ensures StandingUnits(w, past + [e]) <= HistoryBound(w)
  {
    hide Started, Correct, Units, Request, Without, Committed, Records, OkSince, TrimmedSince, Fixed;
    LogGrows(past, e);
    CommittedStep(Records(past), e.record);
    if e.record.ClearRecord? {
      StartIsBounded(w);
    } else if e.record.OkTurn? {
      TurnTrims(w, past, e);
      CommitUnits(SystemOf(w.cfg), Without(Committed(Records(past)), e.record.trimmed),
                  Message(User, e.record.input), Message(Assistant, e.record.output));
    }
  }

  lemma StartIsBounded(w: World)
    requires Started(w.cfg)
    ensures Units(Fixed(SystemOf(w.cfg)) + []) <= HistoryBound(w)
  {
    var fixed := Fixed(SystemOf(w.cfg));
    assert fixed + [] == fixed;
    if w.cfg.systemPrompt == [] {
      assert fixed == [];
    } else {
      var m := StartupRequest(w.cfg);
      assert Init(m) == fixed && Init(fixed) == [];
    }
  }

  lemma CommitUnits(system: Option<Message>, history: seq<Message>, user: Message, answer: Message)
    ensures Units(Fixed(system) + (history + [user, answer]))
            == Units(Request(system, history, user)) + |answer.content| + PER_MESSAGE
  {
    var all := Fixed(system) + (history + [user, answer]);
    assert Init(all) == Request(system, history, user);
  }

  lemma RequestUnits(system: Option<Message>, history: seq<Message>, user: Message)
    ensures Units(Request(system, history, user)) == Units(Fixed(system) + history) + |user.content| + PER_MESSAGE
    ensures Units(Request(system, [], user)) <= Units(Request(system, history, user))
  {
    RequestCost(system, history, user);
    RequestCost(system, [], user);
    CostAppend(Fixed(system), history);
  }

  /** A turn that staging rejects, and the bound on its line. */
  lemma RejectedIsTurn(w: World, past: seq<Entry>, e: Entry)
    requires Correct(w, past, e) && e.record.ErrorTurn? && e.record.error.CannotStage?
    ensures e.record.given.Some? && |e.record.given.value| <= MaxLine(w.cfg)
    ensures VerdictOn(w, past, e.record.given.value) == Reject(e.record.error.stage)
  {
    hide VerdictOn, SplitLF, TrimSpace, Client.Answers, ReplyAfter;
  }

  /** With the budget and the lines within their bounds, no turn of any run fails by accounting overflow. */
  lemma NoOverflowInRun(w: World, entries: seq<Entry>, j: nat)
    requires Started(w.cfg) && RunLog(w, entries) && j < |entries|
    requires w.cfg.budget <= if w.client.token == [] then 0x2000_0000_0000_0000 else 0x800_0000_0000_0000
    ensures !(entries[j].record.ErrorTurn? && entries[j].record.error == CannotStage(Overflow))
  {
    hide RunLog, Correct, Units, Request, LeastTrim, Committed, Records, Started, HistoryBound, MaxLine;
    var past, e := entries[..j], entries[j];
    if e.record.ErrorTurn? && e.record.error == CannotStage(Overflow) {
      CorrectAt(w, entries, j);
      RunLogPrefix(w, entries, j);
      HistoryIsBounded(w, past);
      RejectedIsTurn(w, past, e);
      RequestUnits(SystemOf(w.cfg), Committed(Records(past)), Message(User, e.record.given.value));
      RoomFor64Bits(w, StandingUnits(w, past), |e.record.given.value|);
    }
  }

  lemma RoomFor64Bits(w: World, units: int, line: int)
    requires Started(w.cfg) && units <= HistoryBound(w) && line <= MaxLine(w.cfg)
    requires w.cfg.budget <= if w.client.token == [] then 0x2000_0000_0000_0000 else 0x800_0000_0000_0000
    ensures units + line + PER_MESSAGE + w.cfg.reserve <= MAX_INT64
  {
    hide Units;
  }

  // -------------------------------------------------------- the token over runs

  /** No answer in the log of any run shows a token that does not line up with the mark. */
  lemma AnswersHideToken(w: World, entries: seq<Entry>, j: nat)
    requires RunLog(w, entries) && j < |entries| && entries[j].record.OkTurn?
    requires w.client.token != [] && !Leaks(w.client.token)
    ensures !Contains(entries[j].record.output, w.client.token)
  {
    hide Leaks, Contains;
    hide RunLog, Correct;
    CorrectAt(w, entries, j);
    OkIsTurn(w, entries[..j], entries[j]);
    CallHidesToken(w, entries[..j], entries[j].record.line, entries[j].record.input, entries[j]);
  }

  lemma CallHidesToken(w: World, past: seq<Entry>, n: nat, text: Bytes, e: Entry)
    requires IsTurn(w, past, n, text, e) && e.call.Some?
    requires w.client.token != [] && !Leaks(w.client.token)
    ensures !Contains(e.call.value.turn.text, w.client.token)
    ensures e.record.OkTurn? ==> e.record.output == e.call.value.turn.text
    ensures e.call.value.given == e.call.value.turn.text || e.call.value.turn.text == e.call.value.given + MARK
  {
    hide Leaks, Contains, VerdictOn, ReplyAfter, Shown, Client.CalmTurn, Client.RawOf;
    TokenNotShown(w.client.token, e.call.value.raw);
  }

  /**
   With its line break, what a call handed on is empty or ends in a break, and shows
   no token that its text does not show.
   */
  lemma BreakEnds(token: Bytes, t: Turn, given: Bytes)
    requires token != [] && LF !in token && !Contains(t.text, token)
    requires given == t.text || t.text == given + MARK
    ensures var all := given + LineBreak(t); (all == [] || Last(all) == LF) && !Contains(all, token)
  {
    hide Contains;
    assert given <= t.text;
    PrefixHides(token, given, t.text);
    if LineBreak(t) == [] {
      assert given + [] == given;
      SuffixOfSum(given, MARK);
    } else {
      EndedByBreak(token, given, LF);
    }
  }

  /** What a call prints is empty or ends in a line break, and does not show the token. */
  lemma CallPrints(w: World, past: seq<Entry>, n: nat, text: Bytes, e: Entry)
    requires IsTurn(w, past, n, text, e)
    requires w.client.token != [] && !Leaks(w.client.token) && LF !in w.client.token
    ensures PrintedBy(e) == [] || Last(PrintedBy(e)) == LF
    ensures !Contains(PrintedBy(e), w.client.token)
  {
    hide IsTurn, Leaks, Contains, LineBreak;
    if e.call.Some? {
      CallHidesToken(w, past, n, text, e);
      BreakEnds(w.client.token, e.call.value.turn, e.call.value.given);
    } else {
      NothingHides(w.client.token);
    }
  }

  lemma EntryPrints(w: World, past: seq<Entry>, e: Entry)
    requires Correct(w, past, e)
    requires w.client.token != [] && !Leaks(w.client.token) && LF !in w.client.token
    ensures PrintedBy(e) == [] || Last(PrintedBy(e)) == LF
    ensures !Contains(PrintedBy(e), w.client.token)
  {
    hide IsTurn, Leaks, Contains, LineAt, TrimSpace;
    if e.call.Some? {
      var text := Line(w, e.record.line - 1).text;
      CallPrints(w, past, e.record.line, text, e);
    } else {
      NothingHides(w.client.token);
    }
  }

  /**
   Everything a run prints, failing turns included and across turns, is free of a
   token that does not line up with the mark. Validated tokens hold no line break.
   */
  lemma {:induction false} OutputHidesToken(w: World, entries: seq<Entry>)
    requires RunLog(w, entries)
    requires w.client.token != [] && !Leaks(w.client.token) && LF !in w.client.token
    ensures !Contains(Printed(entries), w.client.token)
    ensures Printed(entries) == [] || Last(Printed(entries)) == LF
    decreases |entries|
  {
    hide RunLog, Correct, Leaks, Contains, PrintedBy;
    if entries == [] {
      NothingHides(w.client.token);
    } else {
      var past, e := Init(entries), Last(entries);
      RunLogInit(w, entries);
      OutputHidesToken(w, past);
      EntryPrints(w, past, e);
      BrokenUp(w.client.token, Printed(past), PrintedBy(e), LF);
    }
  }

  // -------------------------------------------------------- calm runs

  predicate SameEntry(a: Entry, b: Entry) {
    && a.record == b.record
    && a.call.Some? == b.call.Some?
    && (a.call.Some? ==> a.call.value.messages == b.call.value.messages && a.call.value.turn == b.call.value.turn)
  }

  ghost predicate SameLogs(a: seq<Entry>, b: seq<Entry>) {
    |a| == |b| && forall k: nat :: k < |a| ==> SameEntry(a[k], b[k])
  }

  lemma SameLogsGrow(a: seq<Entry>, x: Entry, b: seq<Entry>, y: Entry)
    requires SameLogs(a, b) && SameEntry(x, y)
    ensures SameLogs(a + [x], b + [y])
  {
    hide SameEntry;
  }

  lemma {:induction false} SameLogsAgree(a: seq<Entry>, b: seq<Entry>)
    requires SameLogs(a, b)
    ensures Records(a) == Records(b) && Requests(a) == Requests(b)
    decreases |a|
  {
    if a != [] {
      SameLogsAgree(Init(a), Init(b));
      assert SameEntry(a[|a| - 1], b[|b| - 1]);
    }
  }

  lemma CorrectAgrees(w: World, pa: seq<Entry>, a: Entry, pb: seq<Entry>, b: Entry)
    requires w.calm && Correct(w, pa, a) && Correct(w, pb, b) && a.record.line == b.record.line
    requires Records(pa) == Records(pb) && Requests(pa) == Requests(pb)
    ensures SameEntry(a, b)
  {
    hide LineAt, TrimSpace, StageVerdict, Committed, Records, Requests, Request, Without;
    hide Client.CalmTurn, Client.RawOf, Shown;
  }

  /**
   In a calm world the log of a run is decided by the configuration, the input and
   the endpoint's replies: of two runs, one's records, requests and answers are the
   first of the other's.
   */
  lemma {:induction false} CalmRunsAgree(w: World, a: seq<Entry>, takenA: nat, b: seq<Entry>, takenB: nat, n: nat)
    requires w.calm && RunLog(w, a) && RunLog(w, b)
    requires LinesOf(a) == Handled(w, takenA) && LinesOf(b) == Handled(w, takenB)
    requires n <= |a| && n <= |b|
    ensures SameLogs(a[..n], b[..n])
    decreases n
  {
    hide RunLog, Correct, Handled, LinesOf, SameEntry, Records, Requests;
    if n > 0 {
      var pa, pb := a[..n - 1], b[..n - 1];
      assert a[..n] == pa + [a[n - 1]] && b[..n] == pb + [b[n - 1]];
      CorrectAt(w, a, n - 1);
      CorrectAt(w, b, n - 1);
      CalmRunsAgree(w, a, takenA, b, takenB, n - 1);
      SameLine(w, a, takenA, b, takenB, n - 1);
      SameLogsAgree(pa, pb);
      CorrectAgrees(w, pa, a[n - 1], pb, b[n - 1]);
      SameLogsGrow(pa, a[n - 1], pb, b[n - 1]);
    }
  }

  lemma SameLine(w: World, a: seq<Entry>, takenA: nat, b: seq<Entry>, takenB: nat, j: nat)
    requires LinesOf(a) == Handled(w, takenA) && LinesOf(b) == Handled(w, takenB)
    requires j < |a| && j < |b|
    ensures a[j].record.line == b[j].record.line
  {
    hide Handled, LinesOf;
    LinesAt(a, j);
    LinesAt(b, j);
    if takenA <= takenB { HandledPrefix(w, takenA, takenB); } else { HandledPrefix(w, takenB, takenA); }
  }
}
