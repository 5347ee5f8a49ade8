/**
 Laws of a run in terms of what goes in and out: the messages of its requests, the
 lines that are commands, blank or too long, and cancelled turns.
 */
module Runs {
  import opened ByteText
  import opened Trimming
  import opened Completion
  import Decoder
  import opened Conversation
  import opened InputLines
  import opened Session

  // -------------------------------------------------------------- requests

  lemma {:induction false} FlattenPaired(pairs: seq<(Bytes, Bytes)>)
    ensures Paired(Flatten(pairs)) && |Flatten(pairs)| == 2 * |pairs|
    decreases |pairs|
  {
    if pairs != [] {
      var front, last := Flatten(Init(pairs)), Last(pairs);
      FlattenPaired(Init(pairs));
      assert Without(front, 0) == front;
      PairsKept(front, 0, Message(User, last.0), Message(Assistant, last.1));
      assert Flatten(pairs) == front + [Message(User, last.0), Message(Assistant, last.1)];
    }
  }

  lemma HistoryPaired(w: World, entries: seq<Entry>)
    requires RunLog(w, entries)
    ensures Paired(Committed(Records(entries)))
  {
    hide RunLog, Records, Paired, Committed, OkSince, TrimmedSince;
    LogTrims(w, entries);
    FlattenPaired(OkSince(Records(entries))[TrimmedSince(Records(entries))..]);
  }

  lemma CallIsTurn(w: World, past: seq<Entry>, e: Entry)
    requires Correct(w, past, e) && e.call.Some?
    ensures e.record.line > 0 && Line(w, e.record.line - 1).Got?
    ensures IsTurn(w, past, e.record.line, Line(w, e.record.line - 1).text, e)
  {
    hide Line, TrimSpace, IsTurn;
  }

  lemma TurnRequest(w: World, past: seq<Entry>, n: nat, text: Bytes, e: Entry) returns (k: nat)
    requires IsTurn(w, past, n, text, e) && e.call.Some?
    ensures VerdictOn(w, past, text) == Accept(k)
    ensures e.call.value.messages
            == Request(SystemOf(w.cfg), Without(Committed(Records(past)), k), Message(User, text))
    ensures e.record.OkTurn? ==> k == e.record.trimmed && text == e.record.input
  {
    hide VerdictOn, ReplyAfter, Client.Answers, Request, Without, Committed, Records;
    k := VerdictOn(w, past, text).trimmed;
  }

  /**
   The messages of every request of a run, by position: the system prompt unless it
   is empty, the committed history without some of its oldest pairs, and the line;
   user and assistant alternate.
   */
  lemma RequestsInOrder(w: World, entries: seq<Entry>, j: nat) returns (k: nat, text: Bytes)
    requires RunLog(w, entries) && j < |entries| && entries[j].call.Some?
    ensures var e := entries[j];
            var system := if w.cfg.systemPrompt == [] then None else Some(Message(System, w.cfg.systemPrompt));
            && InOrder(e.call.value.messages, system, Committed(Records(entries[..j])), k, Message(User, text))
            && Alternates(e.call.value.messages, system)
            && (e.record.OkTurn? ==> k == e.record.trimmed && text == e.record.input)
            && e.record.line > 0 && Line(w, e.record.line - 1).Got? && text == Line(w, e.record.line - 1).text
  {
    hide RunLog, Correct, IsTurn, Committed, Records, Request, Without, InOrder, Alternates, Line, StageVerdict;
    var past, e := entries[..j], entries[j];
    CorrectAt(w, entries, j);
    RunLogPrefix(w, entries, j);
    HistoryPaired(w, past);
    CallIsTurn(w, past, e);
    text := Line(w, e.record.line - 1).text;
    k := TurnRequest(w, past, e.record.line, text, e);
    var history := Committed(Records(past));
    PairedIsEven(history);
    AcceptedFits(w, history, Message(User, text));
    RequestInOrder(SystemOf(w.cfg), history, k, Message(User, text));
  }

  // -------------------------------------------------------------- commands

  /** `word` with white space around it. */
  ghost predicate Padded(text: Bytes, word: Bytes) {
    exists a: Bytes, b: Bytes :: Spaces(a) && Spaces(b) && text == a + word + b
  }

  /** `word`, white space before it, and anything after it. */
  ghost predicate Begins(text: Bytes, word: Bytes) {
    exists a: Bytes, b: Bytes :: Spaces(a) && text == a + word + b
  }

  lemma CommandWords()
    ensures QUIT == Ascii("/quit") && CLEAR == Ascii("/clear") && [SLASH] == Ascii("/")
    ensures Tight(Ascii("/quit")) && Tight(Ascii("/clear"))
  {
    PrintableIsTight(Ascii("/quit"));
    PrintableIsTight(Ascii("/clear"));
  }

  /** The two commands by what surrounds them. */
  lemma CommandsArePadded(text: Bytes)
    ensures TrimSpace(text) == QUIT <==> Padded(text, Ascii("/quit"))
    ensures TrimSpace(text) == CLEAR <==> Padded(text, Ascii("/clear"))
  {
    hide TrimSpace, Tight, Spaces, Ascii;
    CommandWords();
    TrimsTo(text, QUIT);
    TrimsTo(text, CLEAR);
  }

  lemma NoSlashInFront(parts: seq<Bytes>, s: Bytes)
    requires AllSpaces(parts) && [SLASH] <= s
    ensures Concat(parts) != s
  {
    if parts != [] {
      ConcatFront(parts);
      SpaceBytes(parts[0]);
      assert Concat(parts)[0] == parts[0][0];
    }
  }

  /** A text trims to something that starts with a slash just when a slash is its first byte after white space. */
  lemma SlashFirst(text: Bytes)
    ensures [SLASH] <= TrimSpace(text) <==> Begins(text, Ascii("/"))
  {
    hide TrimSpace, Spaces, Ascii, Tight;
    CommandWords();
    if [SLASH] <= TrimSpace(text) { var a, b := SlashSplits(text); }
    forall a: Bytes, b: Bytes | Spaces(a) && text == a + [SLASH] + b
      ensures [SLASH] <= TrimSpace(text)
    {
      SlashLeft(a, b);
      assert a + [SLASH] + b == a + ([SLASH] + b);
    }
  }

  lemma SlashSplits(text: Bytes) returns (a: Bytes, b: Bytes)
    requires [SLASH] <= TrimSpace(text)
    ensures Spaces(a) && text == a + [SLASH] + b
  {
    hide TrimSpace, Spaces, Tight;
    var tail;
    a, tail := TrimSpaceSplits(text);
    var t := TrimSpace(text);
    b := t[1..] + tail;
    assert t == [SLASH] + t[1..];
    assert a + ([SLASH] + t[1..]) + tail == a + [SLASH] + (t[1..] + tail);
  }

  lemma SlashLeft(a: Bytes, b: Bytes)
    requires Spaces(a)
    ensures [SLASH] <= TrimSpace(a + ([SLASH] + b))
  {
    var s := [SLASH] + b;
    var head: seq<Bytes> :| AllSpaces(head) && a == Concat(head);
    LeftAway(head, s);
    forall u: Bytes | IsSpace(u)
      ensures !(u <= s)
    {
      SpaceBytes(u);
    }
    HeadNone(s);
    var tail := RightRemoved(s);
    NoSlashInFront(tail, s);
    assert TrimRight(s) == [] ==> Concat(tail) == s;
  }

  /** Which lines are recorded as commands, and as unknown commands. */
  lemma CommandLines(w: World, entries: seq<Entry>, j: nat)
    requires RunLog(w, entries) && j < |entries|
    ensures var r := entries[j].record;
            && r.line > 0
            && var l := Line(w, r.line - 1);
               && (r.QuitRecord? <==> l.Got? && Padded(l.text, Ascii("/quit")))
               && (r.ClearRecord? <==> l.Got? && Padded(l.text, Ascii("/clear")))
               && (r.CommandError? <==>
                     && l.Got? && Begins(l.text, Ascii("/"))
                     && !Padded(l.text, Ascii("/quit")) && !Padded(l.text, Ascii("/clear")))
  {
    hide RunLog, Line, TrimSpace, Padded, Begins, Ascii, IsTurn;
    CorrectAt(w, entries, j);
    var e := entries[j];
    var l := Line(w, e.record.line - 1);
    if l.Got? {
      CommandsArePadded(l.text);
      SlashFirst(l.text);
      KindOf(w, entries[..j], e);
    }
  }

  lemma KindOf(w: World, past: seq<Entry>, e: Entry)
    requires Correct(w, past, e) && Line(w, e.record.line - 1).Got?
    ensures var cmd := TrimSpace(Line(w, e.record.line - 1).text);
            && (e.record.QuitRecord? <==> cmd == QUIT)
            && (e.record.ClearRecord? <==> cmd == CLEAR)
            && (e.record.CommandError? <==> cmd != QUIT && cmd != CLEAR && [SLASH] <= cmd)
  {
    hide Line, TrimSpace, VerdictOn, ReplyAfter, Client.Answers, Request;
    assert QUIT != CLEAR;
  }

  // ----------------------------------------------- lines without a message

  /** A line within the bound leaves no record just when it is white space throughout. */
  lemma BlankLines(w: World, entries: seq<Entry>, taken: nat, k: nat)
    requires LinesOf(entries) == Handled(w, taken) && k < taken && Line(w, k).Got?
    ensures Spaces(Line(w, k).text) <==> !exists j: nat :: j < |entries| && entries[j].record.line == k + 1
  {
    hide LinesOf, Handled, Line, TrimSpace, Spaces;
    RecordLinesIncrease(w, entries, taken);
    BlankIsSpaces(Line(w, k).text);
  }

  /** The line `n` is recorded as too long. */
  ghost predicate TooLongRecorded(entries: seq<Entry>, n: nat) {
    exists j: nat :: j < |entries| && entries[j].record == ErrorTurn(n, None, false, LineTooLong)
  }

  lemma TooLongIsOverlong(w: World, past: seq<Entry>, e: Entry)
    requires Correct(w, past, e)
    ensures e.record == ErrorTurn(e.record.line, None, false, LineTooLong) <==> Line(w, e.record.line - 1).Overlong?
  {
    hide Line, TrimSpace, VerdictOn, ReplyAfter, Client.Answers, Request;
  }

  /** The lines recorded as too long are those of more than 4096 bytes that are also longer than the budget. */
  lemma LongLines(w: World, entries: seq<Entry>, taken: nat, k: nat)
    requires RunLog(w, entries) && LinesOf(entries) == Handled(w, taken)
    requires k < taken <= |SplitLF(w.data)|
    ensures TooLongRecorded(entries, k + 1)
            <==> |SplitLF(w.data)[k]| > 4096 && |SplitLF(w.data)[k]| > w.cfg.budget
  {
    hide RunLog, Correct, LinesOf, Handled, SplitLF, Line, TrimSpace;
    RecordLinesIncrease(w, entries, taken);
    OverlongIs(w, k);
    assert Line(w, k).Overlong? ==> IsHandled(Line(w, k));
    hide IsHandled;
    forall j: nat | j < |entries| && entries[j].record.line == k + 1
      ensures entries[j].record == ErrorTurn(k + 1, None, false, LineTooLong) <==> Line(w, k).Overlong?
    {
      CorrectAt(w, entries, j);
      TooLongIsOverlong(w, entries[..j], entries[j]);
    }
  }

  lemma OverlongIs(w: World, k: nat)
    requires k < |SplitLF(w.data)|
    ensures Line(w, k).Overlong? <==> |SplitLF(w.data)[k]| > 4096 && |SplitLF(w.data)[k]| > w.cfg.budget
  {
    hide SplitLF;
  }

  // -------------------------------------------------------- cancelled turns

  /** A call that ends cancelled is recorded as interrupted, and in calm conditions nothing is. */
  lemma CancelledIsInterrupted(w: World, entries: seq<Entry>, j: nat)
    requires RunLog(w, entries) && j < |entries| && entries[j].call.Some?
    ensures var e := entries[j]; var t := e.call.value.turn;
            && (t.error == Some(TransportCancelled) || t.error == Some(Stream(Decoder.Cancelled)) ==>
                  e.record.InterruptedTurn?)
            && (e.record.InterruptedTurn? ==> t.error.Some? && !w.calm)
            && (e.record.OkTurn? <==> t.error == None)
  {
    hide RunLog, Correct, Line, VerdictOn, ReplyAfter, Client.Answers, Request;
    CorrectAt(w, entries, j);
    CallIsTurn(w, entries[..j], entries[j]);
  }
}
