/**
 Server-sent event reading (`readSSELine`, `readSSEEvent`, `splitSSEField`).
 Lines end in LF, CRLF or CR; an event is a block of lines closed by a blank one.
 */
module EventStream {
  import opened ByteText
  import opened Source

  datatype ReadError = EndOfInput | IdleTimeout | ReadFailed | TooLarge | EndedEarly

  function EndError(fault: Fault): ReadError {
    match fault
    case Eof => EndOfInput
    case Timeout => IdleTimeout
    case Broken => ReadFailed
  }

  // ------------------------------------------------------------------- lines

  datatype LineResult = Line(text: Bytes, n: nat) | NoLine(error: ReadError, n: nat)

  predicate IsBreak(b: byte) {
    b == LF || b == CR
  }

  /** Where the first line break is; the length when there is none. */
  function BreakAt(s: Bytes): (k: nat)
    ensures k <= |s|
    ensures forall i: nat :: i < k ==> !IsBreak(s[i])
    ensures k < |s| ==> IsBreak(s[k])
  {
    if s == [] || IsBreak(s[0]) then 0 else 1 + BreakAt(s[1..])
  }

  /** A CR takes a following LF with it. */
  function BreakWidth(s: Bytes, k: nat): (n: nat)
    requires k < |s|
    ensures 1 <= n <= 2 && k + n <= |s|
  {
    if s[k] == CR && k + 1 < |s| && s[k + 1] == LF then 2 else 1
  }

  /** The first line of `s`, when its text and the first byte of its break stay within the limit. */
  function NextLine(s: Bytes, fault: Fault, remaining: int): (r: LineResult)
    ensures r.n <= |s| && r.n <= (if remaining > 0 then remaining + 1 else 0)
    ensures r.Line? ==> r.n >= 1
  {
    var k := BreakAt(s);
    if remaining <= 0 then NoLine(TooLarge, 0)
    else if k < |s| && k < remaining then Line(s[..k], k + BreakWidth(s, k))
    else if |s| > remaining then NoLine(TooLarge, remaining + 1)
    else NoLine(EndError(fault), |s|)
  }

  lemma BreakAtIs(s: Bytes, k: nat)
    requires k <= |s|
    requires forall i: nat :: i < k ==> !IsBreak(s[i])
    requires k < |s| ==> IsBreak(s[k])
    ensures BreakAt(s) == k
  {
    var b := BreakAt(s);
    assert b < |s| ==> IsBreak(s[b]);
  }

  /** The count reported is the number of bytes taken, the one-byte look-ahead included. */
  method ReadSSELine(br: ByteReader, remaining: int) returns (r: LineResult)
    requires br.Valid()
    modifies br
    ensures br.Valid()
    ensures r == NextLine(old(br.Rest()), br.fault, remaining)
    ensures br.pos == old(br.pos) + r.n
  {
    if remaining <= 0 {
      return NoLine(TooLarge, 0);
    }
    var buf: Bytes := [];
    var nread := 0;
    ghost var s := br.Rest();
    while true
      invariant br.Valid() && br.pos == old(br.pos) + nread
      invariant nread == |buf| <= remaining && nread <= |s|
      invariant buf == s[..nread] && forall i: nat :: i < nread ==> !IsBreak(s[i])
      decreases |br.data| - br.pos
    {
      var b := br.ReadByte();
      if b == None {
        BreakAtIs(s, |s|);
        return NoLine(EndError(br.fault), nread);
      }
      assert b.value == s[nread];
      nread := nread + 1;
      if nread > remaining {
        return NoLine(TooLarge, nread);
      }
      if b.value == LF {
        // A CR ends its line at once and is never kept, so there is none to strip here.
        assert buf == [] || Last(buf) != CR;
        BreakAtIs(s, nread - 1);
        return Line(buf, nread);
      }
      if b.value == CR {
        BreakAtIs(s, nread - 1);
        var next := br.ReadByte();
        if next != None {
          assert next.value == s[nread];
          nread := nread + 1;
          if next.value != LF {
            br.UnreadByte();
            nread := nread - 1;
          }
        }
        return Line(buf, nread);
      }
      buf := buf + [b.value];
    }
  }

  // ------------------------------------------------------------------ fields

  /** "data" */
  const DATA: Bytes := [100, 97, 116, 97]

  function IndexOfColon(line: Bytes): (i: nat)
    ensures i <= |line| && (i < |line| ==> line[i] == COLON)
    ensures forall q: nat :: q < i ==> line[q] != COLON
  {
    if line == [] || line[0] == COLON then 0 else 1 + IndexOfColon(line[1..])
  }

  function SplitSSEField(line: Bytes): (f: (Bytes, Bytes)) {
    var i := IndexOfColon(line);
    if i == |line| then (line, [])
    else
      var value := line[i + 1..];
      (line[..i], if [SPACE] <= value then value[1..] else value)
  }

  /** The data lines that a field line adds: one for a data field, none for a comment or another field. */
  function DataOf(line: Bytes): seq<Bytes> {
    if [COLON] <= line then []
    else if SplitSSEField(line).0 == DATA then [SplitSSEField(line).1]
    else []
  }

  function DataLines(lines: seq<Bytes>): seq<Bytes> {
    if lines == [] then [] else DataOf(lines[0]) + DataLines(lines[1..])
  }

  /** strings.Join with LF. */
  function JoinLF(lines: seq<Bytes>): Bytes {
    if lines == [] then [] else if |lines| == 1 then lines[0] else JoinLF(Init(lines)) + [LF] + Last(lines)
  }

  // ------------------------------------------------------------------ events

  /** The field lines before a blank line, with the bytes the block takes. */
  datatype BlockResult = Block(lines: seq<Bytes>, n: nat) | NoBlock(error: ReadError, n: nat)

  function Before(lines: seq<Bytes>, size: nat, r: BlockResult): BlockResult {
    match r
    case Block(more, n) => Block(lines + more, size + n)
    case NoBlock(e, n) => NoBlock(e, size + n)
  }

  /** The block that `s` starts with; `first` when none of its lines has been read yet. */
  function BlockFrom(s: Bytes, fault: Fault, remaining: int, first: bool): (r: BlockResult)
    ensures r.n <= |s|
    ensures r.Block? ==> r.n >= 1
    decreases |s|
  {
    match NextLine(s, fault, remaining)
    case NoLine(e, n) => NoBlock(if e == EndOfInput && !(first && n == 0) then EndedEarly else e, n)
    case Line(line, n) =>
      if line == [] then Block([], n)
      else Before([line], n, BlockFrom(s[n..], fault, remaining - n, false))
  }

  /** The payload of a block: nothing for a lone blank line. */
  function Payload(lines: seq<Bytes>): Option<Bytes> {
    if lines == [] then None else Some(JoinLF(DataLines(lines)))
  }

  datatype EventResult = Event(data: Option<Bytes>, n: nat) | NoEvent(error: ReadError, n: nat)

  function NextEvent(s: Bytes, fault: Fault, max: int): (r: EventResult)
    ensures r.n <= |s|
    ensures r.Event? ==> r.n >= 1
  {
    match BlockFrom(s, fault, max, true)
    case Block(lines, n) => Event(Payload(lines), n)
    case NoBlock(e, n) => NoEvent(e, n)
  }

  lemma {:induction false} BlockCount(s: Bytes, fault: Fault, remaining: int, first: bool)
    ensures BlockFrom(s, fault, remaining, first).n <= (if remaining > 0 then remaining + 1 else 0)
    decreases |s|
  {
    match NextLine(s, fault, remaining)
    case NoLine(e, n) =>
    case Line(line, n) =>
      if line != [] { BlockCount(s[n..], fault, remaining - n, false); }
  }

  /** An event takes at most one byte more than a positive limit. */
  lemma EventCount(s: Bytes, fault: Fault, max: int)
    ensures NextEvent(s, fault, max).n <= (if max > 0 then max + 1 else 0)
  {
    BlockCount(s, fault, max, true);
  }

  lemma {:induction false} DataLinesSnoc(lines: seq<Bytes>, line: Bytes)
    ensures DataLines(lines + [line]) == DataLines(lines) + DataOf(line)
  {
    hide DataOf;
    if lines == [] {
      assert DataLines([line]) == DataOf(line) + [];
    } else {
      assert (lines + [line])[1..] == lines[1..] + [line];
      DataLinesSnoc(lines[1..], line);
    }
  }

  lemma BlockStep(s: Bytes, fault: Fault, remaining: int, first: bool, lines: seq<Bytes>, size: nat)
    ensures var l := NextLine(s, fault, remaining);
            Before(lines, size, BlockFrom(s, fault, remaining, first))
            == if l.NoLine? then
                 NoBlock(if l.error == EndOfInput && !(first && l.n == 0) then EndedEarly else l.error, size + l.n)
               else if l.text == [] then Block(lines, size + l.n)
               else Before(lines + [l.text], size + l.n, BlockFrom(s[l.n..], fault, remaining - l.n, false))
  {
    hide NextLine;
    var l := NextLine(s, fault, remaining);
    if l.Line? && l.text != [] {
      match BlockFrom(s[l.n..], fault, remaining - l.n, false)
      case Block(more, n) => assert lines + ([l.text] + more) == lines + [l.text] + more;
      case NoBlock(e, n) =>
    }
  }

  method ReadSSEEvent(br: ByteReader, max: int) returns (r: EventResult)
    requires br.Valid()
    modifies br
    ensures br.Valid()
    ensures r == NextEvent(old(br.Rest()), br.fault, max)
    ensures br.pos == old(br.pos) + r.n
  {
    hide BlockFrom, NextLine, SplitSSEField, JoinLF;
    var dataLines: seq<Bytes> := [];
    var size := 0;
    var gotField := false;
    ghost var lines: seq<Bytes> := [];
    ghost var whole := BlockFrom(br.Rest(), br.fault, max, true);
    while true
      invariant br.Valid() && br.pos == old(br.pos) + size
      invariant dataLines == DataLines(lines) && gotField == (lines != []) && (!gotField ==> size == 0)
      invariant whole == Before(lines, size, BlockFrom(br.Rest(), br.fault, max - size, !gotField))
      decreases |br.data| - br.pos
    {
      BlockStep(br.Rest(), br.fault, max - size, !gotField, lines, size);
      ghost var rest := br.Rest();
      var l := ReadSSELine(br, max - size);
      size := size + l.n;
      if l.NoLine? {
        if l.error == EndOfInput && !gotField && size == 0 {
          return NoEvent(EndOfInput, size);
        }
        if l.error == EndOfInput {
          return NoEvent(EndedEarly, size);
        }
        return NoEvent(l.error, size);
      }
      if l.text == [] {
        if !gotField {
          return Event(None, size);
        }
        return Event(Some(JoinLF(dataLines)), size);
      }
      gotField := true;
      assert br.Rest() == rest[l.n..];
      DataLinesSnoc(lines, l.text);
      lines := lines + [l.text];
      if [COLON] <= l.text {
        continue;
      }
      var (name, value) := SplitSSEField(l.text);
      if name == DATA {
        dataLines := dataLines + [value];
      }
    }
  }

  // ---------------------------------------------------- bytes that come after

  /** A line is settled when more bytes cannot lengthen its break. */
  predicate Settled(s: Bytes, n: nat) {
    0 < n <= |s| && (n < |s| || s[n - 1] == LF)
  }

  lemma LineSettled(s: Bytes, more: Bytes, fault: Fault, later: Fault, remaining: int)
    requires NextLine(s, fault, remaining).Line? && Settled(s, NextLine(s, fault, remaining).n)
    ensures NextLine(s + more, later, remaining) == NextLine(s, fault, remaining)
  {
    var k := BreakAt(s);
    BreakAtIs(s + more, k);
    assert (s + more)[..k] == s[..k];
  }

  lemma {:induction false} BlockSettled(s: Bytes, more: Bytes, fault: Fault, later: Fault, remaining: int, first: bool)
    requires var r := BlockFrom(s, fault, remaining, first); r.Block? && Settled(s, r.n)
    ensures BlockFrom(s + more, later, remaining, first) == BlockFrom(s, fault, remaining, first)
    decreases |s|
  {
    hide NextLine;
    var l := NextLine(s, fault, remaining);
    LineSettled(s, more, fault, later, remaining);
    if l.text != [] {
      assert (s + more)[l.n..] == s[l.n..] + more;
      BlockSettled(s[l.n..], more, fault, later, remaining - l.n, false);
    }
  }

  lemma EventSettled(s: Bytes, more: Bytes, fault: Fault, later: Fault, max: int)
    requires NextEvent(s, fault, max).Event? && Settled(s, NextEvent(s, fault, max).n)
    ensures NextEvent(s + more, later, max) == NextEvent(s, fault, max)
  {
    BlockSettled(s, more, fault, later, max, true);
  }

  // ------------------------------------------------- a source that stops early

  /** Stopping the source after `m` bytes changes no line that takes fewer, and leaves none that took more. */
  lemma LineCut(s: Bytes, fault: Fault, later: Fault, remaining: int, m: nat)
    requires m <= |s|
    ensures var l := NextLine(s, fault, remaining);
            var c := NextLine(s[..m], later, remaining);
            if l.n < m then c == l else c.n >= m
  {
    var k := BreakAt(s);
    var cut := s[..m];
    if k < m {
      BreakAtIs(cut, k);
      assert cut[..k] == s[..k];
    } else {
      BreakAtIs(cut, m);
    }
  }

  lemma {:induction false} BlockCut(s: Bytes, fault: Fault, later: Fault, remaining: int, first: bool, m: nat)
    requires m <= |s|
    ensures var r := BlockFrom(s, fault, remaining, first);
            var c := BlockFrom(s[..m], later, remaining, first);
            if r.n < m then c == r else c.n >= m
    decreases |s|
  {
    hide NextLine, BlockFrom;
    var l := NextLine(s, fault, remaining);
    LineCut(s, fault, later, remaining, m);
    BlockIs(s, fault, remaining, first);
    BlockIs(s[..m], later, remaining, first);
    if l.n < m && l.Line? && l.text != [] {
      assert s[..m][l.n..] == s[l.n..][..m - l.n];
      BlockCut(s[l.n..], fault, later, remaining - l.n, false, m - l.n);
    }
  }

  lemma EventCut(s: Bytes, fault: Fault, later: Fault, max: int, m: nat)
    requires m <= |s|
    ensures var r := NextEvent(s, fault, max);
            var c := NextEvent(s[..m], later, max);
            if r.n < m then c == r else c.n >= m
  {
    hide BlockFrom;
    BlockCut(s, fault, later, max, true, m);
  }

  // ------------------------------------------------------------ whole streams

  /** Every event until the reader gives up, and why it does. */
  function ReadAll(s: Bytes, fault: Fault, max: int): (seq<Option<Bytes>>, ReadError)
    decreases |s|
  {
    match NextEvent(s, fault, max)
    case NoEvent(e, n) => ([], e)
    case Event(d, n) =>
      var (ds, e) := ReadAll(s[n..], fault, max);
      ([d] + ds, e)
  }

  /** All finished lines of a text, and the unfinished rest. */
  function Lines(s: Bytes): (r: (seq<Bytes>, Bytes))
    decreases |s|
  {
    var k := BreakAt(s);
    if k == |s| then ([], s)
    else
      var (ls, rest) := Lines(s[k + BreakWidth(s, k)..]);
      ([s[..k]] + ls, rest)
  }

  /** Payloads read off a list of lines, `open` being the fields of the block not closed yet. */
  function Group(lines: seq<Bytes>, open: seq<Bytes>): seq<Option<Bytes>> {
    if lines == [] then []
    else if lines[0] == [] then [Payload(open)] + Group(lines[1..], [])
    else Group(lines[1..], open + [lines[0]])
  }

  lemma LinesFirst(s: Bytes, fault: Fault, remaining: int)
    requires var l := NextLine(s, fault, remaining); l.NoLine? ==> l.error != TooLarge
    ensures var l := NextLine(s, fault, remaining);
            Lines(s).0 == if l.Line? then [l.text] + Lines(s[l.n..]).0 else []
  {
  }

  lemma BlockIs(s: Bytes, fault: Fault, remaining: int, first: bool)
    ensures var l := NextLine(s, fault, remaining);
            BlockFrom(s, fault, remaining, first)
            == if l.NoLine? then
                 NoBlock(if l.error == EndOfInput && !(first && l.n == 0) then EndedEarly else l.error, l.n)
               else if l.text == [] then Block([], l.n)
               else Before([l.text], l.n, BlockFrom(s[l.n..], fault, remaining - l.n, false))
  {
    hide NextLine;
  }

  lemma {:induction false} BlockIsGroup(s: Bytes, fault: Fault, remaining: int, first: bool, open: seq<Bytes>)
    requires var r := BlockFrom(s, fault, remaining, first); r.NoBlock? ==> r.error != TooLarge
    ensures var r := BlockFrom(s, fault, remaining, first);
            Group(Lines(s).0, open)
            == if r.Block? then [Payload(open + r.lines)] + Group(Lines(s[r.n..]).0, []) else []
    decreases |s|
  {
    hide NextLine, BlockFrom, Lines, Group, Payload;
    BlockIs(s, fault, remaining, first);
    var l := NextLine(s, fault, remaining);
    LinesFirst(s, fault, remaining);
    GroupNone(open);
    if l.Line? {
      var rest := s[l.n..];
      GroupFirst(l.text, Lines(rest).0, open);
      if l.text == [] {
        assert open + [] == open;
      } else {
        BlockIsGroup(rest, fault, remaining - l.n, false, open + [l.text]);
        var r := BlockFrom(rest, fault, remaining - l.n, false);
        if r.Block? {
          assert open + [l.text] + r.lines == open + ([l.text] + r.lines);
          assert rest[r.n..] == s[l.n + r.n..];
        }
      }
    }
  }

  lemma GroupNone(open: seq<Bytes>)
    ensures Group([], open) == []
  {
  }

  lemma GroupFirst(line: Bytes, lines: seq<Bytes>, open: seq<Bytes>)
    ensures Group([line] + lines, open)
            == if line == [] then [Payload(open)] + Group(lines, []) else Group(lines, open + [line])
  {
    assert ([line] + lines)[1..] == lines;
  }

  /** One event against the grouped lines, unless it is too large. */
  lemma EventIsGroup(s: Bytes, fault: Fault, max: int)
    requires var r := NextEvent(s, fault, max); r.NoEvent? ==> r.error != TooLarge
    ensures var r := NextEvent(s, fault, max);
            Group(Lines(s).0, []) == if r.Event? then [r.data] + Group(Lines(s[r.n..]).0, []) else []
  {
    hide BlockFrom, Group, Lines, Payload;
    BlockIsGroup(s, fault, max, true, []);
    var r := BlockFrom(s, fault, max, true);
    if r.Block? { assert [] + r.lines == r.lines; }
  }

  /**
   Reading events is splitting into lines and grouping them: what is read is always
   a prefix of that, and all of it unless some event is too large.
   */
  lemma {:induction false} ReadAllIsGroup(s: Bytes, fault: Fault, max: int)
    ensures ReadAll(s, fault, max).0 <= Group(Lines(s).0, [])
    ensures ReadAll(s, fault, max).1 != TooLarge ==> ReadAll(s, fault, max).0 == Group(Lines(s).0, [])
    decreases |s|
  {
    hide NextEvent, Group, Lines;
    var r := NextEvent(s, fault, max);
    if r.Event? {
      EventIsGroup(s, fault, max);
      ReadAllIsGroup(s[r.n..], fault, max);
    } else if r.error != TooLarge {
      EventIsGroup(s, fault, max);
    }
  }
}
