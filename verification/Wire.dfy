/**
 The mock server's wire helpers: the event printer (`rawEvent`), the line-ending
 converter (`crlf`) and the segmenters, with the reader as their inverse.
 */
module Wire {
  import opened ByteText
  import opened Source
  import opened EventStream

  // ---------------------------------------------------------------- printing

  /** "data: " */
  const PREFIX: Bytes := DATA + [COLON, SPACE]

  function RawEvent(payload: Bytes): Bytes {
    PREFIX + payload + [LF, LF]
  }

  predicate NoBreaks(s: Bytes) {
    forall i: nat :: i < |s| ==> !IsBreak(s[i])
  }

  predicate IsLineEnd(brk: Bytes) {
    brk == [LF] || brk == [CR] || brk == [CR, LF]
  }

  /** Field lines, each ended by `brk`, closed by a blank line. */
  function PrintBlock(lines: seq<Bytes>, brk: Bytes): Bytes {
    if lines == [] then brk else lines[0] + brk + PrintBlock(lines[1..], brk)
  }

  ghost predicate FieldLines(lines: seq<Bytes>) {
    forall k: nat :: k < |lines| ==> lines[k] != [] && NoBreaks(lines[k])
  }

  lemma PrintedLine(line: Bytes, brk: Bytes, rest: Bytes, fault: Fault, remaining: int)
    requires NoBreaks(line) && IsLineEnd(brk) && (brk == [CR] ==> !([LF] <= rest))
    ensures NextLine(line + brk + rest, fault, remaining)
            == if |line| < remaining then Line(line, |line| + |brk|)
               else NoLine(TooLarge, if remaining <= 0 then 0 else remaining + 1)
  {
    var s := line + brk + rest;
    assert s[|line|] == brk[0];
    BreakAtIs(s, |line|);
    assert s[..|line|] == line;
    assert |brk| == 2 ==> s[|line| + 1] == LF;
    assert |brk| == 1 && rest != [] ==> s[|line| + 1] == rest[0];
  }

  lemma RestIs(front: Bytes, rest: Bytes)
    ensures (front + rest)[|front|..] == rest
  {
  }

  lemma BlockUnfolds(s: Bytes, fault: Fault, remaining: int, first: bool)
    ensures var r := BlockFrom(s, fault, remaining, first);
            match NextLine(s, fault, remaining)
            case NoLine(e, _) => r.NoBlock? && (e == TooLarge ==> r.error == TooLarge)
            case Line(line, n) =>
              r == if line == [] then Block([], n)
                   else Before([line], n, BlockFrom(s[n..], fault, remaining - n, false))
  {
    hide NextLine;
  }

  lemma PrintedStep(line: Bytes, brk: Bytes, rest: Bytes, fault: Fault, remaining: int, first: bool)
    requires NoBreaks(line) && IsLineEnd(brk) && (brk == [CR] ==> !([LF] <= rest))
    ensures var n := |line| + |brk|;
            var r := BlockFrom(line + brk + rest, fault, remaining, first);
            if |line| >= remaining then r.NoBlock? && r.error == TooLarge
            else if line == [] then r == Block([], n)
            else r == Before([line], n, BlockFrom(rest, fault, remaining - n, false))
  {
    hide NextLine, NoBreaks, IsLineEnd, BlockFrom, Before;
    var s := line + brk + rest;
    PrintedLine(line, brk, rest, fault, remaining);
    RestIs(line + brk, rest);
    BlockUnfolds(s, fault, remaining, first);
  }

  /**
   Reading undoes printing, for any field lines and any one of the three line
   ends: the block comes back whole exactly when it fits, whatever follows. The
   last byte of a two-byte line end does not count against the limit.
   */
  lemma {:induction false} BlockRoundTrip(lines: seq<Bytes>, brk: Bytes, rest: Bytes, fault: Fault,
                                          remaining: int, first: bool)
    requires FieldLines(lines) && IsLineEnd(brk) && (brk == [CR] ==> !([LF] <= rest))
    ensures var size := |PrintBlock(lines, brk)|;
            var r := BlockFrom(PrintBlock(lines, brk) + rest, fault, remaining, first);
            if size - |brk| < remaining then r == Block(lines, size) else r.NoBlock? && r.error == TooLarge
    decreases |lines|
  {
    hide BlockFrom;
    if lines == [] {
      assert [] + brk + rest == brk + rest;
      PrintedStep([], brk, rest, fault, remaining, first);
    } else {
      var line, tail := lines[0], PrintBlock(lines[1..], brk);
      PrintedFirst(lines[1..], brk, rest);
      PrintedStep(line, brk, tail + rest, fault, remaining, first);
      assert line + brk + tail + rest == line + brk + (tail + rest);
      BlockRoundTrip(lines[1..], brk, rest, fault, remaining - |line| - |brk|, false);
      assert [line] + lines[1..] == lines;
    }
  }

  lemma PrintedFirst(lines: seq<Bytes>, brk: Bytes, rest: Bytes)
    requires FieldLines(lines) && IsLineEnd(brk)
    ensures brk == [CR] ==> !([LF] <= PrintBlock(lines, brk) + rest)
    ensures |PrintBlock(lines, brk)| >= |brk|
  {
    var printed := PrintBlock(lines, brk);
    if lines == [] {
      assert (printed + rest)[0] == brk[0];
    } else {
      assert lines[0] != [] && NoBreaks(lines[0]);
      assert printed == lines[0] + (brk + PrintBlock(lines[1..], brk));
      assert (printed + rest)[0] == lines[0][0];
    }
  }

  lemma PrefixedIsData(payload: Bytes)
    ensures DataOf(PREFIX + payload) == [payload]
  {
    var line := PREFIX + payload;
    assert line[0] == 100 && line[4] == COLON;
    var i := IndexOfColon(line);
    assert line[1] == 97 && line[2] == 116 && line[3] == 97;
    assert i == 4;
    assert line[..4] == DATA;
    assert line[5..] == [SPACE] + payload;
    assert line[5..][1..] == payload;
  }

  /** One printed event, read back exactly when it fits the limit. */
  lemma RawEventRoundTrip(payload: Bytes, rest: Bytes, fault: Fault, max: int)
    requires NoBreaks(payload)
    ensures var r := NextEvent(RawEvent(payload) + rest, fault, max);
            if |payload| + 8 <= max then r == Event(Some(payload), |payload| + 8)
            else r.NoEvent? && r.error == TooLarge
  {
    hide BlockFrom, DataOf;
    var line := PREFIX + payload;
    var lines := [line];
    assert NoBreaks(line);
    assert PrintBlock(lines, [LF]) == line + [LF] + PrintBlock(lines[1..], [LF]);
    assert line + [LF] + [LF] == RawEvent(payload);
    BlockRoundTrip(lines, [LF], rest, fault, max, true);
    PrefixedIsData(payload);
    assert DataLines(lines) == [payload] + DataLines(lines[1..]);
    assert JoinLF([payload]) == payload;
  }

  function RawEvents(payloads: seq<Bytes>): Bytes {
    if payloads == [] then [] else RawEvent(payloads[0]) + RawEvents(payloads[1..])
  }

  /** A printed stream reads back as its payloads, in order, and then the end of the source. */
  lemma {:induction false} RawEventsRoundTrip(payloads: seq<Bytes>, fault: Fault, max: int)
    requires max >= 1
    requires forall k: nat :: k < |payloads| ==> NoBreaks(payloads[k]) && |payloads[k]| + 8 <= max
    ensures var (read, why) := ReadAll(RawEvents(payloads), fault, max);
            && |read| == |payloads|
            && (forall k: nat :: k < |payloads| ==> read[k] == Some(payloads[k]))
            && why == EndError(fault)
    decreases |payloads|
  {
    hide NextEvent;
    if payloads == [] {
      NothingToRead(fault, max);
    } else {
      var p, rest := payloads[0], RawEvents(payloads[1..]);
      RawEventRoundTrip(p, rest, fault, max);
      assert (RawEvent(p) + rest)[|p| + 8..] == rest;
      RawEventsRoundTrip(payloads[1..], fault, max);
    }
  }

  lemma NothingToRead(fault: Fault, max: int)
    requires max >= 1
    ensures NextEvent([], fault, max) == NoEvent(EndError(fault), 0)
  {
    assert NextLine([], fault, max) == NoLine(EndError(fault), 0);
  }

  // ---------------------------------------------------- line-ending conversion

  /** `s` with CR put before every LF that has none; `prevCR` when a CR comes just before `s`. */
  function Crlf(prevCR: bool, s: Bytes): Bytes
    decreases |s|
  {
    if s == [] then []
    else if s[0] == LF && !prevCR then [CR] + ([LF] + Crlf(false, s[1..]))
    else [s[0]] + Crlf(s[0] == CR, s[1..])
  }

  method ToCrlf(s: Bytes) returns (out: Bytes)
    ensures out == Crlf(false, s)
  {
    hide Crlf;
    out := [];
    var i := 0;
    while i < |s|
      invariant i <= |s|
      invariant out + Crlf(EndsInCR(out), s[i..]) == Crlf(false, s)
    {
      ghost var before := out;
      if s[i] == LF {
        if out == [] || Last(out) != CR {
          out := out + [CR];
        }
      }
      out := out + [s[i]];
      CrlfStep(before, s, i);
      i := i + 1;
    }
    CrlfNone(EndsInCR(out));
    assert s[i..] == [] && out + [] == out;
  }

  predicate EndsInCR(s: Bytes) {
    s != [] && Last(s) == CR
  }

  lemma CrlfNone(prevCR: bool)
    ensures Crlf(prevCR, []) == []
  {
  }

  /** One byte of the loop: what is written is what the conversion takes off the text. */
  lemma CrlfStep(out: Bytes, s: Bytes, i: nat)
    requires i < |s|
    ensures var wrote := (if s[i] == LF && !EndsInCR(out) then out + [CR] else out) + [s[i]];
            out + Crlf(EndsInCR(out), s[i..]) == wrote + Crlf(EndsInCR(wrote), s[i + 1..])
  {
    hide Crlf;
    var rest := s[i + 1..];
    assert s[i..] == [s[i]] + rest;
    CrlfFirst(EndsInCR(out), s[i], rest);
    var u, v := Crlf(false, rest), Crlf(s[i] == CR, rest);
    assert out + ([CR] + ([LF] + u)) == out + [CR] + [LF] + u;
    assert out + ([s[i]] + v) == out + [s[i]] + v;
  }

  lemma CrlfFirst(prevCR: bool, b: byte, s: Bytes)
    ensures Crlf(prevCR, [b] + s)
            == if b == LF && !prevCR then [CR] + ([LF] + Crlf(false, s)) else [b] + Crlf(b == CR, s)
  {
    assert ([b] + s)[1..] == s;
  }

  /** Converting twice changes nothing more. */
  lemma {:induction false} CrlfIdempotent(prevCR: bool, s: Bytes)
    ensures Crlf(prevCR, Crlf(prevCR, s)) == Crlf(prevCR, s)
    decreases |s|
  {
    if s != [] {
      hide Crlf;
      var b, t := s[0], s[1..];
      assert [b] + t == s;
      CrlfFirst(prevCR, b, t);
      if b == LF && !prevCR {
        var u := Crlf(false, t);
        CrlfIdempotent(false, t);
        CrlfFirst(false, CR, [LF] + u);
        CrlfFirst(true, LF, u);
      } else {
        CrlfIdempotent(b == CR, t);
        CrlfFirst(prevCR, b, Crlf(b == CR, t));
      }
    }
  }

  /** Every CRLF replaced by LF. */
  function OneLF(s: Bytes): Bytes {
    if [CR, LF] <= s then [LF] + OneLF(s[2..])
    else if s == [] then []
    else [s[0]] + OneLF(s[1..])
  }

  /** Every LF replaced by CRLF. */
  function TwoBytes(s: Bytes): Bytes {
    if s == [] then [] else (if s[0] == LF then [CR, LF] else [s[0]]) + TwoBytes(s[1..])
  }

  lemma TwoBytesFirst(b: byte, s: Bytes)
    ensures TwoBytes([b] + s) == (if b == LF then [CR, LF] else [b]) + TwoBytes(s)
  {
    assert ([b] + s)[1..] == s;
  }

  lemma OneLFFirst(b: byte, s: Bytes)
    ensures OneLF([b] + s) == if b == CR && [LF] <= s then [LF] + OneLF(s[1..]) else [b] + OneLF(s)
  {
    var all := [b] + s;
    assert all[1..] == s;
    if b == CR && [LF] <= s { assert all[2..] == s[1..]; }
    assert s != [] ==> all[1] == s[0];
  }

  lemma CrlfAfterCR(s: Bytes)
    ensures Crlf(true, s) == if [LF] <= s then [LF] + Crlf(false, s[1..]) else Crlf(false, s)
  {
  }

  /** The conversion is those two replacements, one after the other. */
  lemma {:induction false} CrlfReplaces(s: Bytes)
    ensures Crlf(false, s) == TwoBytes(OneLF(s))
    decreases |s|
  {
    if s != [] {
      hide Crlf, TwoBytes, OneLF;
      var b, t := s[0], s[1..];
      assert s == [b] + t;
      CrlfFirst(false, b, t);
      OneLFFirst(b, t);
      CrlfAfterCR(t);
      if b == CR && [LF] <= t {
        CrlfReplaces(t[1..]);
        TwoBytesFirst(LF, OneLF(t[1..]));
      } else {
        CrlfReplaces(t);
        TwoBytesFirst(b, OneLF(t));
      }
      TwoAtOnce(Crlf(false, t));
      TwoAtOnce(if t == [] then [] else Crlf(false, t[1..]));
    }
  }

  lemma TwoAtOnce(s: Bytes)
    ensures [CR] + ([LF] + s) == [CR, LF] + s
  {
  }

  lemma LinesOne(line: Bytes, brk: Bytes, rest: Bytes)
    requires NoBreaks(line) && IsLineEnd(brk) && (brk == [CR] ==> !([LF] <= rest))
    ensures Lines(line + brk + rest) == ([line] + Lines(rest).0, Lines(rest).1)
  {
    var s := line + brk + rest;
    assert s[|line|] == brk[0];
    BreakAtIs(s, |line|);
    assert s[..|line|] == line;
    assert |brk| == 2 ==> s[|line| + 1] == LF;
    assert |brk| == 1 && rest != [] ==> s[|line| + 1] == rest[0];
    assert s[|line| + |brk|..] == rest;
  }

  lemma LinesNone(s: Bytes)
    requires NoBreaks(s)
    ensures Lines(s) == ([], s)
  {
    BreakAtIs(s, |s|);
  }

  lemma LinesEnded(brk: Bytes, rest: Bytes)
    requires IsLineEnd(brk) && (brk == [CR] ==> !([LF] <= rest))
    ensures Lines(brk + rest) == ([[]] + Lines(rest).0, Lines(rest).1)
  {
    hide Lines;
    LinesOne([], brk, rest);
    assert [] + brk + rest == brk + rest;
  }

  /** `b` in front of a text joins its first line, or its unfinished rest. */
  function Prepend(b: byte, r: (seq<Bytes>, Bytes)): (seq<Bytes>, Bytes) {
    if r.0 == [] then ([], [b] + r.1) else ([[b] + r.0[0]] + r.0[1..], r.1)
  }

  lemma LinesPlain(b: byte, s: Bytes)
    requires !IsBreak(b)
    ensures Lines([b] + s) == Prepend(b, Lines(s))
  {
    hide Lines, Prepend;
    if BreakAt(s) == |s| {
      LinesNone(s);
      LinesNone([b] + s);
      PrependNone(b, s);
    } else {
      var line, brk, rest := AtBreak(b, s);
      LinesOne(line, brk, rest);
      LinesOne([b] + line, brk, rest);
      PrependCons(b, line, Lines(rest).0, Lines(rest).1);
    }
  }

  lemma AtBreak(b: byte, s: Bytes) returns (line: Bytes, brk: Bytes, rest: Bytes)
    requires BreakAt(s) < |s|
    ensures s == line + brk + rest && [b] + s == ([b] + line) + brk + rest
    ensures NoBreaks(line) && IsLineEnd(brk) && (brk == [CR] ==> !([LF] <= rest))
  {
    var k := BreakAt(s);
    var n := k + BreakWidth(s, k);
    BreakIsLineEnd(s, k);
    hide *;
    line, brk, rest := s[..k], s[k..n], s[n..];
    ThreeParts(s, k, n);
    FourParts(b, line, brk, rest);
  }

  lemma ThreeParts(s: Bytes, k: nat, n: nat)
    requires k <= n <= |s|
    ensures s == s[..k] + s[k..n] + s[n..]
  {
    var front := s[..n];
    assert front == front[..k] + front[k..];
    assert s == front + s[n..];
  }

  lemma FourParts(b: byte, x: Bytes, y: Bytes, z: Bytes)
    ensures [b] + (x + y + z) == ([b] + x) + y + z
  {
    assert [b] + (x + y) == ([b] + x) + y;
  }

  lemma BreakIsLineEnd(s: Bytes, k: nat)
    requires k == BreakAt(s) < |s|
    ensures var n := k + BreakWidth(s, k);
            NoBreaks(s[..k]) && IsLineEnd(s[k..n]) && (s[k..n] == [CR] ==> !([LF] <= s[n..]))
  {
    hide BreakAt;
    var n := k + BreakWidth(s, k);
    var brk, rest := s[k..n], s[n..];
    assert rest != [] ==> rest[0] == s[n];
    assert brk[0] == s[k];
    if |brk| == 2 { assert brk[1] == s[k + 1]; }
  }

  lemma PrependNone(b: byte, rest: Bytes)
    ensures Prepend(b, ([], rest)) == ([], [b] + rest)
  {
  }

  lemma PrependCons(b: byte, line: Bytes, lines: seq<Bytes>, rest: Bytes)
    ensures Prepend(b, ([line] + lines, rest)) == ([[b] + line] + lines, rest)
  {
    assert ([line] + lines)[1..] == lines;
  }

  /** The converter adds and loses no line and no text. */
  lemma {:induction false} CrlfKeepsLines(s: Bytes)
    ensures Lines(Crlf(false, s)) == Lines(s)
    decreases |s|
  {
    hide Lines;
    if s == [] {
    } else if s[0] == LF {
      CrlfKeepsLines(s[1..]);
      LinesEnded([LF], s[1..]);
      LinesEnded([CR, LF], Crlf(false, s[1..]));
      assert [CR] + ([LF] + Crlf(false, s[1..])) == [CR, LF] + Crlf(false, s[1..]);
      assert [LF] + s[1..] == s;
    } else if s[0] == CR && |s| > 1 && s[1] == LF {
      var t := s[2..];
      CrlfKeepsLines(t);
      LinesEnded([CR, LF], t);
      LinesEnded([CR, LF], Crlf(false, t));
      assert [CR, LF] + t == s && s[1..][1..] == t;
      assert Crlf(true, s[1..]) == [LF] + Crlf(false, t);
      assert Crlf(false, s) == [CR] + ([LF] + Crlf(false, t)) == [CR, LF] + Crlf(false, t);
    } else if s[0] == CR {
      var t := s[1..];
      CrlfKeepsLines(t);
      assert Crlf(true, t) == Crlf(false, t);
      LinesEnded([CR], t);
      LinesEnded([CR], Crlf(false, t));
      assert [CR] + t == s;
    } else {
      CrlfKeepsLines(s[1..]);
      LinesPlain(s[0], s[1..]);
      LinesPlain(s[0], Crlf(false, s[1..]));
      assert [s[0]] + s[1..] == s;
    }
  }

  /** Every LF replaced by CR. */
  function LfToCr(s: Bytes): Bytes {
    if s == [] then [] else [if s[0] == LF then CR else s[0]] + LfToCr(s[1..])
  }

  lemma {:induction false} CrKeepsLines(s: Bytes)
    requires CR !in s
    ensures Lines(LfToCr(s)) == Lines(s)
    decreases |s|
  {
    hide Lines;
    if s != [] {
      var t := s[1..];
      assert [s[0]] + t == s && s[0] != CR;
      CrKeepsLines(t);
      if s[0] == LF {
        LinesEnded([LF], t);
        LinesEnded([CR], LfToCr(t));
      } else {
        LinesPlain(s[0], t);
        LinesPlain(s[0], LfToCr(t));
      }
    }
  }

  /** What was read before an event too large stopped it is the first part of what the other reads. */
  predicate SamePayloads(a: (seq<Option<Bytes>>, ReadError), b: (seq<Option<Bytes>>, ReadError)) {
    && (a.0 <= b.0 || b.0 <= a.0)
    && (a.1 != TooLarge ==> b.0 <= a.0)
    && (b.1 != TooLarge ==> a.0 <= b.0)
  }

  /** Hence a stream means the same with any line end: up to an event too large, the same payloads are read. */
  lemma LineEndsKeepPayloads(s: Bytes, fault: Fault, max: int)
    ensures SamePayloads(ReadAll(s, fault, max), ReadAll(Crlf(false, s), fault, max))
    ensures CR !in s ==> SamePayloads(ReadAll(s, fault, max), ReadAll(LfToCr(s), fault, max))
  {
    hide ReadAll, Group, Lines;
    ReadAllIsGroup(s, fault, max);
    ReadAllIsGroup(Crlf(false, s), fault, max);
    CrlfKeepsLines(s);
    if CR !in s {
      ReadAllIsGroup(LfToCr(s), fault, max);
      CrKeepsLines(s);
    }
  }

  // -------------------------------------------------------------- segmenting

  /** WireBytes: the segments one after the other. */
  method WireBytes(segments: seq<Bytes>) returns (out: Bytes)
    ensures out == Concat(segments)
  {
    out := [];
    for k := 0 to |segments|
      invariant out == Concat(segments[..k])
    {
      assert Init(segments[..k + 1]) == segments[..k];
      out := out + segments[k];
    }
    assert segments[..|segments|] == segments;
  }

  /** Where segment `k` starts, and where it ends. */
  function CutStart(offsets: seq<int>, k: nat): int
    requires k <= |offsets|
  {
    if k == 0 then 0 else offsets[k - 1]
  }

  function CutEnd(data: Bytes, offsets: seq<int>, k: nat): int
    requires k <= |offsets|
  {
    if k < |offsets| then offsets[k] else |data|
  }

  /** Strictly increasing, and strictly inside the data. */
  predicate ValidOffsets(data: Bytes, offsets: seq<int>) {
    forall k: nat :: k < |offsets| ==> 0 <= CutStart(offsets, k) < offsets[k] < |data|
  }

  lemma ConcatSlice(segments: seq<Bytes>, data: Bytes, from: nat, to: nat)
    requires from <= to <= |data| && Concat(segments) == data[..from]
    ensures Concat(segments + [data[from..to]]) == data[..to]
  {
    assert Init(segments + [data[from..to]]) == segments;
    assert data[..from] + data[from..to] == data[..to];
  }

  /** The first `k` spans, and that the first `k` offsets are valid. */
  ghost predicate SpansOf(data: Bytes, offsets: seq<int>, spans: seq<(int, int)>, k: nat) {
    && k == |spans| <= |offsets| + 1
    && forall q: nat :: q < k ==> spans[q].0 == CutStart(offsets, q) && spans[q].1 == CutEnd(data, offsets, q)
  }

  ghost predicate ValidUpTo(data: Bytes, offsets: seq<int>, k: nat) {
    k <= |offsets| && forall q: nat :: q < k ==> 0 <= CutStart(offsets, q) < offsets[q] < |data|
  }

  lemma SpanStep(data: Bytes, offsets: seq<int>, spans: seq<(int, int)>, k: nat)
    requires SpansOf(data, offsets, spans, k) && k <= |offsets|
    ensures SpansOf(data, offsets, spans + [(CutStart(offsets, k), CutEnd(data, offsets, k))], k + 1)
  {
  }

  lemma ValidStep(data: Bytes, offsets: seq<int>, k: nat)
    requires ValidUpTo(data, offsets, k) && k < |offsets|
    ensures 0 <= CutStart(offsets, k)
    ensures CutStart(offsets, k) < offsets[k] < |data| ==> ValidUpTo(data, offsets, k + 1)
    ensures !(CutStart(offsets, k) < offsets[k] < |data|) ==> !ValidOffsets(data, offsets)
  {
    if k > 0 { assert 0 <= CutStart(offsets, k - 1) < offsets[k - 1]; }
  }

  method CutSpans(data: Bytes, offsets: seq<int>) returns (ok: bool, spans: seq<(int, int)>)
    ensures ok == ValidOffsets(data, offsets)
    ensures ok ==> SpansOf(data, offsets, spans, |offsets| + 1)
  {
    hide SpansOf, ValidUpTo, ValidOffsets;
    spans := [];
    var prev := 0;
    NoSpans(data, offsets);
    for k := 0 to |offsets|
      invariant prev == CutStart(offsets, k)
      invariant SpansOf(data, offsets, spans, k) && ValidUpTo(data, offsets, k)
    {
      var off := offsets[k];
      ValidStep(data, offsets, k);
      if off <= prev || off >= |data| {
        return false, [];
      }
      SpanStep(data, offsets, spans, k);
      spans := spans + [(prev, off)];
      prev := off;
    }
    AllValid(data, offsets);
    SpanStep(data, offsets, spans, |offsets|);
    ok := true;
    spans := spans + [(prev, |data|)];
  }

  lemma NoSpans(data: Bytes, offsets: seq<int>)
    ensures SpansOf(data, offsets, [], 0) && ValidUpTo(data, offsets, 0)
  {
  }

  lemma AllValid(data: Bytes, offsets: seq<int>)
    requires ValidUpTo(data, offsets, |offsets|)
    ensures ValidOffsets(data, offsets)
  {
  }

  lemma CutBounds(data: Bytes, offsets: seq<int>, k: nat)
    requires ValidOffsets(data, offsets) && k <= |offsets|
    ensures 0 <= CutStart(offsets, k) <= CutEnd(data, offsets, k) <= |data|
    ensures k > 0 ==> CutStart(offsets, k) == CutEnd(data, offsets, k - 1)
  {
    if k == |offsets| && k > 0 {
      assert 0 <= CutStart(offsets, k - 1) < offsets[k - 1] < |data|;
    }
  }

  /** Spans that adjoin from the start of the data to its end. */
  ghost predicate Adjoining(data: Bytes, spans: seq<(int, int)>) {
    && spans != [] && Last(spans).1 == |data|
    && (forall k: nat :: k < |spans| ==> 0 <= spans[k].0 <= spans[k].1 <= |data|)
    && (forall k: nat :: k < |spans| ==> spans[k].0 == if k == 0 then 0 else spans[k - 1].1)
  }

  lemma SpansAdjoin(data: Bytes, offsets: seq<int>, spans: seq<(int, int)>)
    requires ValidOffsets(data, offsets) && SpansOf(data, offsets, spans, |offsets| + 1)
    ensures Adjoining(data, spans)
  {
    forall k: nat | k < |spans|
      ensures 0 <= spans[k].0 <= spans[k].1 <= |data|
      ensures spans[k].0 == if k == 0 then 0 else spans[k - 1].1
    {
      CutBounds(data, offsets, k);
      if k > 0 { CutBounds(data, offsets, k - 1); }
    }
    assert Last(spans).1 == CutEnd(data, offsets, |offsets|);
  }

  /** The slices of adjoining spans. */
  method Spans(data: Bytes, spans: seq<(int, int)>) returns (out: seq<Bytes>)
    requires Adjoining(data, spans)
    ensures |out| == |spans| && forall k: nat :: k < |spans| ==> out[k] == data[spans[k].0..spans[k].1]
    ensures Concat(out) == data
  {
    hide Concat;
    out := [];
    ConcatNone(data);
    for k := 0 to |spans|
      invariant |out| == k
      invariant forall q: nat :: q < k ==> out[q] == data[spans[q].0..spans[q].1]
      invariant Concat(out) == data[..if k == 0 then 0 else spans[k - 1].1]
    {
      ConcatSlice(out, data, spans[k].0, spans[k].1);
      out := out + [data[spans[k].0..spans[k].1]];
    }
    assert data[..|data|] == data;
  }

  lemma ConcatNone(data: Bytes)
    ensures Concat([]) == data[..0]
  {
  }

  /** No segments for bad offsets; otherwise the data cut there, with nothing lost. */
  method Fragment(data: Bytes, offsets: seq<int>) returns (out: seq<Bytes>)
    ensures !ValidOffsets(data, offsets) ==> out == []
    ensures ValidOffsets(data, offsets) ==> |out| == |offsets| + 1 && Concat(out) == data
    ensures ValidOffsets(data, offsets) ==>
              forall k: nat :: k <= |offsets| ==>
                && 0 <= CutStart(offsets, k) <= CutEnd(data, offsets, k) <= |data|
                && out[k] == data[CutStart(offsets, k)..CutEnd(data, offsets, k)]
  {
    hide Concat, ValidOffsets, CutStart, CutEnd, Adjoining;
    var ok, spans := CutSpans(data, offsets);
    if !ok {
      return [];
    }
    SpansAdjoin(data, offsets, spans);
    out := Spans(data, spans);
    forall k: nat | k <= |offsets|
      ensures 0 <= CutStart(offsets, k) <= CutEnd(data, offsets, k) <= |data|
      ensures out[k] == data[CutStart(offsets, k)..CutEnd(data, offsets, k)]
    {
      CutBounds(data, offsets, k);
    }
  }

  /** Segments of `n` bytes, the last one possibly shorter but not empty, rejoining to the data. */
  method FragmentEveryN(data: Bytes, n: int) returns (out: seq<Bytes>)
    ensures n <= 0 ==> out == []
    ensures n > 0 ==> Concat(out) == data && forall k: nat :: k < |out| ==> 0 < |out[k]| <= n
    ensures n > 0 ==> forall k: nat :: k < |out| - 1 ==> |out[k]| == n
  {
    if n <= 0 {
      return [];
    }
    out := [];
    var i := 0;
    while i < |data|
      invariant 0 <= i && Concat(out) == data[..if i <= |data| then i else |data|]
      invariant forall k: nat :: k < |out| ==> 0 < |out[k]| <= n
      invariant i < |data| ==> forall k: nat :: k < |out| ==> |out[k]| == n
      invariant forall k: nat :: k < |out| - 1 ==> |out[k]| == n
    {
      var end := i + n;
      if end > |data| {
        end := |data|;
      }
      ConcatSlice(out, data, i, end);
      out := out + [data[i..end]];
      i := i + n;
    }
    assert data[..|data|] == data;
  }
}
