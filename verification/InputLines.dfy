/** Bounded input lines with physical line numbers (`readBoundedLine`, `ReadLine`). */
module InputLines {
  import opened ByteText
  import opened Source
  import opened Delivery

  // ------------------------------------------------------ splitting, as a whole

  function LfAt(s: Bytes): (k: nat)
    ensures k <= |s|
    ensures forall i: nat :: i < k ==> s[i] != LF
    ensures k < |s| ==> s[k] == LF
  {
    if s == [] || s[0] == LF then 0 else 1 + LfAt(s[1..])
  }

  lemma LfAtIs(s: Bytes, k: nat)
    requires k <= |s|
    requires forall i: nat :: i < k ==> s[i] != LF
    requires k < |s| ==> s[k] == LF
    ensures LfAt(s) == k
  {
    var b := LfAt(s);
    assert b < |s| ==> s[b] == LF;
  }

  /** The physical lines: what stands between LFs, and an unfinished last line when there is one. */
  function SplitLF(s: Bytes): (lines: seq<Bytes>)
    ensures lines == [] <==> s == []
    decreases |s|
  {
    if s == [] then []
    else
      var k := LfAt(s);
      if k == |s| then [s] else [s[..k]] + SplitLF(s[k + 1..])
  }

  /** Every line, each with its LF. */
  function Unlines(lines: seq<Bytes>): Bytes {
    if lines == [] then [] else lines[0] + [LF] + Unlines(lines[1..])
  }

  lemma SplitLine(line: Bytes, rest: Bytes)
    requires forall i: nat :: i < |line| ==> line[i] != LF
    ensures SplitLF(line + [LF] + rest) == [line] + SplitLF(rest)
  {
    var s := line + [LF] + rest;
    LfAtIs(s, |line|);
    assert s[..|line|] == line && s[|line| + 1..] == rest;
  }

  lemma SplitUnfinished(line: Bytes)
    requires line != [] && forall i: nat :: i < |line| ==> line[i] != LF
    ensures SplitLF(line) == [line]
  {
    LfAtIs(line, |line|);
  }

  lemma AtFirstLf(s: Bytes) returns (line: Bytes, rest: Bytes)
    requires LfAt(s) < |s|
    ensures s == line + [LF] + rest && line == s[..LfAt(s)] && rest == s[LfAt(s) + 1..]
    ensures forall i: nat :: i < |line| ==> line[i] != LF
    ensures rest != [] ==> Last(rest) == Last(s)
    ensures rest == [] ==> Last(s) == LF
  {
    var k := LfAt(s);
    line, rest := s[..k], s[k + 1..];
  }

  lemma UnlinesCons(line: Bytes, lines: seq<Bytes>)
    ensures Unlines([line] + lines) == line + [LF] + Unlines(lines)
  {
    assert ([line] + lines)[1..] == lines;
  }

  /** Nothing is lost by splitting: the lines rejoin to the input, but for the LF an unfinished last line lacks. */
  lemma {:induction false} SplitRejoins(s: Bytes)
    ensures Unlines(SplitLF(s)) == if s == [] || Last(s) == LF then s else s + [LF]
    decreases |s|
  {
    if s == [] {
    } else if LfAt(s) == |s| {
      SplitUnfinished(s);
      UnlinesCons(s, []);
      assert s + [LF] + [] == s + [LF];
    } else {
      hide SplitLF, Unlines;
      var line, rest := AtFirstLf(s);
      SplitRejoins(rest);
      RejoinStep(line, rest);
    }
  }

  lemma RejoinStep(line: Bytes, rest: Bytes)
    requires forall i: nat :: i < |line| ==> line[i] != LF
    ensures Unlines(SplitLF(line + [LF] + rest)) == line + [LF] + Unlines(SplitLF(rest))
    ensures line + [LF] + (rest + [LF]) == line + [LF] + rest + [LF]
  {
    hide SplitLF, Unlines;
    SplitLine(line, rest);
    UnlinesCons(line, SplitLF(rest));
  }

  /** And no line holds an LF, so there is no other way to split. */
  lemma {:induction false} SplitAtEveryLf(s: Bytes)
    ensures forall k: nat :: k < |SplitLF(s)| ==> LF !in SplitLF(s)[k]
    decreases |s|
  {
    if s != [] && LfAt(s) < |s| { SplitAtEveryLf(s[LfAt(s) + 1..]); }
  }

  lemma {:induction false} SplitAppend(a: Bytes, b: Bytes)
    requires a == [] || Last(a) == LF
    ensures SplitLF(a + b) == SplitLF(a) + SplitLF(b)
    decreases |a|
  {
    hide SplitLF;
    if a == [] {
      assert a + b == b;
      assert SplitLF([]) == [];
      assert [] + SplitLF(b) == SplitLF(b);
    } else {
      assert LfAt(a) < |a| by { assert a[|a| - 1] == LF; }
      var line, rest := AtFirstLf(a);
      SplitAppend(rest, b);
      SplitLine(line, rest);
      SplitLine(line, rest + b);
      assert a + b == line + [LF] + (rest + b);
      assert [line] + (SplitLF(rest) + SplitLF(b)) == ([line] + SplitLF(rest)) + SplitLF(b);
    }
  }

  function TrimCR(s: Bytes): (t: Bytes)
    ensures t <= s && (t != [] ==> Last(t) != CR)
    ensures forall i: nat :: |t| <= i < |s| ==> s[i] == CR
  {
    if s != [] && Last(s) == CR then TrimCR(Init(s)) else s
  }

  datatype LineResult =
    | Got(number: nat, text: Bytes, eof: bool)
    | Overlong(number: nat)
    | Finished
    | Failed
    | Interrupted

  /** No LF ends line `k`. */
  predicate Unfinished(data: Bytes, k: nat) {
    data != [] && Last(data) != LF && k + 1 == |SplitLF(data)|
  }

  /** What the k-th read gives, by splitting the whole input. */
  function LineAt(data: Bytes, fault: Fault, max: nat, k: nat): LineResult {
    var lines := SplitLF(data);
    if k >= |lines| then (if fault == Eof then Finished else Failed)
    else if |lines[k]| > max then Overlong(k + 1)
    else if Unfinished(data, k) && fault != Eof then Failed
    else Got(k + 1, TrimCR(lines[k]), Unfinished(data, k))
  }

  // ------------------------------------------------------------------- reading

  datatype Bounded = Bounded(text: Bytes, status: Status)
  datatype Status = Complete | AtEof | TooLong | Broke

  /** One line off `s`: accepted exactly when its raw bytes before the LF are within the bound. */
  function FirstLine(s: Bytes, fault: Fault, max: nat): (Bounded, nat) {
    var k := LfAt(s);
    if k > max then (Bounded([], TooLong), if k < |s| then k + 1 else k)
    else if k < |s| then (Bounded(StripCR(s[..k]), Complete), k + 1)
    else if fault == Eof then (Bounded(s, AtEof), k)
    else (Bounded([], Broke), k)
  }

  function StripCR(s: Bytes): Bytes {
    if s != [] && Last(s) == CR then Init(s) else s
  }

  /** Takes the rest of an overlong line, its LF included. */
  method Drain(br: ByteReader)
    requires br.Valid()
    modifies br
    ensures br.Valid()
    ensures var s := old(br.Rest()); var k := LfAt(s);
            br.pos == old(br.pos) + (if k < |s| then k + 1 else k)
  {
    hide LfAt;
    ghost var s := br.Rest();
    ghost var n := 0;
    while true
      invariant br.Valid() && br.pos == old(br.pos) + n && n <= |s|
      invariant forall i: nat :: i < n ==> s[i] != LF
      decreases |br.data| - br.pos
    {
      var c := br.ReadByte();
      if c == None {
        LfAtIs(s, |s|);
        return;
      }
      assert c.value == s[n];
      if c.value == LF {
        LfAtIs(s, n);
        return;
      }
      n := n + 1;
    }
  }

  method ReadBoundedLine(br: ByteReader, max: nat) returns (r: Bounded)
    requires br.Valid()
    modifies br
    ensures br.Valid()
    ensures (r, br.pos - old(br.pos)) == FirstLine(old(br.Rest()), br.fault, max)
  {
    hide LfAt;
    var b: Bytes := [];
    ghost var s := br.Rest();
    while true
      invariant br.Valid() && br.pos == old(br.pos) + |b| && |b| <= max
      invariant b <= s && forall i: nat :: i < |b| ==> s[i] != LF
      decreases |br.data| - br.pos
    {
      var c := br.ReadByte();
      if c == None {
        LfAtIs(s, |s|);
        assert b == s;
        if br.fault == Eof {
          return Bounded(b, AtEof);
        }
        return Bounded([], Broke);
      }
      assert c.value == s[|b|];
      if c.value == LF {
        LfAtIs(s, |b|);
        assert b == s[..|b|];
        if b != [] && Last(b) == CR {
          b := Init(b);
        }
        return Bounded(b, Complete);
      }
      if |b| >= max {
        ghost var rest := br.Rest();
        assert rest == s[|b| + 1..];
        LaterLf(s, |b| + 1);
        Drain(br);
        return Bounded([], TooLong);
      }
      b := b + [c.value];
    }
  }

  lemma LaterLf(s: Bytes, n: nat)
    requires n <= |s| && forall i: nat :: i < n ==> s[i] != LF
    ensures LfAt(s) == n + LfAt(s[n..])
  {
    hide LfAt;
    var rest := s[n..];
    var k := LfAt(rest);
    forall i: nat | i < n + k
      ensures s[i] != LF
    {
      if i >= n { assert s[i] == rest[i - n]; }
    }
    if k < |rest| { assert s[n + k] == rest[k]; }
    LfAtIs(s, n + k);
  }

  /** No line is under way at `pos`. */
  predicate LineStart(data: Bytes, pos: nat) {
    pos <= |data| && (pos == 0 || pos == |data| || data[pos - 1] == LF)
  }

  /** What a bounded read comes to for the caller. */
  function AsLine(number: nat, r: Bounded): LineResult {
    if r == Bounded([], AtEof) then Finished
    else
      match r.status
      case Complete => Got(number, TrimCR(r.text), false)
      case AtEof => Got(number, TrimCR(r.text), true)
      case TooLong => Overlong(number)
      case Broke => Failed
  }

  class InputReader {
    const br: ByteReader
    const max: nat
    var line: nat

    /** Whole lines have been taken, and `line` counts them. */
    ghost predicate Valid()
      reads this, br
    {
      && br.Valid()
      && LineStart(br.data, br.pos)
      && line == |SplitLF(br.data[..br.pos])|
    }

    constructor (br: ByteReader, max: nat)
      requires br.Valid() && br.pos == 0
      ensures Valid() && this.br == br && this.max == max && line == 0
    {
      this.br, this.max, line := br, max, 0;
    }

    /** The next line by number, unless the caller is cancelled while waiting for it. */
    method ReadLine(ctx: Cancellation) returns (r: LineResult)
      requires Valid()
      modifies this, br, ctx
      ensures r == Interrupted || r == LineAt(br.data, br.fault, max, old(line))
      ensures r.Got? || r.Overlong? || r.Finished? ==> Valid()
      ensures line == old(line) + (if r.Got? || r.Overlong? then 1 else 0)
      ensures r == Interrupted ==> exists i: nat :: ctx.parentDone(i)
    {
      var done := ctx.ParentErr();
      if done {
        return Interrupted;
      }
      hide LineAt, SplitLF, FirstLine, TrimCR, LineStart;
      TakeLine(br.data, br.fault, max, br.pos);
      var res := ReadBoundedLine(br, max);
      if res.status == AtEof && res.text == [] {
        return Finished;
      }
      if res.status == Broke {
        return Failed;
      }
      line := line + 1;
      if res.status == TooLong {
        return Overlong(line);
      }
      r := Got(line, TrimCR(res.text), res.status == AtEof);
    }
  }

  lemma TrimOnce(s: Bytes)
    ensures TrimCR(StripCR(s)) == TrimCR(s)
  {
  }

  /** One bounded read from a line start is the split's next line, and ends at a line start again. */
  lemma TakeLine(data: Bytes, fault: Fault, max: nat, pos: nat)
    requires LineStart(data, pos)
    ensures var k := |SplitLF(data[..pos])|;
            var (r, n) := FirstLine(data[pos..], fault, max);
            && pos + n <= |data|
            && LineAt(data, fault, max, k) == AsLine(k + 1, r)
            && (r.status != Broke ==>
                  && LineStart(data, pos + n)
                  && |SplitLF(data[..pos + n])| == k + (if r == Bounded([], AtEof) then 0 else 1))
  {
    hide SplitLF, FirstLine, Unfinished;
    var before, s := data[..pos], data[pos..];
    var (r, n) := FirstLine(s, fault, max);
    FirstTaken(s, fault, max);
    assert data == before + s;
    if s == [] {
      assert data[..pos] == data;
    } else {
      hide TrimCR;
      assert before != [] ==> Last(before) == LF;
      assert data[..pos + n] == before + s[..n];
      SplitAt(before, s);
      SplitAppend(before, s[..n]);
      assert n < |s| ==> data[pos + n - 1] == s[n - 1];
    }
  }

  /** From a line start, the first line of what is left is the next of all lines. */
  lemma SplitAt(before: Bytes, s: Bytes)
    requires (before == [] || Last(before) == LF) && s != []
    ensures var k := |SplitLF(before)|;
            && k < |SplitLF(before + s)| && SplitLF(before + s)[k] == SplitLF(s)[0]
            && Unfinished(before + s, k) == (Last(s) != LF && |SplitLF(s)| == 1)
  {
    hide SplitLF;
    SplitAppend(before, s);
    assert Last(before + s) == Last(s);
  }

  /** The first line of a text, against its split. */
  lemma FirstTaken(s: Bytes, fault: Fault, max: nat)
    ensures var (r, n) := FirstLine(s, fault, max);
            && n <= |s|
            && (s == [] ==> n == 0 && r == Bounded([], if fault == Eof then AtEof else Broke))
            && (s != [] ==>
                  var raw := SplitLF(s)[0];
                  var unfinished := Last(s) != LF && |SplitLF(s)| == 1;
                  && n > 0 && (n == |s| || s[n - 1] == LF)
                  && |SplitLF(s[..n])| == 1
                  && (r.status == TooLong <==> |raw| > max)
                  && (r.status == Broke <==> |raw| <= max && unfinished && fault != Eof)
                  && (r.status == AtEof <==> |raw| <= max && unfinished && fault == Eof)
                  && (r.status == AtEof ==> r.text != [])
                  && (r.status == Complete || r.status == AtEof ==> TrimCR(r.text) == TrimCR(raw)))
  {
    if s != [] {
      FirstOfSplit(s);
      TrimOnce(s[..LfAt(s)]);
    }
  }

  lemma FirstOfSplit(s: Bytes)
    requires s != []
    ensures var k := LfAt(s); var n := if k < |s| then k + 1 else k;
            && SplitLF(s)[0] == s[..k]
            && SplitLF(s[..n]) == [s[..k]]
            && (|SplitLF(s)| == 1 && Last(s) != LF <==> k == |s|)
  {
    hide SplitLF;
    if LfAt(s) < |s| {
      var line, rest := AtFirstLf(s);
      SplitLine(line, rest);
      SplitLine(line, []);
      assert s[..LfAt(s) + 1] == line + [LF] + [];
      assert SplitLF([]) == [];
    } else {
      SplitUnfinished(s);
      assert s[..|s|] == s;
    }
  }
}
