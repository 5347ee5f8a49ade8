/**
 The streaming secret filter (`secretFilter`) and its whole-text counterpart
 (`redactAssembled`).

 Everything is stated through one idea: a text is *cut* at the leftmost,
 non-overlapping copies of the secret into literal runs, and what is left at the
 end is held back when it may still grow into a copy.
 */
module Redaction {
  import opened ByteText

  /** "[redacted]" */
  const MARK: Bytes := [91, 114, 101, 100, 97, 99, 116, 101, 100, 93]
  const OPEN: byte := 91
  const CLOSE: byte := 93

  // ---------------------------------------------------------------- searching

  predicate At(s: Bytes, w: Bytes, i: nat) {
    i <= |s| && w <= s[i..]
  }

  ghost predicate Contains(s: Bytes, w: Bytes) {
    exists i: nat :: At(s, w, i)
  }

  predicate Comparable(a: Bytes, b: Bytes) {
    a <= b || b <= a
  }

  /** strings.Index, counting from `from`. */
  function IndexFrom(s: Bytes, w: Bytes, from: nat): (i: int)
    requires from <= |s|
    ensures i < 0 ==> forall q: nat :: from <= q ==> !At(s, w, q)
    ensures 0 <= i ==> from <= i && At(s, w, i) && forall q: nat :: from <= q < i ==> !At(s, w, q)
    decreases |s| - from
  {
    if At(s, w, from) then from
    else if from == |s| then -1
    else IndexFrom(s, w, from + 1)
  }

  function Index(s: Bytes, w: Bytes): (i: int)
    ensures i < 0 <==> !Contains(s, w)
    ensures 0 <= i ==> At(s, w, i) && forall q: nat :: q < i ==> !At(s, w, q)
  {
    IndexFrom(s, w, 0)
  }

  /** A copy in a sum lies in one part, or across the seam. */
  lemma CopyInSum(w: Bytes, a: Bytes, b: Bytes, i: nat)
    requires At(a + b, w, i)
    ensures i >= |a| ==> At(b, w, i - |a|)
    ensures i + |w| <= |a| ==> At(a, w, i)
    ensures i < |a| < i + |w| ==> b != [] && w[|a| - 1 - i] == Last(a) && w[|a| - i] == b[0]
  {
    var s := a + b;
    if i >= |a| {
      assert s[i..] == b[i - |a|..];
    } else if i + |w| <= |a| {
      assert w == s[i..][..|w|] == a[i..][..|w|];
    } else {
      assert w[|a| - 1 - i] == s[i..][|a| - 1 - i] == s[|a| - 1];
      assert w[|a| - i] == s[i..][|a| - i] == s[|a|];
    }
  }

  lemma CopyStarts(s: Bytes, w: Bytes, i: nat)
    ensures w != [] && At(s, w, i) ==> w[0] in s
  {
    if w != [] && At(s, w, i) { assert w[0] == s[i..][0] == s[i]; }
  }

  lemma NothingHides(w: Bytes)
    requires w != []
    ensures !Contains([], w)
  {
    forall i: nat ensures !At([], w, i) { CopyStarts([], w, i); }
  }

  lemma PrefixHides(w: Bytes, a: Bytes, b: Bytes)
    requires a <= b && !Contains(b, w)
    ensures !Contains(a, w)
  {
    forall i: nat | i <= |a|
      ensures At(a, w, i) ==> At(b, w, i)
    {
      assert a[i..] == b[i..][..|a| - i];
    }
  }

  /** A word without `stop` is in no sum of texts without it when the first ends in `stop`. */
  lemma BrokenUp(w: Bytes, a: Bytes, b: Bytes, stop: byte)
    requires w != [] && stop !in w && !Contains(a, w) && !Contains(b, w)
    requires a == [] || Last(a) == stop
    ensures !Contains(a + b, w)
  {
    forall i: nat ensures !At(a + b, w, i) {
      if At(a + b, w, i) { CopyInSum(w, a, b, i); }
    }
  }

  lemma EndedByBreak(w: Bytes, a: Bytes, stop: byte)
    requires w != [] && stop !in w && !Contains(a, w)
    ensures !Contains(a + [stop], w)
  {
    forall i: nat ensures !At([stop], w, i) { CopyStarts([stop], w, i); }
    forall i: nat ensures !At(a + [stop], w, i) {
      if At(a + [stop], w, i) { CopyInSum(w, a, [stop], i); }
    }
  }

  /** strings.ReplaceAll for a nonempty `w`. */
  function ReplaceAll(s: Bytes, w: Bytes, r: Bytes): Bytes
    requires w != []
    decreases |s|
  {
    var i := Index(s, w);
    if i < 0 then s else s[..i] + r + ReplaceAll(s[i + |w|..], w, r)
  }

  function Join(runs: seq<Bytes>, sep: Bytes): Bytes
    requires runs != []
  {
    if |runs| == 1 then runs[0] else Join(Init(runs), sep) + sep + Last(runs)
  }

  lemma {:induction false} JoinFront(runs: seq<Bytes>, sep: Bytes)
    requires |runs| >= 2
    ensures Join(runs, sep) == runs[0] + sep + Join(runs[1..], sep)
    decreases |runs|
  {
    if |runs| == 2 {
      assert Init(runs) == [runs[0]];
    } else {
      JoinFront(Init(runs), sep);
      assert Init(runs)[1..] == Init(runs[1..]);
    }
  }

  lemma JoinCons(run: Bytes, runs: seq<Bytes>, sep: Bytes)
    requires runs != []
    ensures Join([run] + runs, sep) == run + sep + Join(runs, sep)
  {
    JoinFront([run] + runs, sep);
    assert ([run] + runs)[1..] == runs;
  }

  // ------------------------------------------------------------------- cutting

  datatype Cut = Cut(runs: seq<Bytes>, tail: Bytes)

  /** Put before a copy of `w`, the run does not make an earlier copy. */
  ghost predicate Closed(w: Bytes, run: Bytes) {
    forall q: nat :: q < |run| ==> !(w <= run[q..] + w)
  }

  /** No copy of `w` starts inside the run, whatever follows `rest`. */
  ghost predicate Dead(w: Bytes, run: Bytes, rest: Bytes) {
    forall q: nat :: q < |run| ==> !Comparable(run[q..] + rest, w)
  }

  /** The text is the runs with copies of `w` between them, and then `rest`, still to be scanned. */
  ghost predicate Scanned(w: Bytes, text: Bytes, runs: seq<Bytes>, rest: Bytes) {
    && runs != []
    && text == Join(runs, w) + rest
    && (forall k: nat :: k < |runs| - 1 ==> Closed(w, runs[k]))
    && Dead(w, Last(runs), rest)
  }

  ghost predicate IsCut(w: Bytes, text: Bytes, c: Cut) {
    && Scanned(w, text, c.runs, c.tail)
    && |c.tail| < |w|
    && c.tail <= w
  }

  lemma DropRun(run: Bytes, x: Bytes, q: nat)
    requires q <= |run|
    ensures (run + x)[q..] == run[q..] + x
  {
  }

  lemma Regroup(a: Bytes, b: Bytes, c: Bytes)
    ensures a + b + c == a + (b + c)
  {
  }

  lemma AroundCopy(s: Bytes, w: Bytes, i: nat)
    requires At(s, w, i)
    ensures i + |w| <= |s| && s == s[..i] + w + s[i + |w|..]
  {
    assert s[i..] == w + s[i..][|w|..];
  }

  /** Prefix-incomparable words stay so when the left one grows. */
  lemma GrowIncomparable(a: Bytes, more: Bytes, w: Bytes)
    requires !Comparable(a, w)
    ensures !Comparable(a + more, w)
  {
    if |a| >= |w| {
      assert (a + more)[..|w|] == a[..|w|];
    } else {
      assert (a + more)[..|a|] == a;
    }
  }

  lemma ScannedMore(w: Bytes, text: Bytes, runs: seq<Bytes>, rest: Bytes, more: Bytes)
    requires Scanned(w, text, runs, rest)
    ensures Scanned(w, text + more, runs, rest + more)
  {
    var run := Last(runs);
    forall q: nat | q < |run|
      ensures !Comparable(run[q..] + (rest + more), w)
    {
      Regroup(run[q..], rest, more);
      GrowIncomparable(run[q..] + rest, more, w);
    }
    Regroup(Join(runs, w), rest, more);
  }

  lemma DeadIsClosed(w: Bytes, run: Bytes, rest: Bytes)
    requires Dead(w, run, rest) && Comparable(rest, w)
    ensures Closed(w, run)
  {
    forall q: nat | q < |run|
      ensures !(w <= run[q..] + w)
    {
      if w <= rest {
        assert !Comparable(run[q..] + rest, w);
        Regroup(run[q..], w, rest[|w|..]);
      } else {
        GrowIncomparable(run[q..] + rest, w[|rest|..], w);
        Regroup(run[q..], rest, w[|rest|..]);
      }
    }
  }

  lemma ScannedHit(w: Bytes, text: Bytes, runs: seq<Bytes>, rest: Bytes)
    requires Scanned(w, text, runs, rest) && w <= rest
    ensures Scanned(w, text, runs + [[]], rest[|w|..])
  {
    DeadIsClosed(w, Last(runs), rest);
    assert Init(runs + [[]]) == runs;
    Regroup(Join(runs, w), w, rest[|w|..]);
  }

  lemma DeadLiteral(w: Bytes, run: Bytes, rest: Bytes)
    requires Dead(w, run, rest) && rest != [] && !Comparable(rest, w)
    ensures Dead(w, run + [rest[0]], rest[1..])
  {
    forall q: nat | q < |run| + 1
      ensures !Comparable((run + [rest[0]])[q..] + rest[1..], w)
    {
      DropRun(run, [rest[0]], q);
      Regroup(run[q..], [rest[0]], rest[1..]);
      assert [rest[0]] + rest[1..] == rest;
      if q == |run| { assert run[q..] + rest == rest; }
    }
  }

  /** The last run with one more literal byte. */
  ghost function Grow(runs: seq<Bytes>, b: byte): (r: seq<Bytes>)
    requires runs != []
    ensures |r| == |runs| && Last(r) == Last(runs) + [b] && Init(r) == Init(runs)
  {
    Init(runs) + [Last(runs) + [b]]
  }

  lemma JoinGrow(runs: seq<Bytes>, b: byte, sep: Bytes)
    requires runs != []
    ensures Join(Grow(runs, b), sep) == Join(runs, sep) + [b]
  {
    if |runs| > 1 { Regroup(Join(Init(runs), sep) + sep, Last(runs), [b]); }
  }

  lemma ScannedLiteral(w: Bytes, text: Bytes, runs: seq<Bytes>, rest: Bytes)
    requires Scanned(w, text, runs, rest) && rest != [] && !Comparable(rest, w)
    ensures Scanned(w, text, Grow(runs, rest[0]), rest[1..])
  {
    var grown := Grow(runs, rest[0]);
    DeadLiteral(w, Last(runs), rest);
    forall k: nat | k < |grown| - 1
      ensures Closed(w, grown[k])
    {
      assert grown[k] == Init(grown)[k] == Init(runs)[k] == runs[k];
    }
    JoinGrow(runs, rest[0], w);
    Regroup(Join(runs, w), [rest[0]], rest[1..]);
    assert [rest[0]] + rest[1..] == rest;
  }

  /** Where the longest suffix of `text[from..]` that is a proper prefix of `w` starts. */
  function TailStart(w: Bytes, text: Bytes, from: nat): (p: nat)
    requires w != [] && from <= |text|
    ensures from <= p <= |text| && text[p..] <= w && |text[p..]| < |w|
    ensures forall q: nat :: from <= q < p ==> !(text[q..] <= w && |text[q..]| < |w|)
    decreases |text| - from
  {
    if text[from..] <= w && |text[from..]| < |w| then from else TailStart(w, text, from + 1)
  }

  /** The cut of a whole text, by searching for the next copy. */
  function CutOf(w: Bytes, text: Bytes): (c: Cut)
    requires w != []
    ensures c.runs != []
    decreases |text|
  {
    var i := Index(text, w);
    if i < 0 then
      var p := TailStart(w, text, 0);
      Cut([text[..p]], text[p..])
    else
      var c := CutOf(w, text[i + |w|..]);
      Cut([text[..i]] + c.runs, c.tail)
  }

  lemma ClosedRunIsFirst(w: Bytes, run: Bytes, rest: Bytes)
    requires w != [] && Closed(w, run)
    ensures Index(run + w + rest, w) == |run|
  {
    var text := run + w + rest;
    Regroup(run, w, rest);
    forall q: nat | q < |run|
      ensures !At(text, w, q)
    {
      DropRun(run, w + rest, q);
      Regroup(run[q..], w, rest);
      assert !(w <= run[q..] + w);
    }
    DropRun(run, w + rest, |run|);
    assert At(text, w, |run|);
  }

  lemma NoCopyIsClosed(w: Bytes, text: Bytes, i: nat)
    requires At(text, w, i)
    requires forall q: nat :: q < i ==> !At(text, w, q)
    ensures Closed(w, text[..i])
  {
    AroundCopy(text, w, i);
    var run, rest := text[..i], text[i + |w|..];
    Regroup(run, w, rest);
    forall q: nat | q < i
      ensures !(w <= run[q..] + w)
    {
      assert !At(text, w, q);
      DropRun(run, w + rest, q);
      Regroup(run[q..], w, rest);
    }
  }

  /** A cut with another run and copy before it. */
  lemma CutFront(w: Bytes, run: Bytes, rest: Bytes, c: Cut)
    requires Closed(w, run) && IsCut(w, rest, c)
    ensures IsCut(w, run + w + rest, Cut([run] + c.runs, c.tail))
  {
    var runs := [run] + c.runs;
    assert Last(runs) == Last(c.runs);
    JoinCons(run, c.runs, w);
    Regroup(run + w, Join(c.runs, w), c.tail);
    assert forall k: nat :: 0 < k < |runs| - 1 ==> runs[k] == c.runs[k - 1];
  }

  lemma CutRest(w: Bytes, text: Bytes, c: Cut)
    requires IsCut(w, text, c) && |c.runs| >= 2
    ensures IsCut(w, Join(c.runs[1..], w) + c.tail, Cut(c.runs[1..], c.tail))
    ensures text == c.runs[0] + w + (Join(c.runs[1..], w) + c.tail)
    ensures Closed(w, c.runs[0])
  {
    JoinFront(c.runs, w);
    Regroup(c.runs[0] + w, Join(c.runs[1..], w), c.tail);
    assert forall k: nat :: k < |c.runs[1..]| - 1 ==> c.runs[1..][k] == c.runs[k + 1];
  }

  lemma DeadTextHasNoCopy(w: Bytes, run: Bytes, tail: Bytes)
    requires Dead(w, run, tail) && |tail| < |w|
    ensures !Contains(run + tail, w)
    ensures tail <= w ==> TailStart(w, run + tail, 0) == |run|
  {
    var text := run + tail;
    forall q: nat | q < |run|
      ensures !Comparable(text[q..], w)
    {
      DropRun(run, tail, q);
    }
    assert text[|run|..] == tail;
  }

  lemma LastRunIsCut(w: Bytes, text: Bytes)
    requires w != [] && !Contains(text, w)
    ensures var p := TailStart(w, text, 0); IsCut(w, text, Cut([text[..p]], text[p..]))
  {
    var p := TailStart(w, text, 0);
    assert text[..p] + text[p..] == text;
    forall q: nat | q < p
      ensures !Comparable(text[..p][q..] + text[p..], w)
    {
      DropRun(text[..p], text[p..], q);
      assert !At(text, w, q);
    }
  }

  lemma CutOfFront(w: Bytes, run: Bytes, rest: Bytes)
    requires w != [] && Index(run + w + rest, w) == |run|
    ensures CutOf(w, run + w + rest) == Cut([run] + CutOf(w, rest).runs, CutOf(w, rest).tail)
  {
    var text := run + w + rest;
    assert text[..|run|] == run;
    assert text[|run| + |w|..] == rest;
  }

  lemma CutOfLast(w: Bytes, run: Bytes, tail: Bytes)
    requires w != [] && Dead(w, run, tail) && |tail| < |w| && tail <= w
    ensures CutOf(w, run + tail) == Cut([run], tail)
  {
    DeadTextHasNoCopy(w, run, tail);
    var text := run + tail;
    assert text[..|run|] == run && text[|run|..] == tail;
  }

  /** A text has exactly one cut, so the pieces it arrives in cannot matter. */
  lemma {:induction false} CutIsUnique(w: Bytes, text: Bytes, c: Cut)
    requires w != [] && IsCut(w, text, c)
    ensures c == CutOf(w, text)
    decreases |c.runs|
  {
    var run := c.runs[0];
    if |c.runs| == 1 {
      CutOfLast(w, run, c.tail);
      assert c.runs == [run];
    } else {
      var d := Cut(c.runs[1..], c.tail);
      var rest := Join(d.runs, w) + c.tail;
      CutRest(w, text, c);
      CutIsUnique(w, rest, d);
      ClosedRunIsFirst(w, run, rest);
      CutOfFront(w, run, rest);
      assert c.runs == [run] + d.runs;
    }
  }

  /** Searching copy by copy does give a cut: the runs rebuild the text and hide no copy. */
  lemma {:induction false} CutOfIsCut(w: Bytes, text: Bytes)
    requires w != []
    ensures IsCut(w, text, CutOf(w, text))
    decreases |text|
  {
    var i := Index(text, w);
    if i < 0 {
      LastRunIsCut(w, text);
    } else {
      AroundCopy(text, w, i);
      NoCopyIsClosed(w, text, i);
      var rest := text[i + |w|..];
      CutOfIsCut(w, rest);
      CutFront(w, text[..i], rest, CutOf(w, rest));
    }
  }

  // ---------------------------------------------------------- what is delivered

  /** A cut text as a reader sees it: every copy, and a held-back tail, become marks. */
  function Marked(c: Cut, mark: Bytes): Bytes
    requires c.runs != []
  {
    Join(c.runs, mark) + (if c.tail == [] then [] else mark)
  }

  function Redacted(w: Bytes, text: Bytes): Bytes
    requires w != []
  {
    Marked(CutOf(w, text), MARK)
  }

  predicate HasSuffix(s: Bytes, t: Bytes) {
    |t| <= |s| && s[|s| - |t|..] == t
  }

  /** redactAssembled: the second, whole-text implementation. */
  function RedactAssembled(w: Bytes, pending: Bytes, text: Bytes): Bytes
    requires w != []
  {
    var r := ReplaceAll(text, w, MARK);
    if pending != [] && HasSuffix(r, pending) then r[..|r| - |pending|] + MARK else r
  }

  /** Leftmost non-overlapping replacement is the runs joined by marks, then the held-back tail. */
  lemma {:induction false} OnlineIsBatch(w: Bytes, text: Bytes, mark: Bytes)
    requires w != []
    ensures ReplaceAll(text, w, mark) == Join(CutOf(w, text).runs, mark) + CutOf(w, text).tail
    decreases |text|
  {
    var i := Index(text, w);
    if i < 0 {
      var p := TailStart(w, text, 0);
      assert text == text[..p] + text[p..];
    } else {
      var run, rest := text[..i], text[i + |w|..];
      var c := CutOf(w, rest);
      OnlineIsBatch(w, rest, mark);
      calc {
        ReplaceAll(text, w, mark);
        run + mark + (Join(c.runs, mark) + c.tail);
        { Regroup(run + mark, Join(c.runs, mark), c.tail); }
        (run + mark + Join(c.runs, mark)) + c.tail;
        { JoinCons(run, c.runs, mark); }
        Join([run] + c.runs, mark) + c.tail;
      }
      assert CutOf(w, text) == Cut([run] + c.runs, c.tail);
    }
  }

  /** The two implementations agree; the `HasSuffix` test of the second always succeeds. */
  lemma BatchRedaction(w: Bytes, text: Bytes)
    requires w != []
    ensures HasSuffix(ReplaceAll(text, w, MARK), CutOf(w, text).tail)
    ensures RedactAssembled(w, CutOf(w, text).tail, text) == Redacted(w, text)
  {
    OnlineIsBatch(w, text, MARK);
    SuffixOfSum(Join(CutOf(w, text).runs, MARK), CutOf(w, text).tail);
  }

  lemma SuffixOfSum(a: Bytes, b: Bytes)
    ensures HasSuffix(a + b, b) && (a + b)[..|a + b| - |b|] == a
  {
  }

  /** The held-back tail is the longest suffix, since the last copy, that starts the secret. */
  lemma PendingIsLongestPrefix(w: Bytes, text: Bytes, c: Cut)
    requires IsCut(w, text, c)
    ensures var since := Last(c.runs) + c.tail;
            && HasSuffix(text, since)
            && |c.tail| < |w| && c.tail <= w
            && forall q: nat :: q < |since| - |c.tail| ==> !(since[q..] <= w)
  {
    var run := Last(c.runs);
    var since := run + c.tail;
    forall q: nat | q < |run|
      ensures !(since[q..] <= w)
    {
      DropRun(run, c.tail, q);
      assert !Comparable(run[q..] + c.tail, w);
    }
    if |c.runs| > 1 {
      var before := Join(Init(c.runs), w) + w;
      Regroup(before, run, c.tail);
      SuffixOfSum(before, since);
    }
  }

  // ------------------------------------------------------------------- lengths

  lemma {:induction false} JoinLengths(runs: seq<Bytes>, a: Bytes, b: Bytes)
    requires runs != []
    ensures |Join(runs, a)| - |Join(runs, b)| == (|runs| - 1) * (|a| - |b|)
    ensures |Join(runs, a)| >= (|runs| - 1) * |a|
    decreases |runs|
  {
    if |runs| > 1 {
      JoinLengths(Init(runs), a, b);
      Times(|runs| - 2, |a| - |b|);
      Times(|runs| - 2, |a|);
    }
  }

  lemma Times(k: int, n: int)
    ensures (k + 1) * n == k * n + n
  {
  }

  lemma CopiesTimes(k: nat, n: nat)
    requires n > 0
    ensures k * n >= k
    ensures k * (10 - n) == 10 * k - k * n
    ensures n >= 10 ==> k * (10 - n) <= 0
  {
  }

  /** Exact length conservation, and the two bounds it gives. */
  lemma LengthConserved(w: Bytes, text: Bytes, c: Cut)
    requires w != [] && IsCut(w, text, c)
    ensures var copies := |c.runs| - 1;
            |Marked(c, MARK)| == |text| + copies * (10 - |w|) + (if c.tail == [] then 0 else 10 - |c.tail|)
    ensures |Marked(c, MARK)| <= 10 * |text|
    ensures |w| >= 10 ==> |Marked(c, MARK)| <= |text| + 9
  {
    MarkedLength(w, text, c, MARK);
    JoinLengths(c.runs, w, w);
    CopiesTimes(|c.runs| - 1, |w|);
  }

  lemma MarkedLength(w: Bytes, text: Bytes, c: Cut, mark: Bytes)
    requires c.runs != [] && text == Join(c.runs, w) + c.tail
    ensures |Marked(c, mark)|
         == |text| + (|c.runs| - 1) * (|mark| - |w|) + (if c.tail == [] then 0 else |mark| - |c.tail|)
  {
    JoinLengths(c.runs, mark, w);
  }

  // -------------------------------------------------------------------- safety

  /** A check of two words alone: some part of the mark lines up with a part of the secret. */
  ghost predicate LinesUp(w: Bytes, mark: Bytes) {
    || (exists j: nat :: j < |mark| && Comparable(w, mark[j..]))
    || (exists i: nat :: 0 < i < |w| && Comparable(w[i..], mark) && Closed(w, w[..i]))
  }

  ghost predicate Leaks(w: Bytes) {
    LinesUp(w, MARK)
  }

  lemma PrefixMember(a: Bytes, b: Bytes, x: byte)
    ensures a <= b && x in a ==> x in b
  {
  }

  lemma PrefixWhole(a: Bytes, b: Bytes)
    ensures a <= b && |b| <= |a| ==> a == b
  {
  }

  lemma PrefixOfSum(w: Bytes, a: Bytes, b: Bytes)
    requires w <= a + b
    ensures Comparable(w, a)
  {
    if |w| <= |a| { assert w == (a + b)[..|w|] == a[..|w|]; }
  }

  lemma CopyInRun(w: Bytes, run: Bytes, rest: Bytes, mark: Bytes, at: nat)
    requires w != [] && Closed(w, run) && at < |run|
    requires w <= run[at..] + (mark + rest)
    ensures LinesUp(w, mark)
  {
    var x := run[at..];
    var i := |x|;
    assert !(w <= x + w);
    PrefixOfSum(w, x, mark + rest);
    assert w <= x ==> w <= x + w;
    if |w| <= i {
      assert false;
    } else {
      assert w[..i] == x;
      assert w[i..] <= mark + rest;
      PrefixOfSum(w[i..], mark, rest);
      forall q: nat | q < i
        ensures !(w <= x[q..] + w)
      {
        assert x[q..] == run[at + q..];
      }
    }
  }

  /** A copy of the secret among runs and marks must use a mark. */
  lemma {:induction false} CopyUsesMark(w: Bytes, runs: seq<Bytes>, mark: Bytes, at: nat)
    requires w != [] && runs != []
    requires forall k: nat :: k < |runs| - 1 ==> Closed(w, runs[k])
    requires At(Join(runs, mark), w, at)
    requires !Contains(Last(runs), w)
    ensures LinesUp(w, mark)
    decreases |runs|
  {
    if |runs| == 1 {
      assert Contains(Last(runs), w);
    } else {
      JoinFront(runs, mark);
      var run, rest := runs[0], Join(runs[1..], mark);
      Regroup(run, mark, rest);
      if at < |run| {
        DropRun(run, mark + rest, at);
        CopyInRun(w, run, rest, mark, at);
      } else if at < |run| + |mark| {
        var j := at - |run|;
        assert (run + (mark + rest))[at..] == (mark + rest)[j..];
        DropRun(mark, rest, j);
        PrefixOfSum(w, mark[j..], rest);
      } else {
        var j := at - |run| - |mark|;
        assert (run + mark + rest)[at..] == rest[j..];
        assert forall k: nat :: k < |runs[1..]| - 1 ==> runs[1..][k] == runs[k + 1];
        CopyUsesMark(w, runs[1..], mark, j);
      }
    }
  }

  lemma ClosedHidesCopy(w: Bytes, run: Bytes)
    requires w != [] && Closed(w, run)
    ensures !Contains(run, w)
  {
    forall q: nat
      ensures !At(run, w, q)
    {
      if q < |run| { assert !(w <= run[q..] + w); }
    }
  }

  /** What is shown is literal runs joined by marks, also when a tail was held back; no run holds a copy. */
  lemma ShownRuns(w: Bytes, text: Bytes, c: Cut, mark: Bytes) returns (runs: seq<Bytes>)
    requires w != [] && IsCut(w, text, c)
    ensures runs != [] && Marked(c, mark) == Join(runs, mark)
    ensures forall k: nat :: k < |runs| - 1 ==> Closed(w, runs[k])
    ensures forall k: nat :: k < |runs| ==> !Contains(runs[k], w)
  {
    var run := Last(c.runs);
    if c.tail == [] {
      runs := c.runs;
      DeadTextHasNoCopy(w, run, []);
      assert run + [] == run;
      assert Join(runs, mark) + [] == Join(runs, mark);
    } else {
      runs := c.runs + [[]];
      assert Init(runs) == c.runs;
      DeadIsClosed(w, run, c.tail);
      assert forall k: nat :: k < |runs| - 1 ==> runs[k] == c.runs[k];
      assert Join(c.runs, mark) + mark + [] == Join(c.runs, mark) + mark;
    }
    forall k: nat | k < |runs|
      ensures !Contains(runs[k], w)
    {
      if k < |runs| - 1 { ClosedHidesCopy(w, runs[k]); }
    }
  }

  lemma NoMarkNoCopy(w: Bytes, text: Bytes)
    requires w != [] && !Leaks(w)
    ensures !Contains(Redacted(w, text), w)
  {
    CutOfIsCut(w, text);
    var runs := ShownRuns(w, text, CutOf(w, text), MARK);
    forall at: nat
      ensures !At(Join(runs, MARK), w, at)
    {
      if At(Join(runs, MARK), w, at) { CopyUsesMark(w, runs, MARK, at); }
    }
  }

  lemma EndIsCut(w: Bytes, s: Bytes, stop: byte)
    requires stop !in w && |s| < |w|
    ensures IsCut(w, s + [stop], Cut([s + [stop]], []))
  {
    var end := s + [stop];
    forall q: nat | q < |end|
      ensures !Comparable(end[q..] + [], w)
    {
      var e := end[q..];
      assert Last(e) == stop && e + [] == e;
      PrefixMember(e, w, stop);
      PrefixWhole(w, e);
    }
    assert end + [] == end;
  }

  /** One copy between a run and a short ending that holds nothing back. */
  lemma OneCopy(w: Bytes, x: Bytes, s: Bytes, stop: byte, mark: Bytes)
    requires w != [] && stop !in w && |s| < |w| && Closed(w, x)
    ensures Marked(CutOf(w, x + w + (s + [stop])), mark) == x + mark + (s + [stop])
  {
    hide IsCut, CutOf, Closed, Join;
    var end := s + [stop];
    EndIsCut(w, s, stop);
    CutFront(w, x, end, Cut([end], []));
    CutIsUnique(w, x + w + end, Cut([x] + [end], []));
    JoinCons(x, [end], mark);
    JoinOne(end, mark);
    assert x + mark + end + [] == x + mark + end;
  }

  lemma JoinOne(run: Bytes, sep: Bytes)
    ensures Join([run], sep) == run
  {
  }

  lemma PrefixAndEnd(w: Bytes, m: Bytes, s: Bytes, stop: byte)
    requires w <= m || (m <= w && s == w[|m|..])
    ensures w <= m + (s + [stop])
  {
    if !(w <= m) {
      assert w == m + s;
      Regroup(m, s, [stop]);
    }
  }

  lemma CopyFromMark(w: Bytes, stop: byte, mark: Bytes, j: nat) returns (text: Bytes)
    requires w != [] && stop !in w && j < |mark| && Comparable(w, mark[j..])
    ensures Contains(Marked(CutOf(w, text), mark), w)
  {
    var s := if w <= mark[j..] then [] else w[|mark| - j..];
    OneCopy(w, [], s, stop, mark);
    text := [] + w + (s + [stop]);
    PrefixAndEnd(w, mark[j..], s, stop);
    assert [] + mark == mark;
    DropRun(mark, s + [stop], j);
    assert At([] + mark + (s + [stop]), w, j);
  }

  lemma CopyIntoMark(w: Bytes, stop: byte, mark: Bytes, i: nat) returns (text: Bytes)
    requires stop !in w && 0 < i < |w| && Comparable(w[i..], mark) && Closed(w, w[..i])
    ensures Contains(Marked(CutOf(w, text), mark), w)
  {
    hide Marked, CutOf, Closed;
    var x, y := w[..i], w[i..];
    var s := if y <= mark then [] else y[|mark|..];
    OneCopy(w, x, s, stop, mark);
    text := x + w + (s + [stop]);
    var out := x + mark + (s + [stop]);
    Regroup(x, mark, s + [stop]);
    PrefixAndEnd(y, mark, s, stop);
    assert w == x + y;
    PrefixAfter(x, y, mark + (s + [stop]));
    assert out[0..] == out;
    assert At(out, w, 0);
  }

  lemma PrefixAfter(x: Bytes, a: Bytes, b: Bytes)
    requires a <= b
    ensures x + a <= x + b
  {
    Regroup(x, a, b[|a|..]);
  }

  /** `validateBearerToken`: nonempty, bounded, and printable ASCII without the space. */
  predicate ValidToken(token: Bytes) {
    0 < |token| <= 8192 && forall i: nat :: i < |token| ==> 0x21 <= token[i] <= 0x7E
  }

  /**
   The promise that a token is never shown is true of exactly the tokens that do
   not line up with the mark; validated tokens never hold the byte zero.
   */
  lemma ValidTokensNeverShown(w: Bytes)
    requires ValidToken(w)
    ensures (forall text: Bytes :: !Contains(Redacted(w, text), w)) <==> !Leaks(w)
    ensures LF !in w
  {
    NeverShownExactly(w);
  }

  lemma NeverShownExactly(w: Bytes)
    requires w != [] && 0 !in w
    ensures (forall text: Bytes :: !Contains(Redacted(w, text), w)) <==> !Leaks(w)
  {
    if Leaks(w) {
      if j: nat :| j < |MARK| && Comparable(w, MARK[j..]) {
        var text := CopyFromMark(w, 0, MARK, j);
        assert Contains(Redacted(w, text), w);
      } else {
        var i: nat :| 0 < i < |w| && Comparable(w[i..], MARK) && Closed(w, w[..i]);
        var text := CopyIntoMark(w, 0, MARK, i);
        assert Contains(Redacted(w, text), w);
      }
    } else {
      forall text: Bytes
        ensures !Contains(Redacted(w, text), w)
      {
        NoMarkNoCopy(w, text);
      }
    }
  }

  lemma LinesUpInside(w: Bytes, word: Bytes)
    requires w != [] && OPEN !in w && CLOSE !in w
    ensures LinesUp(w, [OPEN] + word + [CLOSE]) <==> Contains(word, w)
  {
    var mark := [OPEN] + word + [CLOSE];
    if i: nat :| At(word, w, i) {
      assert mark[i + 1..] == word[i..] + [CLOSE];
      assert Comparable(w, mark[i + 1..]);
    }
    if j: nat :| j < |mark| && Comparable(w, mark[j..]) {
      assert Last(mark[j..]) == CLOSE;
      PrefixMember(mark[j..], w, CLOSE);
      assert w <= mark[j..];
      assert w[0] == mark[j..][0] == mark[j];
      assert j > 0;
      assert mark[j..] == word[j - 1..] + [CLOSE];
      assert w != mark[j..];
      assert At(word, w, j - 1);
    }
    forall i: nat | 0 < i < |w|
      ensures !Comparable(w[i..], mark)
    {
      assert w[i..][0] == w[i];
    }
  }

  /** For a secret without square brackets: it leaks just when it is part of the word "redacted". */
  lemma LeaksWithoutBrackets(w: Bytes)
    requires w != [] && OPEN !in w && CLOSE !in w
    ensures Leaks(w) <==> Contains(Ascii("redacted"), w)
  {
    assert MARK[1..9] == Ascii("redacted");
    assert MARK == [OPEN] + MARK[1..9] + [CLOSE];
    LinesUpInside(w, MARK[1..9]);
  }

  lemma FirstCopyCut(w: Bytes, run: Bytes, rest: Bytes)
    requires w != [] && forall q: nat :: q < |run| ==> !At(run + w + rest, w, q)
    ensures CutOf(w, run + w + rest) == Cut([run] + CutOf(w, rest).runs, CutOf(w, rest).tail)
  {
    hide IsCut, Closed, CutOf, At;
    var c, text := CutOf(w, rest), run + w + rest;
    CopyAfter(run, w, rest);
    NoCopyIsClosed(w, text, |run|);
    CutOfIsCut(w, rest);
    CutFront(w, run, rest, c);
    CutIsUnique(w, text, Cut([run] + c.runs, c.tail));
  }

  lemma CopyAfter(run: Bytes, w: Bytes, rest: Bytes)
    ensures At(run + w + rest, w, |run|) && (run + w + rest)[..|run|] == run
  {
    Regroup(run, w, rest);
    DropRun(run, w + rest, |run|);
  }

  lemma MarkedCons(run: Bytes, c: Cut, mark: Bytes)
    requires c.runs != []
    ensures Marked(Cut([run] + c.runs, c.tail), mark) == run + mark + Marked(c, mark)
  {
    hide Join;
    JoinCons(run, c.runs, mark);
    Regroup(run + mark, Join(c.runs, mark), if c.tail == [] then [] else mark);
  }

  /** What comes before the first copy of the secret is shown as it is, and the copy as the mark. */
  lemma FirstCopyShown(w: Bytes, run: Bytes, rest: Bytes)
    requires w != [] && forall q: nat :: q < |run| ==> !At(run + w + rest, w, q)
    ensures Redacted(w, run + w + rest) == run + Ascii("[redacted]") + Redacted(w, rest)
  {
    hide CutOf, Marked, At;
    FirstCopyCut(w, run, rest);
    MarkedCons(run, CutOf(w, rest), MARK);
    assert MARK == Ascii("[redacted]");
  }

  /**
   Where no copy starts and none may still be growing, the text is shown; a start of
   the secret at its end is marked.
   */
  lemma TailShown(w: Bytes, run: Bytes, p: Bytes)
    requires |p| < |w| && p <= w && Dead(w, run, p)
    ensures Redacted(w, run + p) == run + (if p == [] then [] else Ascii("[redacted]"))
  {
    CutIsUnique(w, run + p, Cut([run], p));
    assert MARK == Ascii("[redacted]");
  }

  /** A token the configuration accepts and the filter nevertheless shows: "a[" in "aa[". */
  lemma BracketTokenIsShown()
    ensures ValidToken(Ascii("a["))
    ensures Redacted(Ascii("a["), Ascii("aa[")) == Ascii("a[redacted]")
    ensures Contains(Redacted(Ascii("a["), Ascii("aa[")), Ascii("a["))
  {
    hide Redacted, Contains;
    assert Ascii("a[") == [97, 91] && Ascii("aa[") == [97, 97, 91];
    assert Ascii("a[redacted]") == [97] + MARK;
    BracketShown();
  }

  lemma BracketShown()
    ensures Redacted([97, 91], [97, 97, 91]) == [97] + MARK
    ensures Contains([97] + MARK, [97, 91])
  {
    var w: Bytes := [97, 91];
    assert [97, 97, 91] == [97] + w + [];
    forall q: nat | q < 1
      ensures !(w <= [97][q..] + w)
    {
      assert ([97][q..] + w)[1] == 97;
    }
    assert IsCut(w, [], Cut([[]], []));
    CutFront(w, [97], [], Cut([[]], []));
    assert [[97]] + [[]] == [[97], []];
    CutIsUnique(w, [97, 97, 91], Cut([[97], []], []));
    assert Init([[97], []]) == [[97]];
    assert At([97] + MARK, w, 0);
  }

  // ---------------------------------------------------------------- the filter

  /**
   `pending` is the program's state. The ghost fields remember the stream since
   the filter started: all text pushed, all text given back, and the runs so far.
   */
  class SecretFilter {
    const secret: Bytes
    var pending: Bytes
    ghost var input: Bytes
    ghost var output: Bytes
    ghost var runs: seq<Bytes>

    ghost predicate Valid()
      reads this
    {
      && secret != []
      && IsCut(secret, input, Cut(runs, pending))
      && output == Join(runs, MARK)
    }

    constructor (secret: Bytes)
      requires secret != []
      ensures Valid() && this.secret == secret && input == [] && output == [] && pending == []
    {
      this.secret := secret;
      pending, input, output, runs := [], [], [], [[]];
    }

    /** However the text is cut into pushes, the state depends on the whole text only. */
    lemma StateOfWholeText()
      requires Valid()
      ensures Cut(runs, pending) == CutOf(secret, input)
      ensures output + pending == ReplaceAll(input, secret, MARK)
      ensures output + (if pending == [] then [] else MARK) == Redacted(secret, input)
    {
      CutIsUnique(secret, input, Cut(runs, pending));
      OnlineIsBatch(secret, input, MARK);
    }

    method Push(s: Bytes) returns (out: Bytes)
      requires Valid()
      modifies this
      ensures Valid()
      ensures input == old(input) + s && output == old(output) + out
    {
      hide Join;
      var buf := pending + s;
      ghost var text, rs := input + s, runs;
      ScannedMore(secret, input, runs, pending, s);
      out := [];
      var n := |secret|;
      var i := 0;
      while i < |buf|
        invariant i <= |buf|
        invariant Scanned(secret, text, rs, buf[i..])
        invariant output == old(output) && output + out == Join(rs, MARK)
      {
        if i + n <= |buf| && buf[i..i + n] == secret {
          rs := Hit(text, rs, buf, i, output + out);
          out := out + MARK;
          i := i + n;
          continue;
        }
        var remain := buf[i..];
        if |remain| < n && remain <= secret {
          pending := remain;
          break;
        }
        rs := Literal(text, rs, buf, i, output + out);
        out := out + [buf[i]];
        i := i + 1;
      }
      if i == |buf| {
        pending := [];
      }
      input, output, runs := text, output + out, rs;
    }

    lemma Hit(text: Bytes, rs: seq<Bytes>, buf: Bytes, i: nat, done: Bytes) returns (rs': seq<Bytes>)
      requires i + |secret| <= |buf| && buf[i..i + |secret|] == secret
      requires Scanned(secret, text, rs, buf[i..]) && done == Join(rs, MARK)
      ensures Scanned(secret, text, rs', buf[i + |secret|..]) && done + MARK == Join(rs', MARK)
    {
      rs' := rs + [[]];
      assert secret <= buf[i..];
      ScannedHit(secret, text, rs, buf[i..]);
      assert buf[i..][|secret|..] == buf[i + |secret|..];
      assert Init(rs') == rs;
    }

    lemma Literal(text: Bytes, rs: seq<Bytes>, buf: Bytes, i: nat, done: Bytes) returns (rs': seq<Bytes>)
      requires i < |buf| && !(i + |secret| <= |buf| && buf[i..i + |secret|] == secret)
      requires !(|buf[i..]| < |secret| && buf[i..] <= secret)
      requires Scanned(secret, text, rs, buf[i..]) && done == Join(rs, MARK)
      ensures Scanned(secret, text, rs', buf[i + 1..]) && done + [buf[i]] == Join(rs', MARK)
    {
      var remain := buf[i..];
      assert |secret| <= |remain| ==> remain[..|secret|] == buf[i..i + |secret|];
      ScannedLiteral(secret, text, rs, remain);
      JoinGrow(rs, buf[i], MARK);
      assert remain[1..] == buf[i + 1..];
      rs' := Grow(rs, buf[i]);
    }

    /** Gives out a mark for what was held back; the filter then starts afresh. */
    method Flush() returns (out: Bytes)
      requires Valid()
      modifies this
      ensures old(output) + out == Redacted(secret, old(input))
      ensures Valid() && input == [] && output == [] && pending == []
    {
      StateOfWholeText();
      out := if pending == [] then [] else MARK;
      pending, input, output, runs := [], [], [], [[]];
    }

    /** The `HasSuffix` test always holds when something is pending. */
    method RedactAssembledText(text: Bytes) returns (r: Bytes)
      requires Valid() && text == input
      ensures r == Redacted(secret, text)
      ensures r == output + (if pending == [] then [] else MARK)
    {
      StateOfWholeText();
      BatchRedaction(secret, text);
      r := RedactAssembled(secret, pending, text);
    }
  }

  /** However a text is cut into pieces, the filter gives out what replacing in the whole text gives. */
  method FilterPieces(secret: Bytes, pieces: seq<Bytes>) returns (outs: seq<Bytes>, pending: Bytes)
    requires secret != []
    ensures |outs| == |pieces|
    ensures Concat(outs) + pending == ReplaceAll(Concat(pieces), secret, MARK)
    ensures pending == CutOf(secret, Concat(pieces)).tail
  {
    hide IsCut, ReplaceAll, CutOf;
    var filter := new SecretFilter(secret);
    outs := [];
    for k := 0 to |pieces|
      invariant fresh(filter) && filter.secret == secret && filter.Valid()
      invariant |outs| == k && filter.input == Concat(pieces[..k]) && filter.output == Concat(outs)
    {
      var out := filter.Push(pieces[k]);
      assert Init(pieces[..k + 1]) == pieces[..k];
      assert Init(outs + [out]) == outs;
      outs := outs + [out];
    }
    assert pieces[..|pieces|] == pieces;
    filter.StateOfWholeText();
    pending := filter.pending;
  }
}
