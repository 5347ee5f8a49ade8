/**
 The law of `strings.TrimSpace`: a text is white space, its trimmed part and white
 space, and there is one way only to see it so.
 */
module Trimming {
  import opened ByteText

  // ------------------------------------------------------------- white space

  /** The code points with the Unicode property White_Space. */
  predicate WhiteSpacePoint(c: int) {
    || 9 <= c <= 13 || c == 0x20 || c == 0x85 || c == 0xA0 || c == 0x1680
    || 0x2000 <= c <= 0x200A || c == 0x2028 || c == 0x2029 || c == 0x202F
    || c == 0x205F || c == 0x3000
  }

  /** The UTF-8 encoding of a code point of the Basic Multilingual Plane. */
  function Utf8(c: int): Bytes
    requires 0 <= c < 0x1_0000
  {
    if c < 0x80 then [c as byte]
    else if c < 0x800 then [(0xC0 + c / 0x40) as byte, (0x80 + c % 0x40) as byte]
    else [(0xE0 + c / 0x1000) as byte, (0x80 + c / 0x40 % 0x40) as byte, (0x80 + c % 0x40) as byte]
  }

  /** The spaces that trimming looks for are the encodings of those code points. */
  lemma SpacesAreEncoded(u: Bytes)
    ensures IsSpace(u) <==> exists c: int :: 0 <= c < 0x1_0000 && WhiteSpacePoint(c) && u == Utf8(c)
  {
    hide IsSpace, WhiteSpacePoint, Utf8;
    if IsSpace(u) { var c := PointOf(u); }
    forall c: int | 0 <= c < 0x1_0000 && WhiteSpacePoint(c)
      ensures IsSpace(Utf8(c))
    {
      EncodedIsSpace(c);
    }
  }

  lemma EncodedIsSpace(c: int)
    requires 0 <= c < 0x1_0000 && WhiteSpacePoint(c)
    ensures IsSpace(Utf8(c))
  {
  }

  lemma PointOf(u: Bytes) returns (c: int)
    requires IsSpace(u)
    ensures 0 <= c < 0x1_0000 && WhiteSpacePoint(c) && u == Utf8(c)
  {
    if |u| == 1 {
      c := u[0] as int;
    } else if |u| == 2 {
      c := u[1] as int;
    } else {
      c := (u[0] as int - 0xE0) * 0x1000 + (u[1] as int - 0x80) * 0x40 + (u[2] as int - 0x80);
    }
  }

  /** One space after the other. */
  ghost predicate Spaces(s: Bytes) {
    exists parts: seq<Bytes> :: AllSpaces(parts) && s == Concat(parts)
  }

  ghost predicate AllSpaces(parts: seq<Bytes>) {
    forall i: nat :: i < |parts| ==> IsSpace(parts[i])
  }

  predicate EndsWith(s: Bytes, u: Bytes) {
    |u| <= |s| && s[|s| - |u|..] == u
  }

  /** Neither starts nor ends in white space. */
  ghost predicate Tight(t: Bytes) {
    forall u: Bytes :: IsSpace(u) ==> !(u <= t) && !EndsWith(t, u)
  }

  /** The first byte of an encoded space never continues one. */
  lemma SpaceBytes(u: Bytes)
    requires IsSpace(u)
    ensures 1 <= |u| <= 3 && (u[0] <= 32 || u[0] >= 0xC2)
    ensures Last(u) <= 32 || 0x80 <= Last(u) < 0xC0
    ensures forall i: nat :: 0 < i < |u| ==> 0x80 <= u[i] < 0xC0
  {
  }

  lemma SameEnd(t: Bytes, u: Bytes)
    ensures EndsWith(t, u) && u != [] ==> t != [] && Last(u) == Last(t)
  {
  }

  lemma PrefixOfSum(u: Bytes, t: Bytes, b: Bytes)
    ensures u <= t + b && |u| <= |t| ==> u <= t
    ensures u <= t + b && |u| > |t| ==> b != [] && u[|t|] == b[0]
  {
    assert u <= t + b && |u| <= |t| ==> (t + b)[..|u|] == t[..|u|];
  }

  /** A word of printable ASCII has nothing to trim. */
  lemma PrintableIsTight(t: Bytes)
    requires t != [] ==> 32 < t[0] < 127 && 32 < Last(t) < 127
    ensures Tight(t)
  {
    forall u: Bytes | IsSpace(u)
      ensures !(u <= t) && !EndsWith(t, u)
    {
      SpaceBytes(u);
      SameEnd(t, u);
    }
  }

  // ---------------------------------------------------------- one at a time

  lemma HeadIs(u: Bytes, s: Bytes)
    requires IsSpace(u)
    ensures HeadSpace(u + s) == |u| && (u + s)[|u|..] == s
  {
    var x := u + s;
    SpaceBytes(u);
    assert x[..|u|] == u;
    assert x[0] == u[0];
    if |u| == 3 { assert x[..2] == u[..2]; }
  }

  lemma TailIs(s: Bytes, u: Bytes)
    requires IsSpace(u)
    ensures TailSpace(s + u) == |u| && (s + u)[..|s|] == s
  {
    var x := s + u;
    SpaceBytes(u);
    assert x[|x| - |u|..] == u;
    assert x[|x| - 1] == Last(u);
    if |u| == 3 { assert x[|x| - 2..] == u[1..]; }
  }

  lemma HeadNone(s: Bytes)
    requires forall u: Bytes :: IsSpace(u) ==> !(u <= s)
    ensures HeadSpace(s) == 0
  {
  }

  lemma TailNone(s: Bytes)
    requires forall u: Bytes :: IsSpace(u) ==> !EndsWith(s, u)
    ensures TailSpace(s) == 0
  {
    var n := TailSpace(s);
    if n > 0 { assert EndsWith(s, s[|s| - n..]); }
  }

  lemma ConcatFront(parts: seq<Bytes>)
    requires parts != []
    ensures Concat(parts) == parts[0] + Concat(parts[1..])
  {
    ConcatAppend([parts[0]], parts[1..]);
    assert [parts[0]] + parts[1..] == parts && Init([parts[0]]) == [];
    assert Concat([parts[0]]) == [] + parts[0];
  }

  // --------------------------------------------------------- what is removed

  lemma HeadOf(s: Bytes, u: Bytes)
    requires IsSpace(u) && u <= s
    ensures HeadSpace(s) == |u| > 0
  {
    SpaceBytes(u);
    assert s == u + s[|u|..];
    HeadIs(u, s[|u|..]);
  }

  lemma TailOf(s: Bytes, u: Bytes)
    requires IsSpace(u) && EndsWith(s, u)
    ensures TailSpace(s) == |u| > 0
  {
    SpaceBytes(u);
    assert s == s[..|s| - |u|] + u;
    TailIs(s[..|s| - |u|], u);
  }

  lemma HeadNoneLeft(s: Bytes)
    requires HeadSpace(s) == 0
    ensures forall u: Bytes :: IsSpace(u) ==> !(u <= s)
  {
    hide IsSpace, HeadSpace;
    forall u: Bytes | IsSpace(u)
      ensures !(u <= s)
    {
      if u <= s { HeadOf(s, u); }
    }
  }

  lemma TailNoneLeft(s: Bytes)
    requires TailSpace(s) == 0
    ensures forall u: Bytes :: IsSpace(u) ==> !EndsWith(s, u)
  {
    hide IsSpace, TailSpace, EndsWith;
    forall u: Bytes | IsSpace(u)
      ensures !EndsWith(s, u)
    {
      if EndsWith(s, u) { TailOf(s, u); }
    }
  }

  lemma HeadFirst(s: Bytes)
    ensures var n := HeadSpace(s);
            if n == 0 then TrimLeft(s) == s
            else IsSpace(s[..n]) && TrimLeft(s) == TrimLeft(s[n..]) && s == s[..n] + s[n..]
  {
    hide IsSpace;
  }

  lemma TailLast(s: Bytes)
    ensures var m := |s| - TailSpace(s);
            if TailSpace(s) == 0 then TrimRight(s) == s
            else IsSpace(s[m..]) && TrimRight(s) == TrimRight(s[..m]) && s == s[..m] + s[m..]
  {
    hide IsSpace, TailSpace, TrimRight;
    TailIsSpace(s);
    TrimRightStep(s);
    TwoParts(s, |s| - TailSpace(s));
  }

  lemma TwoParts(s: Bytes, m: nat)
    requires m <= |s|
    ensures s == s[..m] + s[m..]
  {
  }

  lemma TailIsSpace(s: Bytes)
    ensures TailSpace(s) > 0 ==> IsSpace(s[|s| - TailSpace(s)..])
  {
    hide IsSpace;
  }

  lemma TrimRightStep(s: Bytes)
    ensures TrimRight(s) == if TailSpace(s) == 0 then s else TrimRight(s[..|s| - TailSpace(s)])
  {
    hide TailSpace;
  }

  lemma {:induction false} LeftRemoved(s: Bytes) returns (parts: seq<Bytes>)
    ensures AllSpaces(parts) && s == Concat(parts) + TrimLeft(s)
    ensures forall u: Bytes :: IsSpace(u) ==> !(u <= TrimLeft(s))
    decreases |s|
  {
    hide IsSpace, HeadSpace, TrimLeft;
    var n := HeadSpace(s);
    HeadFirst(s);
    if n == 0 {
      parts := [];
      HeadNoneLeft(s);
      assert [] + s == s;
    } else {
      var u, rest := s[..n], s[n..];
      var more := LeftRemoved(rest);
      parts := [u] + more;
      ConcatFront(parts);
      assert parts[1..] == more;
      assert u + (Concat(more) + TrimLeft(rest)) == u + Concat(more) + TrimLeft(rest);
    }
  }

  lemma {:induction false} RightRemoved(s: Bytes) returns (parts: seq<Bytes>)
    ensures AllSpaces(parts) && s == TrimRight(s) + Concat(parts)
    ensures forall u: Bytes :: IsSpace(u) ==> !EndsWith(TrimRight(s), u)
    decreases |s|
  {
    hide IsSpace, TailSpace, TrimRight, EndsWith;
    var n := TailSpace(s);
    TailLast(s);
    if n == 0 {
      parts := [];
      TailNoneLeft(s);
      assert s + [] == s;
    } else {
      var front, u := s[..|s| - n], s[|s| - n..];
      var more := RightRemoved(front);
      parts := more + [u];
      assert Init(parts) == more;
      assert (TrimRight(front) + Concat(more)) + u == TrimRight(front) + (Concat(more) + u);
    }
  }

  lemma {:induction false} LeftAway(parts: seq<Bytes>, s: Bytes)
    requires AllSpaces(parts)
    ensures TrimLeft(Concat(parts) + s) == TrimLeft(s)
  {
    if parts == [] {
      assert [] + s == s;
    } else {
      var u, more := parts[0], Concat(parts[1..]);
      ConcatFront(parts);
      assert u + more + s == u + (more + s);
      SpaceBytes(u);
      HeadIs(u, more + s);
      hide HeadSpace, TrimLeft, IsSpace;
      HeadFirst(u + (more + s));
      LeftAway(parts[1..], s);
    }
  }

  lemma TailAway(s: Bytes, u: Bytes)
    requires IsSpace(u)
    ensures TrimRight(s + u) == TrimRight(s)
  {
    SpaceBytes(u);
    TailIs(s, u);
    hide TailSpace, TrimRight, IsSpace;
    TrimRightStep(s + u);
  }

  lemma {:induction false} RightAway(s: Bytes, parts: seq<Bytes>)
    requires AllSpaces(parts)
    ensures TrimRight(s + Concat(parts)) == TrimRight(s)
  {
    hide TrimRight, IsSpace;
    if parts == [] {
      assert s + [] == s;
    } else {
      var u, more := Last(parts), Concat(Init(parts));
      assert s + (more + u) == (s + more) + u;
      TailAway(s + more, u);
      RightAway(s, Init(parts));
    }
  }

  /** White space after a nonempty text starts no space that the text does not start. */
  lemma NoNewHead(t: Bytes, parts: seq<Bytes>)
    requires t != [] && AllSpaces(parts) && forall u: Bytes :: IsSpace(u) ==> !(u <= t)
    ensures forall u: Bytes :: IsSpace(u) ==> !(u <= t + Concat(parts))
  {
    var b := Concat(parts);
    if b != [] {
      assert parts != [];
      ConcatFront(parts);
      SpaceBytes(parts[0]);
      assert b[0] == parts[0][0];
    }
    forall u: Bytes | IsSpace(u)
      ensures !(u <= t + b)
    {
      SpaceBytes(u);
      PrefixOfSum(u, t, b);
    }
  }

  // --------------------------------------------------------------- the law

  /** What is removed is white space, and what is left neither starts nor ends in it. */
  lemma TrimSpaceSplits(s: Bytes) returns (a: Bytes, b: Bytes)
    ensures Spaces(a) && Spaces(b) && s == a + TrimSpace(s) + b
    ensures Tight(TrimSpace(s))
  {
    var l, t := TrimLeft(s), TrimSpace(s);
    var head := LeftRemoved(s);
    var tail := RightRemoved(l);
    a, b := Concat(head), Concat(tail);
    assert a + (t + b) == a + t + b;
    forall u: Bytes | IsSpace(u)
      ensures !(u <= t)
    {
      assert t <= l;
    }
  }

  /** There is no other such way to see a text. */
  lemma TrimSpaceIs(a: Bytes, t: Bytes, b: Bytes)
    requires Spaces(a) && Tight(t) && Spaces(b)
    ensures TrimSpace(a + t + b) == t
  {
    var head: seq<Bytes> :| AllSpaces(head) && a == Concat(head);
    var tail: seq<Bytes> :| AllSpaces(tail) && b == Concat(tail);
    assert a + t + b == a + (t + b);
    LeftAway(head, t + b);
    if t == [] {
      LeftAway(tail, []);
      assert t + b == b + [] == b;
    } else {
      NoNewHead(t, tail);
      HeadNone(t + b);
      RightAway(t, tail);
      TailNone(t);
    }
  }

  /** So a text trims to `t` just when it is `t` between white space. */
  lemma TrimsTo(s: Bytes, t: Bytes)
    requires Tight(t)
    ensures TrimSpace(s) == t <==> exists a: Bytes, b: Bytes :: Spaces(a) && Spaces(b) && s == a + t + b
  {
    var a, b := TrimSpaceSplits(s);
    forall a: Bytes, b: Bytes | Spaces(a) && Spaces(b) && s == a + t + b
      ensures TrimSpace(s) == t
    {
      TrimSpaceIs(a, t, b);
    }
  }

  // ------------------------------------------------------------ blank texts

  lemma SpacesJoin(a: Bytes, b: Bytes)
    requires Spaces(a) && Spaces(b)
    ensures Spaces(a + b)
  {
    var p: seq<Bytes> :| AllSpaces(p) && a == Concat(p);
    var q: seq<Bytes> :| AllSpaces(q) && b == Concat(q);
    ConcatAppend(p, q);
  }

  lemma NothingIsSpaces()
    ensures Spaces([])
  {
    assert AllSpaces([]) && Concat([]) == [];
  }

  /** A text is trimmed to nothing just when it is white space throughout. */
  lemma BlankIsSpaces(text: Bytes)
    ensures TrimSpace(text) == [] <==> Spaces(text)
  {
    hide TrimSpace, Spaces, Tight;
    if TrimSpace(text) == [] {
      var a, b := TrimSpaceSplits(text);
      assert a + [] + b == a + b;
      SpacesJoin(a, b);
    }
    if Spaces(text) {
      PrintableIsTight([]);
      NothingIsSpaces();
      TrimSpaceIs(text, [], []);
      assert text + [] + [] == text;
    }
  }

  lemma OneSpace(u: Bytes)
    requires |u| == 1 && (u[0] == 32 || u[0] == 9)
    ensures Spaces(u)
  {
    assert Init([u]) == [] && AllSpaces([u]) && Concat([u]) == [] + u;
  }

  lemma {:induction false} BlanksAreSpaces(s: Bytes)
    requires forall i: nat :: i < |s| ==> s[i] == 32 || s[i] == 9
    ensures Spaces(s)
    decreases |s|
  {
    if s == [] {
      NothingIsSpaces();
    } else {
      hide Spaces, IsSpace;
      BlanksAreSpaces(Init(s));
      OneSpace([Last(s)]);
      SpacesJoin(Init(s), [Last(s)]);
      assert Init(s) + [Last(s)] == s;
    }
  }
}
