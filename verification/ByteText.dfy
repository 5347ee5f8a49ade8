/**
 Go strings are byte strings. This module holds the byte type, the two string
 operations every layer uses (`Concat` and `TrimSpace`), and their laws.
 */
module ByteText {

  newtype byte = x: int | 0 <= x < 256

  type Bytes = seq<byte>

  const LF: byte := 10
  const CR: byte := 13
  const SPACE: byte := 32
  const SLASH: byte := 47
  const COLON: byte := 58

  datatype Option<+T> = None | Some(value: T)

  /** The bytes of an ASCII text. */
  function Ascii(s: string): (b: Bytes)
    ensures |b| == |s| && forall i: nat :: i < |s| ==> b[i] as int == s[i] as int % 128
  {
    seq(|s|, (i: nat) requires i < |s| => (s[i] as int % 128) as byte)
  }

  function Last<T>(s: seq<T>): T
    requires s != []
  {
    s[|s| - 1]
  }

  function Init<T>(s: seq<T>): seq<T>
    requires s != []
  {
    s[..|s| - 1]
  }

  /** The pieces one after the other. */
  function Concat(pieces: seq<Bytes>): Bytes {
    if pieces == [] then [] else Concat(Init(pieces)) + Last(pieces)
  }

  lemma {:induction false} ConcatAppend(a: seq<Bytes>, b: seq<Bytes>)
    ensures Concat(a + b) == Concat(a) + Concat(b)
    decreases |b|
  {
    if b == [] {
      assert a + b == a;
    } else {
      ConcatAppend(a, Init(b));
      assert Init(a + b) == a + Init(b) && Last(a + b) == Last(b);
      assert (Concat(a) + Concat(Init(b))) + Last(b) == Concat(a) + (Concat(Init(b)) + Last(b));
    }
  }

  /** `u` is the UTF-8 encoding of one code point with the Unicode property White_Space. */
  predicate IsSpace(u: Bytes) {
    || (|u| == 1 && (9 <= u[0] <= 13 || u[0] == 32))
    || (|u| == 2 && u[0] == 0xC2 && (u[1] == 0x85 || u[1] == 0xA0))
    || (|u| == 3 && (|| u == [0xE1, 0x9A, 0x80]
                     || (u[0] == 0xE2 && u[1] == 0x80
                         && (0x80 <= u[2] <= 0x8A || u[2] == 0xA8 || u[2] == 0xA9 || u[2] == 0xAF))
                     || u == [0xE2, 0x81, 0x9F]
                     || u == [0xE3, 0x80, 0x80]))
  }

  /** Width of the white space at the start of `s`; zero when there is none. */
  function HeadSpace(s: Bytes): (n: nat)
    ensures n <= |s|
  {
    if |s| >= 1 && IsSpace(s[..1]) then 1
    else if |s| >= 2 && IsSpace(s[..2]) then 2
    else if |s| >= 3 && IsSpace(s[..3]) then 3
    else 0
  }

  /** Width of the white space at the end of `s`; zero when there is none. */
  function TailSpace(s: Bytes): (n: nat)
    ensures n <= |s|
  {
    if |s| >= 1 && IsSpace(s[|s| - 1..]) then 1
    else if |s| >= 2 && IsSpace(s[|s| - 2..]) then 2
    else if |s| >= 3 && IsSpace(s[|s| - 3..]) then 3
    else 0
  }

  function TrimLeft(s: Bytes): (t: Bytes)
    ensures |t| <= |s|
    decreases |s|
  {
    if HeadSpace(s) == 0 then s else TrimLeft(s[HeadSpace(s)..])
  }

  function TrimRight(s: Bytes): (t: Bytes)
    ensures t <= s
    decreases |s|
  {
    if TailSpace(s) == 0 then s else TrimRight(s[..|s| - TailSpace(s)])
  }

  /** strings.TrimSpace. */
  function TrimSpace(s: Bytes): Bytes {
    TrimRight(TrimLeft(s))
  }
}
