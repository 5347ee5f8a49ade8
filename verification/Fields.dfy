/**
 Field lines of an event, printed from what they mean: comments, other fields, and
 data fields with and without the optional space. Reading is the inverse.
 */
module Fields {
  import opened ByteText
  import opened Source
  import opened EventStream
  import opened Wire

  datatype Item =
    | Comment(text: Bytes)
    | Other(name: Bytes, value: Option<Bytes>)
    | Data(data: Bytes)
    | TightData(data: Bytes)
    | BareData

  function Print(i: Item): Bytes {
    match i
    case Comment(text) => Ascii(":") + text
    case Other(name, None) => name
    case Other(name, Some(value)) => name + Ascii(":") + value
    case Data(value) => Ascii("data: ") + value
    case TightData(value) => Ascii("data:") + value
    case BareData => Ascii("data")
  }

  /** One line, and of its own kind: the space after the colon may be left out before anything but a space. */
  predicate WellFormed(i: Item) {
    && NoBreaks(Print(i))
    && (i.Other? ==> i.name != [] && COLON !in i.name && i.name != Ascii("data"))
    && (i.TightData? ==> !(Ascii(" ") <= i.data))
  }

  ghost predicate AllWellFormed(items: seq<Item>) {
    forall k: nat :: k < |items| ==> WellFormed(items[k])
  }

  function PrintAll(items: seq<Item>): seq<Bytes> {
    if items == [] then [] else [Print(items[0])] + PrintAll(items[1..])
  }

  /** The data values, in order. */
  function Values(items: seq<Item>): seq<Bytes> {
    if items == [] then []
    else
      match items[0]
      case Data(value) => [value] + Values(items[1..])
      case TightData(value) => [value] + Values(items[1..])
      case BareData => [[]] + Values(items[1..])
      case _ => Values(items[1..])
  }

  // ------------------------------------------------------------- one line

  lemma Words()
    ensures Ascii(":") == [COLON] && Ascii(" ") == [SPACE]
    ensures Ascii("data") == DATA && Ascii("data:") == DATA + [COLON] && Ascii("data: ") == DATA + [COLON, SPACE]
  {
  }

  lemma ColonAtIs(line: Bytes, k: nat)
    requires k < |line| && line[k] == COLON && forall q: nat :: q < k ==> line[q] != COLON
    ensures IndexOfColon(line) == k
  {
  }

  lemma FieldAtColon(name: Bytes, value: Bytes)
    requires COLON !in name
    ensures SplitSSEField(name + [COLON] + value)
            == (name, if [SPACE] <= value then value[1..] else value)
  {
    var line := name + [COLON] + value;
    ColonAtIs(line, |name|);
    assert line[..|name|] == name && line[|name| + 1..] == value;
  }

  lemma FieldWithoutColon(line: Bytes)
    requires COLON !in line
    ensures SplitSSEField(line) == (line, [])
  {
  }

  lemma DataField(value: Bytes, spaced: bool)
    requires spaced || !([SPACE] <= value)
    ensures DataOf(DATA + [COLON] + (if spaced then [SPACE] + value else value)) == [value]
  {
    var v := if spaced then [SPACE] + value else value;
    FieldAtColon(DATA, v);
    assert (DATA + [COLON] + v)[0] == DATA[0];
  }

  lemma OtherField(name: Bytes, value: Option<Bytes>)
    requires name != [] && COLON !in name && name != DATA
    ensures DataOf(if value == None then name else name + [COLON] + value.value) == []
  {
    if value == None { FieldWithoutColon(name); } else { FieldAtColon(name, value.value); }
  }

  /** A line adds the data it was printed for. */
  lemma PrintedIsRead(i: Item)
    requires WellFormed(i)
    ensures Print(i) != [] && NoBreaks(Print(i))
    ensures DataOf(Print(i)) == Values([i])
  {
    PrintIs(i);
    ValuesOne(i);
    Words();
    hide SplitSSEField, NoBreaks, Values, Print, Ascii, DataOf;
    match i
    case Comment(text) => CommentField(text);
    case Other(name, value) => OtherField(name, value);
    case Data(value) =>
      DataField(value, true);
      assert DATA + [COLON, SPACE] + value == DATA + [COLON] + ([SPACE] + value);
    case TightData(value) => DataField(value, false);
    case BareData => BareField();
  }

  lemma CommentField(text: Bytes)
    ensures DataOf([COLON] + text) == []
  {
  }

  lemma BareField()
    ensures DataOf(DATA) == [[]]
  {
    FieldWithoutColon(DATA);
  }

  lemma PrintIs(i: Item)
    ensures Print(i) == match i
                        case Comment(text) => [COLON] + text
                        case Other(name, None) => name
                        case Other(name, Some(value)) => name + [COLON] + value
                        case Data(value) => DATA + [COLON, SPACE] + value
                        case TightData(value) => DATA + [COLON] + value
                        case BareData => DATA
  {
    Words();
  }

  lemma ValuesOne(i: Item)
    ensures Values([i]) == match i
                           case Data(value) => [value]
                           case TightData(value) => [value]
                           case BareData => [[]]
                           case _ => []
  {
    assert Values([]) == [];
  }

  /** Every line is of one of these kinds, so nothing that can be read is left out. */
  lemma EveryLineIsPrinted(line: Bytes) returns (i: Item)
    requires line != [] && NoBreaks(line)
    ensures WellFormed(i) && Print(i) == line
  {
    Words();
    var k := IndexOfColon(line);
    var name := line[..k];
    if k == 0 {
      i := Comment(line[1..]);
    } else if k == |line| {
      i := if line == DATA then BareData else Other(line, None);
    } else {
      var value := line[k + 1..];
      assert line == name + [COLON] + value;
      if name != DATA {
        i := Other(name, Some(value));
      } else if [SPACE] <= value {
        i := Data(value[1..]);
        assert value == [SPACE] + value[1..];
        assert line == DATA + [COLON, SPACE] + value[1..];
      } else {
        i := TightData(value);
      }
    }
  }

  // ------------------------------------------------------- joining the data

  /** strings.Split at LF. */
  function SplitAll(s: Bytes): (parts: seq<Bytes>)
    ensures parts != []
  {
    if s == [] then [[]]
    else if s[0] == LF then [[]] + SplitAll(s[1..])
    else
      var parts := SplitAll(s[1..]);
      [[s[0]] + parts[0]] + parts[1..]
  }

  lemma {:induction false} SplitOne(s: Bytes)
    requires LF !in s
    ensures SplitAll(s) == [s]
  {
    if s != [] {
      SplitOne(s[1..]);
      assert [s[0]] + s[1..] == s;
    }
  }

  /** `b` in front of a text starts a part of its own, or joins the first. */
  function PutBefore(b: byte, parts: seq<Bytes>): seq<Bytes>
    requires parts != []
  {
    if b == LF then [[]] + parts else [[b] + parts[0]] + parts[1..]
  }

  lemma SplitFirst(b: byte, s: Bytes)
    ensures SplitAll([b] + s) == PutBefore(b, SplitAll(s))
  {
    assert ([b] + s)[1..] == s;
  }

  lemma PutBeforeSum(b: byte, parts: seq<Bytes>, more: seq<Bytes>)
    requires parts != []
    ensures PutBefore(b, parts + more) == PutBefore(b, parts) + more
  {
    assert (parts + more)[1..] == parts[1..] + more;
  }

  lemma {:induction false} SplitSum(a: Bytes, b: Bytes)
    ensures SplitAll(a + [LF] + b) == SplitAll(a) + SplitAll(b)
    decreases |a|
  {
    if a == [] {
      assert a + [LF] + b == [LF] + b;
      SplitFirst(LF, b);
    } else {
      hide SplitAll, PutBefore;
      var x, rest := a[0], a[1..];
      assert a == [x] + rest;
      assert a + [LF] + b == [x] + (rest + [LF] + b);
      SplitSum(rest, b);
      SplitFirst(x, rest);
      SplitFirst(x, rest + [LF] + b);
      PutBeforeSum(x, SplitAll(rest), SplitAll(b));
    }
  }

  /** A text is known by its parts. */
  lemma {:induction false} SplitTells(a: Bytes, b: Bytes)
    requires SplitAll(a) == SplitAll(b)
    ensures a == b
    decreases |a| + |b|
  {
    if a != [] && b != [] {
      var p, q := SplitAll(a[1..]), SplitAll(b[1..]);
      assert a == [a[0]] + a[1..] && b == [b[0]] + b[1..];
      SplitHead(a);
      SplitHead(b);
      SplitTells(a[1..], b[1..]);
    } else if a != [] {
      SplitHead(a);
    } else if b != [] {
      SplitHead(b);
    }
  }

  lemma SplitHead(s: Bytes)
    requires s != []
    ensures var parts := SplitAll(s);
            if s[0] == LF then parts[0] == [] && |parts| > 1 && parts[1..] == SplitAll(s[1..])
            else parts[0] != [] && parts[0][0] == s[0] && [parts[0][1..]] + parts[1..] == SplitAll(s[1..])
  {
    var rest := SplitAll(s[1..]);
    assert [rest[0]] + rest[1..] == rest;
  }

  /** With exactly one LF between neighbours, and nothing when there is no data field. */
  predicate Separated(data: Bytes, values: seq<Bytes>) {
    if values == [] then data == [] else SplitAll(data) == values
  }

  lemma {:induction false} JoinSeparates(values: seq<Bytes>)
    requires forall k: nat :: k < |values| ==> LF !in values[k]
    ensures Separated(JoinLF(values), values)
    decreases |values|
  {
    if |values| == 1 {
      SplitOne(values[0]);
    } else if |values| > 1 {
      JoinSeparates(Init(values));
      SplitSum(JoinLF(Init(values)), Last(values));
      SplitOne(Last(values));
    }
  }

  // -------------------------------------------------------------- the event

  lemma {:induction false} PrintedAreRead(items: seq<Item>)
    requires AllWellFormed(items)
    ensures |PrintAll(items)| == |items| && FieldLines(PrintAll(items))
    ensures DataLines(PrintAll(items)) == Values(items)
    ensures forall k: nat :: k < |Values(items)| ==> LF !in Values(items)[k]
  {
    if items != [] {
      var i, more := items[0], items[1..];
      PrintedAreRead(more);
      PrintedIsRead(i);
      ValuesOne(i);
      NoLfInside(i);
      hide WellFormed, NoBreaks, Print, DataOf;
      assert PrintAll(items)[1..] == PrintAll(more);
      assert Values(items) == Values([i]) + Values(more);
    }
  }

  lemma NoLfInside(i: Item)
    requires NoBreaks(Print(i))
    ensures forall k: nat :: k < |Values([i])| ==> LF !in Values([i])[k]
  {
    ValuesOne(i);
    hide Values;
    if i.Data? {
      assert forall k: nat :: k < |i.data| ==> i.data[k] == Print(i)[k + 6];
    } else if i.TightData? {
      assert forall k: nat :: k < |i.data| ==> i.data[k] == Print(i)[k + 5];
    }
  }

  /**
   An event of any field lines, printed with any one line end, is read back exactly
   when it fits: its data is the values of its data fields, one LF between each.
   */
  lemma FieldsRoundTrip(items: seq<Item>, brk: Bytes, rest: Bytes, fault: Fault, max: int)
    requires AllWellFormed(items) && IsLineEnd(brk) && (brk == [CR] ==> !([LF] <= rest))
    ensures var size := |PrintBlock(PrintAll(items), brk)|;
            var r := NextEvent(PrintBlock(PrintAll(items), brk) + rest, fault, max);
            if size - |brk| >= max then r.NoEvent? && r.error == TooLarge
            else
              && r.Event? && r.n == size
              && if items == [] then r.data == None else r.data.Some? && Separated(r.data.value, Values(items))
  {
    hide BlockFrom, PrintBlock, AllWellFormed, Separated, DataLines, Values;
    PrintedAreRead(items);
    BlockRoundTrip(PrintAll(items), brk, rest, fault, max, true);
    JoinSeparates(Values(items));
  }
}
