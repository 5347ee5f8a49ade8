/** The recursive duplicate-key check over a JSON token stream (`rejectDuplicateKeys`, `consumeJSONValue`). */
module DuplicateKeys {
  import opened ByteText

  /** The tokens of encoding/json: delimiters, strings (object keys too) and other scalars. */
  datatype Token = ObjectOpen | ObjectClose | ArrayOpen | ArrayClose | Text(s: Bytes) | Scalar

  predicate Closes(t: Token) {
    t.ObjectClose? || t.ArrayClose?
  }

  // ----------------------------------------------------------------- values

  datatype Json = Atom | Str(s: Bytes) | Arr(items: seq<Json>) | Obj(members: seq<Member>)

  datatype Member = Member(key: Bytes, value: Json)

  function Flatten(v: Json): seq<Token> {
    match v
    case Atom => [Scalar]
    case Str(s) => [Text(s)]
    case Arr(items) => [ArrayOpen] + FlattenItems(items) + [ArrayClose]
    case Obj(members) => [ObjectOpen] + FlattenMembers(members) + [ObjectClose]
  }

  function FlattenItems(items: seq<Json>): seq<Token> {
    if items == [] then [] else Flatten(items[0]) + FlattenItems(items[1..])
  }

  function FlattenMembers(members: seq<Member>): seq<Token> {
    if members == [] then [] else [Text(members[0].key)] + Flatten(members[0].value) + FlattenMembers(members[1..])
  }

  /** No object, at any depth, has two members with the same key. */
  predicate KeysDiffer(v: Json) {
    match v
    case Atom => true
    case Str(_) => true
    case Arr(items) => forall i: nat :: i < |items| ==> KeysDiffer(items[i])
    case Obj(members) =>
      && (forall i: nat, j: nat :: i < j < |members| ==> members[i].key != members[j].key)
      && (forall i: nat :: i < |members| ==> KeysDiffer(members[i].value))
  }

  /** Some object, at any depth, has two members with this key. */
  predicate Repeats(v: Json, key: Bytes) {
    match v
    case Atom => false
    case Str(_) => false
    case Arr(items) => exists i: nat :: i < |items| && Repeats(items[i], key)
    case Obj(members) =>
      || (exists i: nat, j: nat :: i < j < |members| && members[i].key == members[j].key == key)
      || (exists i: nat :: i < |members| && Repeats(members[i].value, key))
  }

  // -------------------------------------------------------------- consuming

  datatype Result = Done(rest: seq<Token>) | Duplicate(key: Bytes) | Malformed

  /** Takes one value off the stream. */
  function Value(ts: seq<Token>): (r: Result)
    ensures r.Done? ==> |r.rest| < |ts|
    decreases |ts|, 0
  {
    if ts == [] then Malformed
    else
      match ts[0]
      case ObjectOpen => Members(ts[1..], {})
      case ArrayOpen => Items(ts[1..])
      case ObjectClose => Malformed
      case ArrayClose => Malformed
      case Text(_) => Done(ts[1..])
      case Scalar => Done(ts[1..])
  }

  function Items(ts: seq<Token>): (r: Result)
    ensures r.Done? ==> |r.rest| < |ts|
    decreases |ts|, 1
  {
    if ts == [] then Malformed
    else if Closes(ts[0]) then Done(ts[1..])
    else
      var r := Value(ts);
      if r.Done? then Items(r.rest) else r
  }

  function Members(ts: seq<Token>, seen: set<Bytes>): (r: Result)
    ensures r.Done? ==> |r.rest| < |ts|
    decreases |ts|, 1
  {
    if ts == [] then Malformed
    else if Closes(ts[0]) then Done(ts[1..])
    else if !ts[0].Text? then Malformed
    else if ts[0].s in seen then Duplicate(ts[0].s)
    else
      var r := Value(ts[1..]);
      if r.Done? then Members(r.rest, seen + {ts[0].s}) else r
  }

  // ------------------------------------------------------- what it decides

  lemma FlattenStarts(v: Json)
    ensures Flatten(v) != [] && !Closes(Flatten(v)[0])
  {
  }

  /**
   On the tokens of any value, whatever follows them, the check succeeds and takes
   exactly those tokens when no object at any depth repeats a key; otherwise it
   reports a key that one repeats.
   */
  lemma {:induction false} ValueDecides(v: Json, rest: seq<Token>)
    ensures var r := Value(Flatten(v) + rest);
            if KeysDiffer(v) then r == Done(rest) else r.Duplicate? && Repeats(v, r.key)
    decreases v, 1
  {
    match v
    case Atom => assert ([Scalar] + rest)[1..] == rest;
    case Str(s) => assert ([Text(s)] + rest)[1..] == rest;
    case Arr(items) =>
      var body := FlattenItems(items) + [ArrayClose] + rest;
      assert Flatten(v) + rest == [ArrayOpen] + body;
      assert ([ArrayOpen] + body)[1..] == body;
      ItemsDecide(items, rest);
    case Obj(members) =>
      var body := FlattenMembers(members) + [ObjectClose] + rest;
      assert Flatten(v) + rest == [ObjectOpen] + body;
      assert ([ObjectOpen] + body)[1..] == body;
      MembersDecide(members, {}, rest);
  }

  lemma {:induction false} ItemsDecide(items: seq<Json>, rest: seq<Token>)
    ensures var r := Items(FlattenItems(items) + [ArrayClose] + rest);
            if forall i: nat :: i < |items| ==> KeysDiffer(items[i]) then r == Done(rest)
            else r.Duplicate? && exists i: nat :: i < |items| && Repeats(items[i], r.key)
    decreases items, 0
  {
    if items == [] {
      assert [] + [ArrayClose] + rest == [ArrayClose] + rest;
      assert ([ArrayClose] + rest)[1..] == rest;
    } else {
      var more := FlattenItems(items[1..]) + [ArrayClose] + rest;
      var ts := Flatten(items[0]) + more;
      assert FlattenItems(items) + [ArrayClose] + rest == ts;
      FlattenStarts(items[0]);
      assert ts[0] == Flatten(items[0])[0];
      ValueDecides(items[0], more);
      ItemsDecide(items[1..], rest);
      assert forall i: nat :: 0 < i < |items| ==> items[i] == items[1..][i - 1];
      assert forall i: nat :: i < |items| - 1 ==> items[1..][i] == items[i + 1];
    }
  }

  /** The members left differ from each other and from the keys seen, and so do the keys inside them. */
  ghost predicate MembersDiffer(members: seq<Member>, seen: set<Bytes>) {
    && (forall i: nat :: i < |members| ==> members[i].key !in seen)
    && (forall i: nat, j: nat :: i < j < |members| ==> members[i].key != members[j].key)
    && (forall i: nat :: i < |members| ==> KeysDiffer(members[i].value))
  }

  /** A key that a member shares with another, or with those seen, or that is repeated inside one. */
  ghost predicate MembersRepeat(members: seq<Member>, seen: set<Bytes>, key: Bytes) {
    || (key in seen && exists i: nat :: i < |members| && members[i].key == key)
    || (exists i: nat, j: nat :: i < j < |members| && members[i].key == members[j].key == key)
    || (exists i: nat :: i < |members| && Repeats(members[i].value, key))
  }

  lemma MembersRepeatFirst(members: seq<Member>, seen: set<Bytes>, key: Bytes)
    requires members != []
    ensures Repeats(members[0].value, key) ==> MembersRepeat(members, seen, key)
    ensures key in seen && members[0].key == key ==> MembersRepeat(members, seen, key)
    ensures MembersRepeat(members[1..], seen + {members[0].key}, key) ==> MembersRepeat(members, seen, key)
  {
    hide Repeats;
    var more := members[1..];
    assert forall i: nat :: i < |more| ==> more[i] == members[i + 1];
    assert key == members[0].key && (exists i: nat :: i < |more| && more[i].key == key) ==>
        exists j: nat :: 0 < j < |members| && members[0].key == members[j].key == key;
  }

  lemma MembersDifferFirst(members: seq<Member>, seen: set<Bytes>)
    requires members != []
    ensures MembersDiffer(members, seen)
       <==> members[0].key !in seen && KeysDiffer(members[0].value)
            && MembersDiffer(members[1..], seen + {members[0].key})
  {
    assert forall i: nat :: 0 < i < |members| ==> members[i] == members[1..][i - 1];
    assert forall i: nat :: i < |members| - 1 ==> members[1..][i] == members[i + 1];
  }

  lemma {:induction false} MembersDecide(members: seq<Member>, seen: set<Bytes>, rest: seq<Token>)
    ensures var r := Members(FlattenMembers(members) + [ObjectClose] + rest, seen);
            if MembersDiffer(members, seen) then r == Done(rest)
            else r.Duplicate? && MembersRepeat(members, seen, r.key)
    decreases members, 0
  {
    if members == [] {
      assert [] + [ObjectClose] + rest == [ObjectClose] + rest;
      assert ([ObjectClose] + rest)[1..] == rest;
    } else {
      hide MembersDiffer, MembersRepeat, Repeats;
      var m := members[0];
      var more := FlattenMembers(members[1..]) + [ObjectClose] + rest;
      var ts := [Text(m.key)] + (Flatten(m.value) + more);
      assert FlattenMembers(members) + [ObjectClose] + rest == ts;
      assert ts[1..] == Flatten(m.value) + more;
      MembersDifferFirst(members, seen);
      ValueDecides(m.value, more);
      MembersDecide(members[1..], seen + {m.key}, rest);
      var r := Members(ts, seen);
      if r.Duplicate? { MembersRepeatFirst(members, seen, r.key); }
    }
  }

  // ------------------------------------------------------------- the check

  class TokenDecoder {
    const tokens: seq<Token>
    var pos: nat

    ghost predicate Valid()
      reads this
    {
      pos <= |tokens|
    }

    constructor (tokens: seq<Token>)
      ensures Valid() && this.tokens == tokens && pos == 0
    {
      this.tokens, pos := tokens, 0;
    }

    ghost function Rest(): seq<Token>
      requires Valid()
      reads this
    {
      tokens[pos..]
    }

    /** `None` is a syntax error, or the end of the input. */
    method Next() returns (t: Option<Token>)
      requires Valid()
      modifies this
      ensures Valid()
      ensures old(Rest()) == [] ==> t == None && Rest() == []
      ensures old(Rest()) != [] ==> t == Some(old(Rest())[0]) && Rest() == old(Rest())[1..]
    {
      if pos == |tokens| {
        return None;
      }
      t := Some(tokens[pos]);
      pos := pos + 1;
    }

    /** Another element before the closing delimiter. */
    method More() returns (b: bool)
      requires Valid()
      ensures b == (Rest() != [] && !Closes(Rest()[0]))
    {
      b := pos < |tokens| && !Closes(tokens[pos]);
    }
  }

  datatype Status = Fine | Repeated(key: Bytes) | Syntax

  /** The status, and on success the position, are those of the result `r`. */
  ghost predicate Agrees(status: Status, rest: seq<Token>, r: Result) {
    match r
    case Done(after) => status == Fine && rest == after
    case Duplicate(key) => status == Repeated(key)
    case Malformed => status == Syntax
  }

  method ConsumeJSONValue(dec: TokenDecoder) returns (status: Status)
    requires dec.Valid()
    modifies dec
    ensures dec.Valid() && |dec.Rest()| <= |old(dec.Rest())|
    ensures Agrees(status, dec.Rest(), Value(old(dec.Rest())))
    decreases |dec.tokens| - dec.pos
  {
    ghost var start := dec.Rest();
    var tok := dec.Next();
    if tok == None {
      return Syntax;
    }
    ghost var body := dec.Rest();
    match tok.value
    case ObjectOpen =>
      var seen: set<Bytes> := {};
      var more := dec.More();
      while more
        invariant dec.Valid() && |dec.Rest()| < |start|
        invariant more == (dec.Rest() != [] && !Closes(dec.Rest()[0]))
        invariant Members(body, {}) == Members(dec.Rest(), seen)
        decreases |dec.tokens| - dec.pos
      {
        var kt := dec.Next();
        if !kt.value.Text? {
          return Syntax;
        }
        var key := kt.value.s;
        if key in seen {
          return Repeated(key);
        }
        seen := seen + {key};
        status := ConsumeJSONValue(dec);
        if status != Fine {
          return status;
        }
        more := dec.More();
      }
      tok := dec.Next();
      status := if tok == None then Syntax else Fine;
    case ArrayOpen =>
      var more := dec.More();
      while more
        invariant dec.Valid() && |dec.Rest()| < |start|
        invariant more == (dec.Rest() != [] && !Closes(dec.Rest()[0]))
        invariant Items(body) == Items(dec.Rest())
        decreases |dec.tokens| - dec.pos
      {
        status := ConsumeJSONValue(dec);
        if status != Fine {
          return status;
        }
        more := dec.More();
      }
      tok := dec.Next();
      status := if tok == None then Syntax else Fine;
    case ObjectClose => status := Syntax;
    case ArrayClose => status := Syntax;
    case Text(_) => status := Fine;
    case Scalar => status := Fine;
  }
}
