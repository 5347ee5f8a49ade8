/**
 The in-memory conversation: turns are staged, then committed or aborted, and the
 oldest pairs are dropped when a request does not fit the budget. Accounting is
 overflow-checked 64-bit arithmetic.
 */
module Conversation {
  import opened ByteText

  const MAX_INT64: int := 0x7FFF_FFFF_FFFF_FFFF
  const PER_MESSAGE: int := 32
  const PER_REQUEST: int := 32

  datatype Role = System | User | Assistant

  datatype Message = Message(role: Role, content: Bytes)

  datatype StageError = AlreadyStaged | NotPositive | Overflow | DoesNotFit

  datatype Result<+T> = Ok(value: T) | Err(error: StageError)

  // -------------------------------------------------------------- accounting

  function Cost(messages: seq<Message>): nat {
    if messages == [] then 0 else Cost(Init(messages)) + |Last(messages).content| + PER_MESSAGE
  }

  /** What a request is charged, as a mathematical sum. */
  function Units(messages: seq<Message>): nat {
    PER_REQUEST + Cost(messages)
  }

  lemma {:induction false} CostAppend(a: seq<Message>, b: seq<Message>)
    ensures Cost(a + b) == Cost(a) + Cost(b)
    decreases |b|
  {
    if b == [] {
      assert a + b == a;
    } else {
      assert Init(a + b) == a + Init(b);
      CostAppend(a, Init(b));
    }
  }

  function AddUnits(a: int, b: int): Result<int> {
    if a < 0 || b < 0 then Err(Overflow)
    else if a > MAX_INT64 - b then Err(Overflow)
    else Ok(a + b)
  }

  /** The exact sum, or an overflow exactly when the sum exceeds 64 bits. */
  method Estimate(messages: seq<Message>) returns (r: Result<int>)
    ensures r == if Units(messages) <= MAX_INT64 then Ok(Units(messages)) else Err(Overflow)
  {
    var total := PER_REQUEST;
    for k := 0 to |messages|
      invariant total == Units(messages[..k]) <= MAX_INT64
    {
      assert Init(messages[..k + 1]) == messages[..k];
      assert messages == messages[..k + 1] + messages[k + 1..];
      CostAppend(messages[..k + 1], messages[k + 1..]);
      var n := AddUnits(|messages[k].content|, PER_MESSAGE);
      if n.Err? {
        return Err(n.error);
      }
      var sum := AddUnits(total, n.value);
      if sum.Err? {
        return Err(sum.error);
      }
      total := sum.value;
    }
    assert messages[..|messages|] == messages;
    r := Ok(total);
  }

  function FitsVerdict(units: nat, budget: int, reserve: int): Result<bool> {
    if budget <= 0 || reserve <= 0 then Err(NotPositive)
    else if units + reserve > MAX_INT64 then Err(Overflow)
    else Ok(units + reserve <= budget)
  }

  method Fits(messages: seq<Message>, budget: int, reserve: int) returns (r: Result<bool>)
    ensures r == FitsVerdict(Units(messages), budget, reserve)
  {
    if budget <= 0 || reserve <= 0 {
      return Err(NotPositive);
    }
    var est := Estimate(messages);
    if est.Err? {
      return Err(est.error);
    }
    var sum := AddUnits(est.value, reserve);
    if sum.Err? {
      return Err(sum.error);
    }
    r := Ok(sum.value <= budget);
  }

  // ----------------------------------------------------------------- staging

  function Fixed(system: Option<Message>): seq<Message> {
    if system.Some? then [system.value] else []
  }

  /** A request: the system message, the history and the new user message. */
  function Request(system: Option<Message>, history: seq<Message>, user: Message): seq<Message> {
    Fixed(system) + history + [user]
  }

  lemma RequestCost(system: Option<Message>, history: seq<Message>, user: Message)
    ensures Units(Request(system, history, user))
            == Units(Fixed(system)) + Cost(history) + |user.content| + PER_MESSAGE
  {
    var before := Fixed(system) + history;
    CostAppend(Fixed(system), history);
    assert Init(before + [user]) == before;
  }

  /** Complete turns only: user and assistant messages alternate. */
  ghost predicate Paired(history: seq<Message>) {
    && |history| % 2 == 0
    && forall k: nat :: k < |history| ==> history[k].role == if k % 2 == 0 then User else Assistant
  }

  /** The history without its `pairs` oldest pairs. */
  function Without(history: seq<Message>, pairs: nat): seq<Message> {
    if HasPairs(history, pairs) then history[2 * pairs..] else []
  }

  /**
   A request seen by position: the system message first, when there is one; then the
   history from pair `k` on, message by message; and the user's message last.
   */
  predicate InOrder(msgs: seq<Message>, system: Option<Message>, history: seq<Message>, k: nat, user: Message) {
    var n := if system.Some? then 1 else 0;
    && n < |msgs| && 2 * k <= |history|
    && (system.Some? ==> msgs[0] == system.value)
    && msgs[n..|msgs| - 1] == history[2 * k..]
    && msgs[|msgs| - 1] == user
  }

  /** From the first message that is no system message to the last, user and assistant alternate. */
  ghost predicate Alternates(msgs: seq<Message>, system: Option<Message>) {
    var n := if system.Some? then 1 else 0;
    && (|msgs| - n) % 2 == 1
    && forall j: nat :: n <= j < |msgs| ==> msgs[j].role == if (j - n) % 2 == 0 then User else Assistant
  }

  lemma SameParity(pairs: nat, j: nat)
    ensures (2 * pairs + j) % 2 == j % 2
  {
  }

  lemma InOrderAlternates(msgs: seq<Message>, system: Option<Message>, history: seq<Message>, k: nat, user: Message)
    requires InOrder(msgs, system, history, k, user) && Paired(history) && user.role == User
    ensures Alternates(msgs, system)
  {
    var n := if system.Some? then 1 else 0;
    var m := |msgs| - 1;
    SameParity(k, m - n);
    forall j: nat | n <= j < |msgs|
      ensures msgs[j].role == if (j - n) % 2 == 0 then User else Assistant
    {
      SameParity(k, j - n);
      if j < m { assert msgs[j] == msgs[n..m][j - n] == history[2 * k..][j - n]; }
    }
  }

  lemma RequestInOrder(system: Option<Message>, history: seq<Message>, k: nat, user: Message)
    requires Paired(history) && HasPairs(history, k) && user.role == User
    ensures var msgs := Request(system, Without(history, k), user);
            InOrder(msgs, system, history, k, user) && Alternates(msgs, system)
  {
    hide Paired, Alternates;
    var msgs, kept := Request(system, Without(history, k), user), history[2 * k..];
    var n := if system.Some? then 1 else 0;
    assert msgs[n..|msgs| - 1] == kept;
    InOrderAlternates(msgs, system, history, k, user);
  }

  predicate HasPairs(history: seq<Message>, pairs: nat) {
    2 * pairs <= |history|
  }

  /** How many of the oldest pairs to drop, by dropping one at a time. */
  function LeastTrim(system: Option<Message>, history: seq<Message>, user: Message, room: int): nat {
    if Units(Request(system, history, user)) <= room || |history| < 2 then 0
    else 1 + LeastTrim(system, history[2..], user, room)
  }

  /** It is the least number that makes the request fit, and there is one when the fixed messages alone fit. */
  lemma {:induction false} TrimIsLeast(system: Option<Message>, history: seq<Message>, user: Message, room: int)
    requires |history| % 2 == 0
    requires Units(Request(system, [], user)) <= room
    ensures var k := LeastTrim(system, history, user, room);
            && HasPairs(history, k)
            && Units(Request(system, Without(history, k), user)) <= room
            && forall j: nat :: j < k ==> Units(Request(system, Without(history, j), user)) > room
    decreases |history|
  {
    hide Units, Request, LeastTrim, Without;
    TrimStep(system, history, user, room);
    WithoutNone(history);
    if |history| == 0 {
      assert history == [];
    } else if Units(Request(system, history, user)) > room {
      var rest := history[2..];
      TrimIsLeast(system, rest, user, room);
      var k := LeastTrim(system, rest, user, room);
      WithoutNext(history, k);
      forall j: nat | j < k + 1
        ensures Units(Request(system, Without(history, j), user)) > room
      {
        if j > 0 { WithoutNext(history, j - 1); }
      }
    }
  }

  lemma WithoutNone(history: seq<Message>)
    ensures Without(history, 0) == history
  {
  }

  lemma WithoutNext(history: seq<Message>, pairs: nat)
    requires |history| >= 2
    ensures Without(history[2..], pairs) == Without(history, pairs + 1)
  {
  }

  lemma TrimStep(system: Option<Message>, history: seq<Message>, user: Message, room: int)
    ensures LeastTrim(system, history, user, room)
            == if Units(Request(system, history, user)) <= room || |history| < 2 then 0
               else 1 + LeastTrim(system, history[2..], user, room)
  {
  }

  datatype Verdict = Reject(error: StageError) | Accept(trimmed: nat)

  /**
   What staging comes to. Overflow apart, it depends on the system and user
   messages alone, whatever the history.
   */
  function StageVerdict(system: Option<Message>, history: seq<Message>, user: Message,
                        budget: int, reserve: int): Verdict
  {
    var alone := Units(Request(system, [], user));
    if budget <= 0 || reserve <= 0 then Reject(NotPositive)
    else if alone + reserve > MAX_INT64 then Reject(Overflow)
    else if alone + reserve > budget then Reject(DoesNotFit)
    else if Units(Request(system, history, user)) + reserve > MAX_INT64 then Reject(Overflow)
    else Accept(LeastTrim(system, history, user, budget - reserve))
  }

  /**
   The trimming loop of `Stage`. The user message fits without history, so the
   loop never runs out of pairs to drop: its own "does not fit" exit is unreachable.
   */
  method TrimToFit(system: Option<Message>, history: seq<Message>, user: Message, budget: int, reserve: int)
    returns (r: Result<(seq<Message>, Staged)>)
    requires Paired(history)
    requires user.role == User && FitsVerdict(Units(Request(system, [], user)), budget, reserve) == Ok(true)
    ensures var k := LeastTrim(system, history, user, budget - reserve);
            if Units(Request(system, history, user)) + reserve > MAX_INT64 then r == Err(Overflow)
            else
              && HasPairs(history, k)
              && r == Ok((Request(system, Without(history, k), user), Staged(Without(history, k), user, k)))
    ensures r.Ok? ==> InOrder(r.value.0, system, history, r.value.1.trimmed, user) && Alternates(r.value.0, system)
    ensures r.Ok? ==> Units(r.value.0) + reserve <= budget
  {
    hide Units, Request, LeastTrim, InOrder, Alternates;
    PairedIsEven(history);
    var room := budget - reserve;
    var kept, trimmed := history, 0;
    assert history[0..] == history;
    while true
      invariant HasPairs(history, trimmed) && kept == Without(history, trimmed)
      invariant trimmed > 0 ==> Units(Request(system, history, user)) + reserve <= MAX_INT64
      invariant Units(Request(system, kept, user)) <= Units(Request(system, history, user))
      invariant LeastTrim(system, history, user, room) == trimmed + LeastTrim(system, kept, user, room)
      decreases |kept|
    {
      TrimStep(system, kept, user, room);
      var candidate := Request(system, kept, user);
      var ok := Fits(candidate, budget, reserve);
      if ok.Err? {
        return Err(ok.error);
      }
      if ok.value {
        RequestInOrder(system, history, trimmed, user);
        return Ok((candidate, Staged(kept, user, trimmed)));
      }
      assert |kept| >= 2 by {
        assert |kept| == 0 ==> kept == [];
      }
      DropPair(system, kept, user);
      assert kept[2..] == Without(history, trimmed + 1);
      kept := kept[2..];
      trimmed := trimmed + 1;
    }
  }

  /** The verdict through the check of system and user message alone. */
  lemma AloneDecides(system: Option<Message>, history: seq<Message>, user: Message, budget: int, reserve: int)
    ensures StageVerdict(system, history, user, budget, reserve)
            == match FitsVerdict(Units(Request(system, [], user)), budget, reserve)
               case Err(e) => Reject(e)
               case Ok(fits) =>
                 if !fits then Reject(DoesNotFit)
                 else if Units(Request(system, history, user)) + reserve > MAX_INT64 then Reject(Overflow)
                 else Accept(LeastTrim(system, history, user, budget - reserve))
  {
    hide Units, Request, LeastTrim;
  }

  /** System and user message alone decide, and then as many of the oldest pairs are dropped as needed. */
  method FittedRequest(system: Option<Message>, history: seq<Message>, user: Message, budget: int, reserve: int)
    returns (r: Result<(seq<Message>, Staged)>)
    requires Paired(history) && user.role == User
    ensures var v := StageVerdict(system, history, user, budget, reserve);
            if v.Reject? then r == Err(v.error)
            else
              var kept := Without(history, v.trimmed);
              && HasPairs(history, v.trimmed)
              && r == Ok((Request(system, kept, user), Staged(kept, user, v.trimmed)))
    ensures r.Ok? ==> InOrder(r.value.0, system, history, r.value.1.trimmed, user) && Alternates(r.value.0, system)
    ensures r.Ok? ==> Units(r.value.0) + reserve <= budget
  {
    hide Units, Request, LeastTrim, Paired, HasPairs, Without, StageVerdict, FitsVerdict, InOrder, Alternates;
    AloneDecides(system, history, user, budget, reserve);
    var alone := Fits(Request(system, [], user), budget, reserve);
    if alone.Err? {
      return Err(alone.error);
    }
    if !alone.value {
      return Err(DoesNotFit);
    }
    r := TrimToFit(system, history, user, budget, reserve);
  }

  datatype Staged = Staged(history: seq<Message>, user: Message, trimmed: nat)

  class Conversation {
    const budget: int
    const reserve: int
    const system: Option<Message>
    var history: seq<Message>
    var staged: Option<Staged>

    /** Only complete turns are kept, and a staged turn has dropped some of the oldest. */
    ghost predicate Valid()
      reads this
    {
      && Paired(history)
      && (staged.Some? ==>
            && staged.value.user.role == User
            && HasPairs(history, staged.value.trimmed)
            && staged.value.history == Without(history, staged.value.trimmed))
    }

    constructor (budget: int, reserve: int, systemPrompt: Bytes)
      ensures Valid() && history == [] && staged == None
      ensures this.budget == budget && this.reserve == reserve
      ensures system == if systemPrompt == [] then None else Some(Message(System, systemPrompt))
    {
      this.budget, this.reserve := budget, reserve;
      system := if systemPrompt == [] then None else Some(Message(System, systemPrompt));
      history, staged := [], None;
    }

    /** The request that would be sent; committed history is left alone. */
    method Stage(content: Bytes) returns (r: Result<(seq<Message>, nat)>)
      requires Valid()
      modifies this
      ensures Valid() && history == old(history)
      ensures old(staged).Some? ==> r == Err(AlreadyStaged)
      ensures old(staged) == None ==>
                var user := Message(User, content);
                var v := StageVerdict(system, history, user, budget, reserve);
                if v.Reject? then r == Err(v.error)
                else HasPairs(history, v.trimmed)
                     && r == Ok((Request(system, Without(history, v.trimmed), user), v.trimmed))
                     && staged == Some(Staged(Without(history, v.trimmed), user, v.trimmed))
      ensures r.Ok? ==> InOrder(r.value.0, system, history, r.value.1, Message(User, content))
                        && Alternates(r.value.0, system)
                        && Units(r.value.0) + reserve <= budget
      ensures r.Err? ==> staged == old(staged)
    {
      if staged != None {
        return Err(AlreadyStaged);
      }
      hide Units, Request, LeastTrim, Paired, HasPairs, Without, StageVerdict, InOrder, Alternates;
      var fitted := FittedRequest(system, history, Message(User, content), budget, reserve);
      if fitted.Err? {
        return Err(fitted.error);
      }
      staged := Some(fitted.value.1);
      r := Ok((fitted.value.0, fitted.value.1.trimmed));
    }

    /** Keeps the staged turn with its answer. */
    method Commit(content: Bytes) returns (ok: bool)
      requires Valid()
      modifies this
      ensures Valid() && staged == None && ok == old(staged).Some?
      ensures history == if ok then Without(old(history), old(staged).value.trimmed)
                                    + [old(staged).value.user, Message(Assistant, content)]
                         else old(history)
    {
      if staged == None {
        return false;
      }
      hide Paired, HasPairs, Without;
      PairsKept(history, staged.value.trimmed, staged.value.user, Message(Assistant, content));
      history := staged.value.history + [staged.value.user, Message(Assistant, content)];
      staged := None;
      ok := true;
    }

    method Abort()
      requires Valid()
      modifies this
      ensures Valid() && staged == None && history == old(history)
    {
      staged := None;
    }

    method Clear()
      modifies this
      ensures Valid() && staged == None && history == []
    {
      history, staged := [], None;
    }
  }

  lemma PairsKept(history: seq<Message>, pairs: nat, user: Message, answer: Message)
    requires Paired(history) && HasPairs(history, pairs) && user.role == User && answer.role == Assistant
    ensures Paired(Without(history, pairs) + [user, answer])
  {
    var kept := history[2 * pairs..];
    var grown := kept + [user, answer];
    SameParity(pairs, |kept|);
    forall j: nat | j < |grown|
      ensures grown[j].role == if j % 2 == 0 then User else Assistant
    {
      SameParity(pairs, j);
      if j < |kept| { assert grown[j] == history[2 * pairs + j]; }
    }
  }

  lemma PairedIsEven(history: seq<Message>)
    requires Paired(history)
    ensures |history| % 2 == 0
  {
  }

  lemma DropPair(system: Option<Message>, history: seq<Message>, user: Message)
    requires |history| >= 2
    ensures Units(Request(system, history[2..], user)) < Units(Request(system, history, user))
  {
    RequestCost(system, history, user);
    RequestCost(system, history[2..], user);
    assert history == history[..2] + history[2..];
    CostAppend(history[..2], history[2..]);
  }
}
