/** What the decoder talks to besides its source: the caller's delta callback and the two contexts. */
module Delivery {
  import opened ByteText
  import opened Redaction

  /** The caller's callback: it remembers what it was handed, and any of its calls may fail. */
  class UserCallback {
    const fails: nat -> bool
    var handed: seq<Bytes>

    constructor (fails: nat -> bool)
      ensures this.fails == fails && handed == []
    {
      this.fails, handed := fails, [];
    }

    method Call(s: Bytes) returns (ok: bool)
      modifies this
      ensures handed == old(handed) + [s]
      ensures ok == !fails(|old(handed)|)
      ensures Concat(handed) == old(Concat(handed)) + s
    {
      ok := !fails(|handed|);
      handed := handed + [s];
      assert Init(handed) == old(handed);
    }
  }

  /**
   The `onDelta` of `doStream`: deltas pass through the filter, when there is one,
   on their way to the callback, when there is one. `received` is all text that
   came in and `delivered` all text that went on since the sink was made.
   */
  class DeltaSink {
    const filter: SecretFilter?
    const user: UserCallback?
    ghost const start: Bytes
    ghost var received: Bytes
    ghost var delivered: Bytes

    ghost function Repr(): set<object> {
      {this} + (if filter == null then {} else {filter}) + (if user == null then {} else {user})
    }

    ghost predicate Valid()
      reads Repr()
    {
      && (filter == null ==> delivered == received)
      && (filter != null ==> filter.Valid() && filter.input == received && filter.output == delivered)
      && (user != null ==> Concat(user.handed) == start + delivered)
    }

    /** No callback can fail from here on. */
    ghost predicate NeverFails() {
      user != null ==> forall i: nat :: !user.fails(i)
    }

    constructor (filter: SecretFilter?, user: UserCallback?)
      requires filter != null ==> filter.Valid() && filter.input == [] && filter.output == []
      ensures Valid() && received == [] && delivered == []
      ensures this.filter == filter && this.user == user
      ensures user != null ==> start == Concat(user.handed)
    {
      this.filter, this.user := filter, user;
      start := if user == null then [] else Concat(user.handed);
      received, delivered := [], [];
    }

    /** Hands on what may be shown; nothing to show means no call. */
    method OnDelta(s: Bytes) returns (ok: bool)
      requires Valid()
      modifies Repr()
      ensures Valid() && received == old(received) + s
      ensures NeverFails() ==> ok
    {
      var out := s;
      if filter != null {
        out := filter.Push(s);
      }
      ok := true;
      if user != null && (filter == null || out != []) {
        ok := user.Call(out);
      }
      received, delivered := received + s, delivered + out;
    }

    /** The tail of `doStream`: the held-back tail is flushed to the callback. */
    method Flush() returns (ok: bool, ghost out: Bytes)
      requires Valid() && filter != null
      modifies Repr()
      ensures old(delivered) + out == Redacted(filter.secret, old(received))
      ensures user != null ==> Concat(user.handed) == start + Redacted(filter.secret, old(received))
      ensures NeverFails() ==> ok
    {
      hide Redacted, IsCut, Concat;
      var rest := filter.Flush();
      out := rest;
      ok := true;
      if rest != [] && user != null {
        ok := user.Call(rest);
      }
    }
  }

  /** Cancellation of the caller and of the idle watchdog, asked at successive moments. */
  class Cancellation {
    const parentDone: nat -> bool
    const idleDone: nat -> bool
    var now: nat

    constructor (parentDone: nat -> bool, idleDone: nat -> bool)
      ensures this.parentDone == parentDone && this.idleDone == idleDone && now == 0
    {
      this.parentDone, this.idleDone, now := parentDone, idleDone, 0;
    }

    ghost predicate Never() {
      forall i: nat :: !parentDone(i) && !idleDone(i)
    }

    method ParentErr() returns (done: bool)
      modifies this
      ensures done ==> !Never() && exists i: nat :: parentDone(i)
    {
      done := parentDone(now);
      now := now + 1;
    }

    /** The stream context ends with its parent or by the idle watchdog. */
    method StreamErr() returns (done: bool)
      modifies this
      ensures done ==> !Never()
    {
      done := parentDone(now) || idleDone(now);
      now := now + 1;
    }
  }
}
