/** The in-memory session store, which drops an expired entry only when somebody looks at it,
    against an abstract store that never drops anything and simply hides what has expired. */
module SessionStore {
  import opened Options

  type SessionId = string

  type Payload = string  // the serialised session; JSON encoding is not modelled

  datatype Entry = Entry(payload: Payload, expiresAt: real)

  type Table = map<SessionId, Entry>

  /** One call, stamped with the wall clock. */
  datatype Op =
    | Get(id: SessionId, at: real)
    | Exists(id: SessionId, at: real)
    | Set(id: SessionId, payload: Payload, ttl: real, at: real)
    | Delete(id: SessionId, at: real)

  datatype Answer = Session(payload: Option<Payload>) | Present(yes: bool) | Silent

  function Visible(t: Table, id: SessionId, now: real): Option<Payload> {
    if id in t && now < t[id].expiresAt then Some(t[id].payload) else None
  }

  /** What any store with this content answers. */
  function Reply(t: Table, op: Op): Answer {
    match op
    case Get(id, at) => Session(Visible(t, id, at))
    case Exists(id, at) => Present(Visible(t, id, at).Some?)
    case _ => Silent
  }

  function Stored(t: Table, id: SessionId, payload: Payload, ttl: real, at: real): Table {
    t[id := Entry(payload, at + ttl)]
  }

  /** The abstract store: reads change nothing. */
  function Ideal(t: Table, op: Op): Table {
    match op
    case Get(_, _) => t
    case Exists(_, _) => t
    case Set(id, payload, ttl, at) => Stored(t, id, payload, ttl, at)
    case Delete(id, _) => t - {id}
  }

  /** The lazy store: a read pops the entry it finds expired. */
  function Lazy(t: Table, op: Op): Table {
    match op
    case Get(id, at) => if id in t && at >= t[id].expiresAt then t - {id} else t
    case Exists(id, at) => if id in t && at >= t[id].expiresAt then t - {id} else t
    case _ => Ideal(t, op)
  }

  function IdealAfter(ops: seq<Op>): Table {
    if ops == [] then map[] else Ideal(IdealAfter(ops[..|ops| - 1]), ops[|ops| - 1])
  }

  function LazyAfter(ops: seq<Op>): Table {
    if ops == [] then map[] else Lazy(LazyAfter(ops[..|ops| - 1]), ops[|ops| - 1])
  }

  ghost predicate Timely(ops: seq<Op>) {
    forall i, j :: 0 <= i < j < |ops| ==> ops[i].at <= ops[j].at
  }

  /** The lazy table is the ideal one without some entries that had expired by `now`. */
  ghost predicate Swept(lazy: Table, ideal: Table, now: real) {
    && (forall id :: id in lazy ==> id in ideal && lazy[id] == ideal[id])
    && (forall id :: id in ideal && id !in lazy ==> ideal[id].expiresAt <= now)
  }

  lemma SweptStep(lazy: Table, ideal: Table, before: real, op: Op)
    requires Swept(lazy, ideal, before) && before <= op.at
    ensures Reply(lazy, op) == Reply(ideal, op)
    ensures Swept(Lazy(lazy, op), Ideal(ideal, op), op.at)
  {
  }

  lemma {:induction false} LazyIsSwept(ops: seq<Op>, now: real)
    requires Timely(ops) && (ops != [] ==> ops[|ops| - 1].at <= now)
    ensures Swept(LazyAfter(ops), IdealAfter(ops), now)
  {
    if ops != [] {
      var n := |ops| - 1;
      if n > 0 {
        assert ops[n - 1].at <= ops[n].at;
      }
      LazyIsSwept(ops[..n], ops[n].at);
      SweptStep(LazyAfter(ops[..n]), IdealAfter(ops[..n]), ops[n].at, ops[n]);
    }
  }

  /** Refinement: as long as the clock is not set back, every `get` and every `exists` of every run
      answers exactly as the abstract store does, at whatever moment it is made. */
  lemma LazyRefinesIdeal(ops: seq<Op>, i: nat)
    requires Timely(ops) && i < |ops|
    ensures Reply(LazyAfter(ops[..i]), ops[i]) == Reply(IdealAfter(ops[..i]), ops[i])
  {
    if i > 0 {
      assert ops[i - 1].at <= ops[i].at;
    }
    LazyIsSwept(ops[..i], ops[i].at);
    SweptStep(LazyAfter(ops[..i]), IdealAfter(ops[..i]), ops[i].at, ops[i]);
  }

  /** The exact condition at one read: seeing a session at `seen` hides nothing from a read at `t`,
      for every content of the store, if and only if `seen <= t`. */
  lemma OneReadHidesNothing(seen: real, t: real)
    ensures seen <= t
       <==> forall tab: Table, id :: Visible(Lazy(tab, Get(id, seen)), id, t) == Visible(tab, id, t)
  {
    if t < seen {
      var tab: Table := map["s" := Entry("p", seen)];
      assert Visible(Lazy(tab, Get("s", seen)), "s", t) != Visible(tab, "s", t);
    }
  }

  ghost predicate StampedWith(ops: seq<Op>, clock: seq<real>) {
    |ops| == |clock| && forall i :: 0 <= i < |ops| ==> ops[i].at == clock[i]
  }

  ghost predicate Refines(ops: seq<Op>) {
    forall i :: 0 <= i < |ops| ==> Reply(LazyAfter(ops[..i]), ops[i]) == Reply(IdealAfter(ops[..i]), ops[i])
  }

  /** From the second reading on, no reading is later than one that follows it. The first call finds
      an empty store and can pop nothing. */
  ghost predicate Steady(clock: seq<real>) {
    forall i, j :: 1 <= i < j < |clock| ==> clock[i] <= clock[j]
  }

  lemma {:induction false} SteadyIsSwept(ops: seq<Op>, clock: seq<real>, n: nat, now: real)
    requires StampedWith(ops, clock) && Steady(clock) && n <= |ops| && (n > 1 ==> clock[n - 1] <= now)
    ensures Swept(LazyAfter(ops[..n]), IdealAfter(ops[..n]), now)
  {
    if n > 0 {
      var front := ops[..n - 1];
      assert ops[..n][..n - 1] == front && ops[..n][n - 1] == ops[n - 1];
      if n == 1 {
        assert front == [];
      } else {
        SteadyIsSwept(ops, clock, n - 1, ops[n - 1].at);
        SweptStep(LazyAfter(front), IdealAfter(front), ops[n - 1].at, ops[n - 1]);
      }
    }
  }

  /** A session that expires just when it is seen at i, and is looked for again at j. */
  function Telltale(clock: seq<real>, i: nat, j: nat): seq<Op>
    requires i < |clock|
  {
    seq(|clock|, k requires 0 <= k < |clock| =>
      if k == 0 then Set("s", "p", clock[i] - clock[0], clock[0])
      else if k == i || k == j then Get("s", clock[k])
      else Delete("x", clock[k]))
  }

  lemma {:induction false} TelltaleTables(clock: seq<real>, i: nat, j: nat, n: nat)
    requires 1 <= i < j < |clock| && 1 <= n <= j
    ensures var entry := Entry("p", clock[i]);
            && IdealAfter(Telltale(clock, i, j)[..n]) == map["s" := entry]
            && LazyAfter(Telltale(clock, i, j)[..n]) == if n <= i then map["s" := entry] else map[]
  {
    var ops := Telltale(clock, i, j);
    assert ops[..n][..n - 1] == ops[..n - 1] && ops[..n][n - 1] == ops[n - 1];
    if n == 1 {
      assert ops[..0] == [];
    } else {
      TelltaleTables(clock, i, j, n - 1);
      if n - 1 != i {
        assert ops[n - 1] == Delete("x", clock[n - 1]);
        assert map["s" := Entry("p", clock[i])] - {"x"} == map["s" := Entry("p", clock[i])];
      } else {
        assert ops[n - 1] == Get("s", clock[i]);
      }
    }
  }

  /** Refinement, exactly: all runs stamped with these clock readings refine the abstract store if and
      only if the readings are steady. */
  lemma RefinesExactlyWhenSteady(clock: seq<real>)
    ensures Steady(clock) <==> forall ops: seq<Op> :: StampedWith(ops, clock) ==> Refines(ops)
  {
    hide LazyAfter, IdealAfter;
    if Steady(clock) {
      forall ops: seq<Op> | StampedWith(ops, clock) ensures Refines(ops) {
        forall i | 0 <= i < |ops| ensures Reply(LazyAfter(ops[..i]), ops[i]) == Reply(IdealAfter(ops[..i]), ops[i]) {
          SteadyIsSwept(ops, clock, i, ops[i].at);
          SweptStep(LazyAfter(ops[..i]), IdealAfter(ops[..i]), ops[i].at, ops[i]);
        }
      }
    } else {
      var i, j :| 1 <= i < j < |clock| && clock[j] < clock[i];
      var ops := Telltale(clock, i, j);
      TelltaleTables(clock, i, j, j);
      assert ops[j] == Get("s", clock[j]);
      assert Reply(LazyAfter(ops[..j]), ops[j]) != Reply(IdealAfter(ops[..j]), ops[j]);
      assert StampedWith(ops, clock) && !Refines(ops);
    }
  }

  /** In numbers: a read that sees the session expired pops it for good, even if
      the clock is then set back to a time at which it was alive. */
  lemma ClockSetBackIsVisible()
    ensures var ops := [Set("s", "p", 10.0, 0.0), Get("s", 20.0), Get("s", 5.0)];
            && Reply(LazyAfter(ops[..2]), ops[2]) == Session(None)
            && Reply(IdealAfter(ops[..2]), ops[2]) == Session(Some("p"))
  {
    var ops := [Set("s", "p", 10.0, 0.0), Get("s", 20.0), Get("s", 5.0)];
    var one, two := ops[..1], ops[..2];
    assert two[..1] == one && one[..0] == [] && one[0] == ops[0] && two[1] == ops[1];
    assert LazyAfter(one) == map["s" := Entry("p", 10.0)] == IdealAfter(one);
    assert LazyAfter(two) == map[];
  }

  /** `rotate` deletes the old session, if a non-empty id is given, and then creates the new one. */
  function Rotation(oldId: Option<SessionId>, newId: SessionId, payload: Payload, ttl: real, at: real): seq<Op> {
    (if oldId.Some? && oldId.value != "" then [Delete(oldId.value, at)] else []) + [Set(newId, payload, ttl, at)]
  }

  ghost predicate NeverSet(ops: seq<Op>, id: SessionId) {
    forall i :: 0 <= i < |ops| ==> !(ops[i].Set? && ops[i].id == id)
  }

  function LazyFrom(t: Table, ops: seq<Op>): Table
    decreases ops
  {
    if ops == [] then t else LazyFrom(Lazy(t, ops[0]), ops[1..])
  }

  lemma LazyOne(t: Table, op: Op)
    ensures LazyFrom(t, [op]) == Lazy(t, op)
  {
    assert [op][1..] == [];
  }

  lemma RotationEffect(t: Table, oldId: Option<SessionId>, newId: SessionId, payload: Payload, ttl: real, at: real)
    ensures LazyFrom(t, Rotation(oldId, newId, payload, ttl, at))
         == Stored(if oldId.Some? && oldId.value != "" then t - {oldId.value} else t, newId, payload, ttl, at)
  {
    var r, create := Rotation(oldId, newId, payload, ttl, at), [Set(newId, payload, ttl, at)];
    if oldId.Some? && oldId.value != "" {
      assert r[1..] == create;
      LazyOne(t - {oldId.value}, create[0]);
    } else {
      assert r == create;
      LazyOne(t, create[0]);
    }
  }

  ghost predicate Untouched(ops: seq<Op>, id: SessionId) {
    forall i :: 0 <= i < |ops| ==> !((ops[i].Set? || ops[i].Delete?) && ops[i].id == id)
  }

  ghost predicate ReadBy(ops: seq<Op>, now: real) {
    forall i :: 0 <= i < |ops| ==> ops[i].at <= now
  }

  /** Whatever is done to other sessions, and however often this one is read, it shows the same. */
  lemma {:induction false} StaysAsItIs(t: Table, id: SessionId, ops: seq<Op>, now: real)
    requires Untouched(ops, id) && ReadBy(ops, now)
    ensures Visible(LazyFrom(t, ops), id, now) == Visible(t, id, now)
    decreases ops
  {
    if ops != [] {
      StaysAsItIs(Lazy(t, ops[0]), id, ops[1..], now);
    }
  }

  predicate Replaces(oldId: Option<SessionId>, id: SessionId) {
    oldId == Some(id) && id != ""
  }

  lemma {:induction false} StaysGone(t: Table, id: SessionId, ops: seq<Op>)
    requires id !in t && NeverSet(ops, id)
    ensures id !in LazyFrom(t, ops)
    decreases ops
  {
    if ops != [] {
      StaysGone(Lazy(t, ops[0]), id, ops[1..]);
    }
  }

  /** Whatever calls follow a rotation: the new id maps to the payload until its own deadline unless
      somebody sets or deletes it, every third session shows what it would have shown, under the
      same proviso, and a replaced id is gone and stays gone until somebody sets it again. */
  lemma RotationSticks(t: Table, oldId: Option<SessionId>, newId: SessionId, payload: Payload, ttl: real, at: real,
                       later: seq<Op>, now: real)
    ensures var end := LazyFrom(LazyFrom(t, Rotation(oldId, newId, payload, ttl, at)), later);
            && (ReadBy(later, now) && Untouched(later, newId) ==>
                  Visible(end, newId, now) == (if now < at + ttl then Some(payload) else None))
            && (forall id :: !Replaces(oldId, id) && id != newId && ReadBy(later, now) && Untouched(later, id) ==>
                  Visible(end, id, now) == Visible(t, id, now))
            && (forall id :: Replaces(oldId, id) && id != newId && NeverSet(later, id) ==>
                  Visible(end, id, now) == None)
  {
    hide LazyFrom, Rotation, Untouched, ReadBy, NeverSet;
    var after := LazyFrom(t, Rotation(oldId, newId, payload, ttl, at));
    RotationEffect(t, oldId, newId, payload, ttl, at);
    if ReadBy(later, now) && Untouched(later, newId) {
      StaysAsItIs(after, newId, later, now);
    }
    forall id | !Replaces(oldId, id) && id != newId && ReadBy(later, now) && Untouched(later, id)
      ensures Visible(LazyFrom(after, later), id, now) == Visible(t, id, now)
    {
      StaysAsItIs(after, id, later, now);
    }
    forall id | Replaces(oldId, id) && id != newId && NeverSet(later, id)
      ensures Visible(LazyFrom(after, later), id, now) == None
    {
      StaysGone(after, id, later);
    }
  }

  lemma ReadAgrees(history: seq<Op>, op: Op)
    ensures Timely(history + [op]) ==> Reply(LazyAfter(history), op) == Reply(IdealAfter(history), op)
  {
    if Timely(history + [op]) {
      assert (history + [op])[..|history|] == history && (history + [op])[|history|] == op;
      LazyRefinesIdeal(history + [op], |history|);
    }
  }

  class InMemorySessionStore {
    var store: Table
    ghost var history: seq<Op>

    /** The object is always in the state of a lazy run, whatever the clock does. */
    ghost predicate Valid()
      reads this
    {
      store == LazyAfter(history)
    }

    constructor ()
      ensures Valid() && history == []
    {
      store := map[];
      history := [];
    }

    ghost method Log(op: Op, was: Table)
      requires was == LazyAfter(history) && store == Lazy(was, op)
      modifies this`history
      ensures Valid() && history == old(history) + [op]
    {
      assert (history + [op])[..|history|] == history;
      history := history + [op];
    }

    method GetSession(id: SessionId, now: real) returns (session: Option<Payload>)
      requires Valid()
      modifies this
      ensures Valid() && history == old(history) + [Get(id, now)]
      ensures session == Visible(old(store), id, now)
      ensures Timely(history) ==> session == Visible(IdealAfter(old(history)), id, now)
    {
      ghost var was := store;
      ReadAgrees(history, Get(id, now));
      session := None;
      if id in store {
        var entry := store[id];
        if now >= entry.expiresAt {
          store := store - {id};
        } else {
          session := Some(entry.payload);
        }
      }
      Log(Get(id, now), was);
    }

    method SessionExists(id: SessionId, now: real) returns (yes: bool)
      requires Valid()
      modifies this
      ensures Valid() && history == old(history) + [Exists(id, now)]
      ensures yes <==> Visible(old(store), id, now).Some?
      ensures Timely(history) ==> (yes <==> Visible(IdealAfter(old(history)), id, now).Some?)
    {
      ghost var was := store;
      ReadAgrees(history, Exists(id, now));
      yes := id in store;
      if yes && now >= store[id].expiresAt {
        store := store - {id};
        yes := false;
      }
      Log(Exists(id, now), was);
    }

    method SetSession(id: SessionId, payload: Payload, ttl: real, now: real)
      requires Valid()
      modifies this
      ensures Valid() && history == old(history) + [Set(id, payload, ttl, now)]
      ensures store == Stored(old(store), id, payload, ttl, now)
    {
      ghost var was := store;
      store := store[id := Entry(payload, now + ttl)];
      Log(Set(id, payload, ttl, now), was);
    }

    /** True for any entry still in the dictionary, which may be one that has expired unseen. */
    method DeleteSession(id: SessionId, now: real) returns (existed: bool)
      requires Valid()
      modifies this
      ensures Valid() && history == old(history) + [Delete(id, now)]
      ensures store == old(store) - {id} && (existed <==> id in old(store))
    {
      ghost var was := store;
      existed := id in store;
      store := store - {id};
      Log(Delete(id, now), was);
    }

    /** `token` is the id that the random source yields. */
    method CreateSession(payload: Payload, ttl: real, token: SessionId, now: real) returns (id: SessionId)
      requires Valid()
      modifies this
      ensures Valid() && id == token && history == old(history) + [Set(token, payload, ttl, now)]
      ensures store == Stored(old(store), token, payload, ttl, now)
    {
      id := token;
      SetSession(id, payload, ttl, now);
    }

    method RotateSession(oldId: Option<SessionId>, payload: Payload, ttl: real, token: SessionId, now: real)
      returns (id: SessionId)
      requires Valid()
      modifies this
      ensures Valid() && id == token && history == old(history) + Rotation(oldId, token, payload, ttl, now)
      ensures store == LazyFrom(old(store), Rotation(oldId, token, payload, ttl, now))
    {
      RotationEffect(store, oldId, token, payload, ttl, now);
      if oldId.Some? && oldId.value != "" {
        var _ := DeleteSession(oldId.value, now);
      }
      id := CreateSession(payload, ttl, token, now);
    }
  }
}
