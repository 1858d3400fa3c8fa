// Any number of servers exchanging copies and resets over a network that loses, repeats and reorders:
// a message, once sent, may be delivered at any later time, any number of times, or never.
module CounterRuns {
  import opened Common
  import opened Counters

  // The counter `name` of `owner` as held by the server `at`.
  datatype Slot = Slot(at: string, owner: string, name: string)

  // A copy travels in a change message or as one entry of a push/pull state; a reset goes to the owner.
  datatype Msg =
    | Copy(owner: string, name: string, c: Counter)
    | Reset(owner: string, name: string, c: Counter)

  datatype State = State(held: map<Slot, Counter>, net: set<Msg>)

  const INIT := State(map[], {})

  // One locked region each. A push/pull is one Snapshot and one Deliver for every entry that is merged; a
  // set is a SendReset for every member that has a copy, then a FinishSet.
  datatype Label =
    | Inc(at: string, name: string, diff: real)
    | Snapshot(at: string)
    | Deliver(at: string, owner: string, name: string, c: Counter)
    | SendReset(at: string, owner: string, name: string)
    | DeliverReset(owner: string, name: string, c: Counter)
    | FinishSet(at: string, name: string, value: real)

  function Own(owner: string, name: string): Slot { Slot(owner, owner, name) }

  function Held(s: State, sl: Slot): Option<Counter> {
    if sl in s.held then Some(s.held[sl]) else None
  }

  // The owner stores a new value and broadcasts it.
  function Store(s: State, owner: string, name: string, c: Counter): State {
    State(s.held[Own(owner, name) := c], s.net + {Copy(owner, name, c)})
  }

  function Step(s: State, l: Label): State {
    match l
    case Inc(at, name, diff) => Store(s, at, name, Incremented(Held(s, Own(at, name)), diff))
    case Snapshot(at) =>
      s.(net := s.net + set sl | sl in s.held && sl.at == at :: Copy(sl.owner, sl.name, s.held[sl]))
    case Deliver(at, owner, name, c) =>
      var sl := Slot(at, owner, name);
      if Copy(owner, name, c) in s.net then s.(held := s.held[sl := Merge(Held(s, sl), c)]) else s
    case SendReset(at, owner, name) =>
      var sl := Slot(at, owner, name);
      if at != owner && sl in s.held then s.(net := s.net + {Reset(owner, name, s.held[sl])}) else s
    case DeliverReset(owner, name, c) =>
      if AcceptsReset(s, l) then Store(s, owner, name, AfterReset(s.held[Own(owner, name)], c)) else s
    case FinishSet(at, name, value) => Store(s, at, name, AfterSet(Held(s, Own(at, name)), value))
  }

  predicate AcceptsReset(s: State, l: Label) {
    l.DeliverReset? && Reset(l.owner, l.name, l.c) in s.net && Accepts(Held(s, Own(l.owner, l.name)), l.c)
  }

  // The server whose table a step may change.
  function Actor(l: Label): string {
    match l
    case DeliverReset(owner, _, _) => owner
    case _ => l.at
  }

  // The table that one server holds.
  function ViewAt(s: State, at: string): Replicas {
    map sl | sl in s.held && sl.at == at :: Key(sl.owner, sl.name) := s.held[sl]
  }

  // A step changes no table but the actor's, and that one as the operation of a single server does.
  lemma StepIsServerOperation(s: State, l: Label)
    ensures forall at :: at != Actor(l) ==> ViewAt(Step(s, l), at) == ViewAt(s, at)
    ensures var before, after := ViewAt(s, Actor(l)), ViewAt(Step(s, l), Actor(l));
      match l
      case Inc(at, name, diff) =>
        var k := Key(at, name); after == before[k := Incremented(Lookup(before, k), diff)]
      case Deliver(at, owner, name, c) =>
        Copy(owner, name, c) in s.net ==>
          var k := Key(owner, name); after == before[k := Merge(Lookup(before, k), c)]
      case DeliverReset(owner, name, c) =>
        Reset(owner, name, c) in s.net ==>
          var k := Key(owner, name); var own := Lookup(before, k);
          after == if Accepts(own, c) then before[k := AfterReset(own.value, c)] else before
      case FinishSet(at, name, value) =>
        var k := Key(at, name); after == before[k := AfterSet(Lookup(before, k), value)]
      case _ => after == before
  {
    var t := Step(s, l);
    forall at | at != Actor(l)
      ensures ViewAt(t, at) == ViewAt(s, at)
    {
      SameView(s, t, at);
    }
    match l
    case Inc(at, name, diff) => PutInView(s, t, at, Key(at, name), Incremented(Held(s, Own(at, name)), diff));
    case Deliver(at, owner, name, c) =>
      if Copy(owner, name, c) in s.net {
        PutInView(s, t, at, Key(owner, name), Merge(Held(s, Slot(at, owner, name)), c));
      }
    case DeliverReset(owner, name, c) =>
      LookupAt(s, owner);
      assert Lookup(ViewAt(s, owner), Key(owner, name)) == Held(s, Own(owner, name));
      if AcceptsReset(s, l) {
        PutInView(s, t, owner, Key(owner, name), AfterReset(s.held[Own(owner, name)], c));
      }
    case FinishSet(at, name, value) => PutInView(s, t, at, Key(at, name), AfterSet(Held(s, Own(at, name)), value));
    case _ => SameView(s, t, Actor(l));
  }

  lemma PutInView(s: State, t: State, at: string, k: Key, c: Counter)
    requires t.held == s.held[Slot(at, k.owner, k.name) := c]
    ensures ViewAt(t, at) == ViewAt(s, at)[k := c] && Lookup(ViewAt(s, at), k) == Held(s, Slot(at, k.owner, k.name))
  {
    LookupAt(s, at);
    LookupAt(t, at);
    forall j
      ensures j in ViewAt(t, at) <==> j in ViewAt(s, at)[k := c]
      ensures j in ViewAt(t, at) && j in ViewAt(s, at)[k := c] ==> ViewAt(t, at)[j] == ViewAt(s, at)[k := c][j]
    {
      assert Lookup(ViewAt(t, at), j) == Held(t, Slot(at, j.owner, j.name));
      assert Lookup(ViewAt(s, at), j) == Held(s, Slot(at, j.owner, j.name));
    }
  }

  lemma SameView(s: State, t: State, at: string)
    requires forall sl: Slot :: sl.at == at ==> Held(s, sl) == Held(t, sl)
    ensures ViewAt(t, at) == ViewAt(s, at)
  {
    LookupAt(s, at);
    LookupAt(t, at);
    forall k
      ensures k in ViewAt(t, at) <==> k in ViewAt(s, at)
      ensures k in ViewAt(t, at) && k in ViewAt(s, at) ==> ViewAt(t, at)[k] == ViewAt(s, at)[k]
    {
      assert Lookup(ViewAt(t, at), k) == Held(t, Slot(at, k.owner, k.name));
      assert Lookup(ViewAt(s, at), k) == Held(s, Slot(at, k.owner, k.name));
    }
  }

  lemma LookupAt(s: State, at: string)
    ensures forall k {:trigger Lookup(ViewAt(s, at), k)} ::
      Lookup(ViewAt(s, at), k) == Held(s, Slot(at, k.owner, k.name))
    ensures forall k {:trigger k in ViewAt(s, at)} :: k in ViewAt(s, at) <==> Slot(at, k.owner, k.name) in s.held
  {
    forall k
      ensures Lookup(ViewAt(s, at), k) == Held(s, Slot(at, k.owner, k.name))
      ensures k in ViewAt(s, at) <==> Slot(at, k.owner, k.name) in s.held
    {
      var sl := Slot(at, k.owner, k.name);
      if sl in s.held {
        assert Key(sl.owner, sl.name) == k;
        assert k in ViewAt(s, at);
      }
    }
  }

  function Exec(s: State, ls: seq<Label>): State
    decreases |ls|
  {
    if ls == [] then s else Exec(Step(s, ls[0]), ls[1..])
  }

  // No merge of the step is handed a stale copy that exceeds what is held.
  predicate Fresh(s: State, l: Label) {
    l.Deliver? && Copy(l.owner, l.name, l.c) in s.net ==>
      !StaleRaise(Held(s, Slot(l.at, l.owner, l.name)), l.c)
  }

  // The same, of merges into the copies that others hold: an owner may be handed an old copy of its own.
  predicate FreshAway(s: State, l: Label) {
    l.Deliver? && l.at != l.owner ==> Fresh(s, l)
  }

  predicate FreshRun(s: State, ls: seq<Label>)
    decreases |ls|
  {
    ls != [] ==> Fresh(s, ls[0]) && FreshRun(Step(s, ls[0]), ls[1..])
  }

  predicate FreshAwayRun(s: State, ls: seq<Label>)
    decreases |ls|
  {
    ls != [] ==> FreshAway(s, ls[0]) && FreshAwayRun(Step(s, ls[0]), ls[1..])
  }

  lemma {:induction false} FreshIsFreshAway(s: State, ls: seq<Label>)
    requires FreshRun(s, ls)
    ensures FreshAwayRun(s, ls)
    decreases |ls|
  {
    if ls == [] {
    } else {
      FreshIsFreshAway(Step(s, ls[0]), ls[1..]);
    }
  }

  // ----- Runs in pieces -----

  lemma {:induction false} ExecAppend(s: State, p: seq<Label>, q: seq<Label>)
    ensures Exec(s, p + q) == Exec(Exec(s, p), q)
    ensures FreshRun(s, p + q) <==> FreshRun(s, p) && FreshRun(Exec(s, p), q)
    ensures FreshAwayRun(s, p + q) <==> FreshAwayRun(s, p) && FreshAwayRun(Exec(s, p), q)
    decreases |p|
  {
    if p == [] {
      assert p + q == q;
    } else {
      assert (p + q)[1..] == p[1..] + q;
      ExecAppend(Step(s, p[0]), p[1..], q);
    }
  }

  // ----- Copies lag behind their owners -----

  predicate Lags(s: State, owner: string, name: string, c: Counter) {
    Own(owner, name) in s.held && Leq(c, s.held[Own(owner, name)]) && 0.0 <= c.up && 0.0 <= c.down
  }

  ghost predicate Inv(s: State) {
    (forall sl :: sl in s.held ==> Lags(s, sl.owner, sl.name, s.held[sl])) &&
    (forall m :: m in s.net ==> Lags(s, m.owner, m.name, m.c))
  }

  ghost predicate Climbs(s: State, t: State) {
    forall sl :: sl in s.held ==> sl in t.held && Leq(s.held[sl], t.held[sl])
  }

  lemma ReplaceKeepsInv(s: State, t: State, sl: Slot, c: Counter, sent: set<Msg>)
    requires Inv(s) && t == State(s.held[sl := c], s.net + sent)
    requires sl in s.held ==> Leq(s.held[sl], c)
    requires Lags(t, sl.owner, sl.name, c)
    requires forall m :: m in sent ==> m.owner == sl.owner && m.name == sl.name && m.c == c
    ensures Inv(t) && Climbs(s, t)
  {
    forall owner, name, d | Lags(s, owner, name, d)
      ensures Lags(t, owner, name, d)
    {
      if Own(owner, name) == sl {
        LeqTransitive(d, s.held[sl], c);
      }
    }
    assert forall x :: x in t.held ==> x == sl || x in s.held;
  }

  lemma StepKeepsInv(s: State, l: Label)
    requires Inv(s) && FreshAway(s, l)
    ensures Inv(Step(s, l)) && Climbs(s, Step(s, l))
  {
    var t := Step(s, l);
    match l
    case Inc(at, name, diff) =>
      var c := t.held[Own(at, name)];
      ReplaceKeepsInv(s, t, Own(at, name), c, {Copy(at, name, c)});
    case Snapshot(at) =>
    case Deliver(at, owner, name, c) =>
      if Copy(owner, name, c) in s.net {
        ReplaceKeepsInv(s, t, Slot(at, owner, name), t.held[Slot(at, owner, name)], {});
      }
    case SendReset(at, owner, name) =>
    case DeliverReset(owner, name, c) =>
      if AcceptsReset(s, l) {
        assert Lags(s, owner, name, c);
        var d := t.held[Own(owner, name)];
        ReplaceKeepsInv(s, t, Own(owner, name), d, {Copy(owner, name, d)});
      }
    case FinishSet(at, name, value) =>
      var c := t.held[Own(at, name)];
      ReplaceKeepsInv(s, t, Own(at, name), c, {Copy(at, name, c)});
  }

  // In every run without stale raises away from the owners, every copy and message lags behind its owner, no
  // part of a counter is negative, and every stored counter only climbs.
  lemma {:induction false} RunKeepsInv(s: State, ls: seq<Label>)
    requires Inv(s) && FreshAwayRun(s, ls)
    ensures Inv(Exec(s, ls)) && Climbs(s, Exec(s, ls))
    decreases |ls|
  {
    if ls == [] {
    } else {
      StepKeepsInv(s, ls[0]);
      RunKeepsInv(Step(s, ls[0]), ls[1..]);
      var m, t := Step(s, ls[0]), Exec(s, ls);
      forall sl | sl in s.held
        ensures sl in t.held && Leq(s.held[sl], t.held[sl])
      {
        LeqTransitive(s.held[sl], m.held[sl], t.held[sl]);
      }
    }
  }

  // So an accepted reset never subtracts more than is there.
  lemma {:induction false} ResetsNeverOverdraw(ls: seq<Label>, l: Label)
    requires FreshAwayRun(INIT, ls)
    requires AcceptsReset(Exec(INIT, ls), l)
    ensures var own := Exec(INIT, ls).held[Own(l.owner, l.name)];
      0.0 <= l.c.up <= own.up && 0.0 <= l.c.down <= own.down
  {
    RunKeepsInv(INIT, ls);
    assert Lags(Exec(INIT, ls), l.owner, l.name, l.c);
  }

  // What the premise excludes: one delivery breaks the lag exactly when it is to another server than the
  // owner, the copy is of an older revision, the held one is as new as the owner's, and the copy exceeds the
  // owner. An owner that is handed an old copy of its own only climbs.
  lemma DeliverKeepsInvIff(s: State, at: string, owner: string, name: string, c: Counter)
    requires Inv(s) && Copy(owner, name, c) in s.net
    ensures var own := s.held[Own(owner, name)];
      Inv(Step(s, Deliver(at, owner, name, c))) <==>
      !(at != owner && Slot(at, owner, name) in s.held && c.rev < s.held[Slot(at, owner, name)].rev == own.rev
        && (c.up > own.up || c.down > own.down))
  {
    assert Lags(s, owner, name, c);
    if at == owner {
      StepKeepsInv(s, Deliver(at, owner, name, c));
    } else {
      DeliverAwayKeepsInvIff(s, at, owner, name, c);
    }
  }

  lemma DeliverAwayKeepsInvIff(s: State, at: string, owner: string, name: string, c: Counter)
    requires Inv(s) && at != owner && Copy(owner, name, c) in s.net && Lags(s, owner, name, c)
    ensures var own := s.held[Own(owner, name)];
      Inv(Step(s, Deliver(at, owner, name, c))) <==>
      !(Slot(at, owner, name) in s.held && c.rev < s.held[Slot(at, owner, name)].rev == own.rev
        && (c.up > own.up || c.down > own.down))
  {
    var l, sl := Deliver(at, owner, name, c), Slot(at, owner, name);
    var t, own := Step(s, l), s.held[Own(owner, name)];
    if sl in s.held {
      assert Lags(s, owner, name, s.held[sl]);
    }
    assert t.held[Own(owner, name)] == own;
    if Lags(t, owner, name, t.held[sl]) {
      forall o, n, d | Lags(s, o, n, d)
        ensures Lags(t, o, n, d)
      {
        assert Own(o, n) != sl;
      }
      assert forall x :: x in t.held ==> x == sl || x in s.held;
      assert Inv(t);
    } else {
      assert sl in t.held;
    }
  }

  // ----- What goes wrong without the premises -----

  lemma {:induction false} FourSteps(s: State, k: Label, l: Label, m: Label, n: Label)
    ensures Exec(s, [k, l, m, n]) == Step(Step(Step(Step(s, k), l), m), n)
    ensures FreshAwayRun(s, [k, l, m, n]) <==>
      FreshAway(s, k) && FreshAway(Step(s, k), l) && FreshAway(Step(Step(s, k), l), m)
      && FreshAway(Step(Step(Step(s, k), l), m), n)
  {
    TwoSteps(s, k, l);
    TwoSteps(Step(Step(s, k), l), m, n);
    assert [k, l, m, n] == [k, l] + [m, n];
    ExecAppend(s, [k, l], [m, n]);
  }

  lemma {:induction false} TwoSteps(s: State, k: Label, l: Label)
    ensures Exec(s, [k, l]) == Step(Step(s, k), l)
    ensures FreshAwayRun(s, [k, l]) <==> FreshAway(s, k) && FreshAway(Step(s, k), l)
  {
    OneStep(s, k);
    OneStep(Step(s, k), l);
    assert [k, l] == [k] + [l];
    ExecAppend(s, [k], [l]);
  }

  lemma {:induction false} OneStep(s: State, l: Label)
    ensures Exec(s, [l]) == Step(s, l) && (FreshAwayRun(s, [l]) <==> FreshAway(s, l))
  {
    assert [l][1..] == [];
  }

  // b counts 5, a sees it and has b reset.
  function SeenAndReset(a: string, b: string, n: string): seq<Label> {
    var first := Counter(5.0, 0.0, 0);
    [Inc(b, n, 5.0), Deliver(a, b, n, first), SendReset(a, b, n), DeliverReset(b, n, first)]
  }

  // The state that this leads to, with the old copy still on the network.
  predicate IsReset(s: State, a: string, b: string, n: string) {
    var first, reset := Counter(5.0, 0.0, 0), Counter(0.0, 0.0, 1);
    && s.held == map[Own(b, n) := reset, Slot(a, b, n) := first]
    && Copy(b, n, first) in s.net && Copy(b, n, reset) in s.net
  }

  lemma {:induction false} AfterSeenAndReset(a: string, b: string, n: string)
    requires a != b
    ensures IsReset(Exec(INIT, SeenAndReset(a, b, n)), a, b, n) && FreshAwayRun(INIT, SeenAndReset(a, b, n))
  {
    var ls, own, at, first := SeenAndReset(a, b, n), Own(b, n), Slot(a, b, n), Counter(5.0, 0.0, 0);
    var s1 := Step(INIT, ls[0]);
    assert s1.held == map[own := first] && Copy(b, n, first) in s1.net;
    var s2 := Step(s1, ls[1]);
    assert s2.held == map[own := first, at := first] && Copy(b, n, first) in s2.net;
    var s3 := Step(s2, ls[2]);
    assert s3.held == s2.held && Copy(b, n, first) in s3.net && Reset(b, n, first) in s3.net;
    var s4 := Step(s3, ls[3]);
    assert s4.held == map[own := Counter(0.0, 0.0, 1), at := first];
    FourSteps(INIT, ls[0], ls[1], ls[2], ls[3]);
  }

  // The new revision and then the old copy reach a, which sends another reset.
  function RaisedAndReset(a: string, b: string, n: string): seq<Label> {
    [Deliver(a, b, n, Counter(0.0, 0.0, 1)), Deliver(a, b, n, Counter(5.0, 0.0, 0)),
     SendReset(a, b, n), DeliverReset(b, n, Counter(5.0, 0.0, 1))]
  }

  lemma {:induction false} AfterRaisedAndReset(s: State, a: string, b: string, n: string)
    requires a != b && IsReset(s, a, b, n)
    ensures Held(Exec(s, RaisedAndReset(a, b, n)), Own(b, n)) == Some(Counter(-5.0, 0.0, 2))
    ensures !FreshAwayRun(s, RaisedAndReset(a, b, n))
  {
    var ls, own, at := RaisedAndReset(a, b, n), Own(b, n), Slot(a, b, n);
    var reset, raised := Counter(0.0, 0.0, 1), Counter(5.0, 0.0, 1);
    var s1 := Step(s, ls[0]);
    assert s1.held == map[own := reset, at := reset] && s1.net == s.net;
    var s2 := Step(s1, ls[1]);
    assert s2.held == map[own := reset, at := raised] && !FreshAway(s1, ls[1]);
    var s3 := Step(s2, ls[2]);
    assert s3.held == s2.held && Reset(b, n, raised) in s3.net;
    FourSteps(s, ls[0], ls[1], ls[2], ls[3]);
  }

  // A late copy of an old revision undoes a reset at a, and a's next reset then takes from b what b no longer
  // has.
  lemma {:induction false} StaleRaiseOverdraws(a: string, b: string, n: string)
    requires a != b
    ensures var ls := SeenAndReset(a, b, n) + RaisedAndReset(a, b, n);
      !FreshAwayRun(INIT, ls) && Held(Exec(INIT, ls), Own(b, n)) == Some(Counter(-5.0, 0.0, 2))
  {
    var p, q := SeenAndReset(a, b, n), RaisedAndReset(a, b, n);
    AfterSeenAndReset(a, b, n);
    AfterRaisedAndReset(Exec(INIT, p), a, b, n);
    ExecAppend(INIT, p, q);
  }

  // a ends its set at 0, and then the old copy comes back to b by a push/pull.
  function SetAndUndone(a: string, b: string, n: string): seq<Label> {
    [FinishSet(a, n, 0.0), Deliver(b, b, n, Counter(5.0, 0.0, 0))]
  }

  lemma {:induction false} AfterSetAndUndone(s: State, a: string, b: string, n: string)
    requires a != b && IsReset(s, a, b, n)
    ensures FreshAwayRun(s, SetAndUndone(a, b, n))
    ensures var t := Exec(s, SetAndUndone(a, b, n));
      Held(t, Own(b, n)) == Some(Counter(5.0, 0.0, 1)) && Held(t, Own(a, n)) == Some(Counter(0.0, 0.0, 0))
  {
    var ls := SetAndUndone(a, b, n);
    var t := Step(s, ls[0]);
    assert Held(t, Own(b, n)) == Some(Counter(0.0, 0.0, 1)) && Copy(b, n, Counter(5.0, 0.0, 0)) in t.net;
    TwoSteps(s, ls[0], ls[1]);
  }

  // At the owner an old copy breaks no invariant, and still undoes a reset: though b accepted the reset that
  // a sent, the two hold 5 after a set to 0.
  lemma {:induction false} StaleRaiseAtOwnerUndoesSet(a: string, b: string, n: string)
    requires a != b
    ensures var ls := SeenAndReset(a, b, n) + SetAndUndone(a, b, n); var t := Exec(INIT, ls);
      && FreshAwayRun(INIT, ls) && Inv(t)
      && EachAccepted(Accepted(INIT, ls, n), map[b := Counter(5.0, 0.0, 0)])
      && Total(t, {a, b}, n) == 5.0
  {
    var p, q := SeenAndReset(a, b, n), SetAndUndone(a, b, n);
    AfterSeenAndReset(a, b, n);
    AfterSetAndUndone(Exec(INIT, p), a, b, n);
    ExecAppend(INIT, p, q);
    RunKeepsInv(INIT, p + q);
    AcceptedHere(a, b, n);
    var vals := OwnValues(Exec(INIT, p + q), {a, b}, n);
    SumTakeOut(vals, a);
    SumTakeOut(vals - {a}, b);
    assert vals - {a} - {b} == map[];
  }

  lemma {:induction false} AcceptedHere(a: string, b: string, n: string)
    requires a != b
    ensures Accepted(INIT, SeenAndReset(a, b, n) + SetAndUndone(a, b, n), n) == [(b, Counter(5.0, 0.0, 0))]
  {
    var p, q, first := SeenAndReset(a, b, n), SetAndUndone(a, b, n), Counter(5.0, 0.0, 0);
    AcceptedAppend(INIT, p, q, n);
    assert p == p[..3] + [p[3]] && p[..3] == [p[0], p[1], p[2]];
    AcceptedAppend(INIT, p[..3], [p[3]], n);
    ExecAppend(INIT, p[..3], [p[3]]);
    NoneAccepted(INIT, p[..3], n);
    NoneAccepted(Exec(INIT, p), q, n);
    BeforeReset(a, b, n);
    assert [p[3]][1..] == [];
  }

  lemma {:induction false} BeforeReset(a: string, b: string, n: string)
    requires a != b
    ensures var p := SeenAndReset(a, b, n); AcceptsReset(Exec(INIT, p[..3]), p[3])
  {
    var p, first := SeenAndReset(a, b, n), Counter(5.0, 0.0, 0);
    var s1 := Step(INIT, p[0]);
    assert s1.held == map[Own(b, n) := first] && Copy(b, n, first) in s1.net;
    var s2 := Step(s1, p[1]);
    assert Held(s2, Own(b, n)) == Some(first) && Held(s2, Slot(a, b, n)) == Some(first);
    TwoSteps(INIT, p[0], p[1]);
    assert p[..3] == [p[0], p[1]] + [p[2]] && [p[2]][1..] == [];
    ExecAppend(INIT, [p[0], p[1]], [p[2]]);
  }

  // ----- Resets take effect at most once -----

  // The resets of counter `name` that their owners accept along a run.
  function Accepted(s: State, ls: seq<Label>, name: string): seq<(string, Counter)>
    decreases |ls|
  {
    if ls == [] then []
    else
      (if AcceptsReset(s, ls[0]) && ls[0].name == name then [(ls[0].owner, ls[0].c)] else [])
      + Accepted(Step(s, ls[0]), ls[1..], name)
  }

  lemma {:induction false} AcceptedAppend(s: State, p: seq<Label>, q: seq<Label>, name: string)
    ensures Accepted(s, p + q, name) == Accepted(s, p, name) + Accepted(Exec(s, p), q, name)
    decreases |p|
  {
    if p == [] {
      assert p + q == q;
    } else {
      assert (p + q)[1..] == p[1..] + q;
      AcceptedAppend(Step(s, p[0]), p[1..], q, name);
    }
  }

  lemma {:induction false} NoneAccepted(s: State, ls: seq<Label>, name: string)
    requires forall l :: l in ls ==> !l.DeliverReset?
    ensures Accepted(s, ls, name) == []
    decreases |ls|
  {
    if ls == [] {
    } else {
      assert ls[0] in ls;
      NoneAccepted(Step(s, ls[0]), ls[1..], name);
    }
  }

  // In any run at all, accepted resets are of the owner's current revision or later ones.
  lemma {:induction false} AcceptedAreCurrent(s: State, ls: seq<Label>, name: string, i: nat)
    requires i < |Accepted(s, ls, name)|
    ensures var (o, c) := Accepted(s, ls, name)[i];
      Own(o, name) in s.held ==> s.held[Own(o, name)].rev <= c.rev
    decreases |ls|
  {
    var here := AcceptsReset(s, ls[0]) && ls[0].name == name;
    if here && i == 0 {
    } else {
      AcceptedAreCurrent(Step(s, ls[0]), ls[1..], name, if here then i - 1 else i);
    }
  }

  // Two accepted resets of the same counter are of different revisions, the later one of the higher: a
  // duplicate, and a racing reset at the same revision, is ignored. No premise on the run is needed.
  lemma {:induction false} AcceptedAtMostOnce(s: State, ls: seq<Label>, name: string, i: nat, j: nat)
    requires i < j < |Accepted(s, ls, name)|
    requires Accepted(s, ls, name)[i].0 == Accepted(s, ls, name)[j].0
    ensures Accepted(s, ls, name)[i].1.rev < Accepted(s, ls, name)[j].1.rev
    decreases |ls|
  {
    var here := AcceptsReset(s, ls[0]) && ls[0].name == name;
    var t := Step(s, ls[0]);
    if here && i == 0 {
      AcceptedAreCurrent(t, ls[1..], name, j - 1);
    } else {
      AcceptedAtMostOnce(t, ls[1..], name, if here then i - 1 else i, if here then j - 1 else j);
    }
  }

  // ----- Conservation -----

  function OwnValue(s: State, o: string, name: string): real {
    if Own(o, name) in s.held then s.held[Own(o, name)].Value() else 0.0
  }

  function OwnValues(s: State, owners: set<string>, name: string): map<string, real> {
    map o | o in owners :: OwnValue(s, o, name)
  }

  // What the owners together have counted.
  ghost function Total(s: State, owners: set<string>, name: string): real {
    Sum(OwnValues(s, owners, name))
  }

  // What one step is meant to add to that.
  function Delta(s: State, l: Label, owners: set<string>, name: string): real {
    match l
    case Inc(at, n, diff) => if n == name && at in owners then diff else 0.0
    case DeliverReset(o, n, c) => if AcceptsReset(s, l) && n == name && o in owners then -c.Value() else 0.0
    case FinishSet(at, n, v) => if n == name && at in owners then v - OwnValue(s, at, name) else 0.0
    case _ => 0.0
  }

  function Ledger(s: State, ls: seq<Label>, owners: set<string>, name: string): real
    decreases |ls|
  {
    if ls == [] then 0.0
    else Delta(s, ls[0], owners, name) + Ledger(Step(s, ls[0]), ls[1..], owners, name)
  }

  // What an owner takes back from a copy of its own counter that it is handed.
  function Restored(s: State, l: Label, owners: set<string>, name: string): real {
    if l.Deliver? && l.at == l.owner && l.name == name && l.owner in owners
    then OwnValue(Step(s, l), l.owner, name) - OwnValue(s, l.owner, name)
    else 0.0
  }

  function RestoredIn(s: State, ls: seq<Label>, owners: set<string>, name: string): real
    decreases |ls|
  {
    if ls == [] then 0.0
    else Restored(s, ls[0], owners, name) + RestoredIn(Step(s, ls[0]), ls[1..], owners, name)
  }

  lemma StepLedger(s: State, l: Label, owners: set<string>, name: string)
    ensures Total(Step(s, l), owners, name)
         == Total(s, owners, name) + Delta(s, l, owners, name) + Restored(s, l, owners, name)
  {
    var t := Step(s, l);
    var actor := match l
      case Inc(at, n, _) => at
      case DeliverReset(o, n, _) => o
      case FinishSet(at, n, _) => at
      case Deliver(at, o, n, _) => at
      case _ => "";
    forall o | o != actor
      ensures OwnValue(t, o, name) == OwnValue(s, o, name)
    {
    }
    OneOwnerChanges(s, t, owners, name, actor);
    assert OwnValue(t, actor, name) - OwnValue(s, actor, name)
        == Delta(s, l, {actor}, name) + Restored(s, l, {actor}, name);
  }

  // An old copy of its own that an owner takes something back from.
  predicate Undoes(s: State, l: Label, owners: set<string>, name: string) {
    && l.Deliver? && Copy(l.owner, l.name, l.c) in s.net && l.name == name && l.at == l.owner && l.owner in owners
    && Own(l.owner, name) in s.held
    && var own := s.held[Own(l.owner, name)];
      l.c.rev < own.rev && Max(own.up, l.c.up) - own.up != Max(own.down, l.c.down) - own.down
  }

  // A step books exactly what it is meant to, unless it hands an owner an old copy of its own that exceeds
  // what the owner has by different amounts in Up and in Down.
  lemma StepConservesIff(s: State, l: Label, owners: set<string>, name: string)
    requires Inv(s)
    ensures Total(Step(s, l), owners, name) == Total(s, owners, name) + Delta(s, l, owners, name)
      <==> !Undoes(s, l, owners, name)
  {
    StepLedger(s, l, owners, name);
    RestoredIs(s, l, owners, name);
  }

  // By how much a copy exceeds what the owner has.
  function Excess(own: Counter, c: Counter): real {
    (Max(own.up, c.up) - own.up) - (Max(own.down, c.down) - own.down)
  }

  // What is restored is what an old copy exceeds the owner by, and nothing is by any other delivery.
  lemma RestoredIs(s: State, l: Label, owners: set<string>, name: string)
    requires Inv(s)
    ensures Restored(s, l, owners, name) ==
      if Undoes(s, l, owners, name) then Excess(s.held[Own(l.owner, name)], l.c) else 0.0
    ensures Restored(s, l, owners, name) == 0.0 <==> !Undoes(s, l, owners, name)
  {
    if l.Deliver? && l.at == l.owner && Copy(l.owner, l.name, l.c) in s.net {
      assert Lags(s, l.owner, l.name, l.c);
    }
  }

  lemma OneOwnerChanges(s: State, t: State, owners: set<string>, name: string, actor: string)
    requires forall o :: o != actor ==> OwnValue(t, o, name) == OwnValue(s, o, name)
    ensures Total(t, owners, name) == Total(s, owners, name) +
      if actor in owners then OwnValue(t, actor, name) - OwnValue(s, actor, name) else 0.0
  {
    if actor in owners {
      assert OwnValues(t, owners, name) == OwnValues(s, owners, name)[actor := OwnValue(t, actor, name)];
      SumPut(OwnValues(s, owners, name), actor, OwnValue(t, actor, name));
    } else {
      assert OwnValues(t, owners, name) == OwnValues(s, owners, name);
    }
  }

  // Over every run whatsoever, what the owners hold changes by what is booked and what is restored.
  lemma {:induction false} RunLedger(s: State, ls: seq<Label>, owners: set<string>, name: string)
    ensures Total(Exec(s, ls), owners, name)
         == Total(s, owners, name) + Ledger(s, ls, owners, name) + RestoredIn(s, ls, owners, name)
    decreases |ls|
  {
    if ls == [] {
    } else {
      StepLedger(s, ls[0], owners, name);
      RunLedger(Step(s, ls[0]), ls[1..], owners, name);
    }
  }

  predicate UndoesIn(s: State, ls: seq<Label>, owners: set<string>, name: string)
    decreases |ls|
  {
    ls != [] && (Undoes(s, ls[0], owners, name) || UndoesIn(Step(s, ls[0]), ls[1..], owners, name))
  }

  lemma {:induction false} NothingRestored(s: State, ls: seq<Label>, owners: set<string>, name: string)
    requires Inv(s) && FreshAwayRun(s, ls) && !UndoesIn(s, ls, owners, name)
    ensures RestoredIn(s, ls, owners, name) == 0.0
    decreases |ls|
  {
    if ls == [] {
    } else {
      RestoredIs(s, ls[0], owners, name);
      StepKeepsInv(s, ls[0]);
      NothingRestored(Step(s, ls[0]), ls[1..], owners, name);
    }
  }

  // Neither the increments of a counter nor the values set for it are negative.
  predicate OnlyUp(ls: seq<Label>, name: string) {
    && (forall l :: l in ls && l.Inc? && l.name == name ==> l.diff >= 0.0)
    && (forall l :: l in ls && l.FinishSet? && l.name == name ==> l.value >= 0.0)
  }

  ghost predicate NothingDown(s: State, name: string) {
    && (forall sl :: sl in s.held && sl.name == name ==> s.held[sl].down == 0.0)
    && (forall m :: m in s.net && m.name == name ==> m.c.down == 0.0)
  }

  lemma {:induction false} OnlyUpKeepsDownZero(s: State, ls: seq<Label>, name: string)
    requires OnlyUp(ls, name) && NothingDown(s, name)
    ensures NothingDown(Exec(s, ls), name)
    decreases |ls|
  {
    if ls == [] {
    } else {
      assert ls[0] in ls;
      StepKeepsDownZero(s, ls[0], name);
      OnlyUpKeepsDownZero(Step(s, ls[0]), ls[1..], name);
    }
  }

  lemma StepKeepsDownZero(s: State, l: Label, name: string)
    requires NothingDown(s, name)
    requires l.Inc? && l.name == name ==> l.diff >= 0.0
    requires l.FinishSet? && l.name == name ==> l.value >= 0.0
    ensures NothingDown(Step(s, l), name)
  {}

  // Then what old copies restore does not cancel out.
  lemma {:induction false} RestoredNothingIff(s: State, ls: seq<Label>, owners: set<string>, name: string)
    requires Inv(s) && FreshAwayRun(s, ls) && NothingDown(s, name) && OnlyUp(ls, name)
    ensures RestoredIn(s, ls, owners, name) >= 0.0
    ensures RestoredIn(s, ls, owners, name) == 0.0 <==> !UndoesIn(s, ls, owners, name)
    decreases |ls|
  {
    if ls == [] {
    } else {
      assert ls[0] in ls;
      RestoredIs(s, ls[0], owners, name);
      StepKeepsInv(s, ls[0]);
      StepKeepsDownZero(s, ls[0], name);
      RestoredNothingIff(Step(s, ls[0]), ls[1..], owners, name);
    }
  }

  lemma {:induction false} FreshUndoesNothing(s: State, ls: seq<Label>, owners: set<string>, name: string)
    requires FreshRun(s, ls)
    ensures !UndoesIn(s, ls, owners, name)
    decreases |ls|
  {
    if ls == [] {
    } else {
      FreshUndoesNothing(Step(s, ls[0]), ls[1..], owners, name);
    }
  }

  // The increments that some owners make.
  function Increments(ls: seq<Label>, owners: set<string>, name: string): real
    decreases |ls|
  {
    if ls == [] then 0.0
    else
      (if ls[0].Inc? && ls[0].name == name && ls[0].at in owners then ls[0].diff else 0.0)
      + Increments(ls[1..], owners, name)
  }

  function ValueOf(resets: seq<(string, Counter)>, owners: set<string>): real
    decreases |resets|
  {
    if resets == [] then 0.0
    else (if resets[0].0 in owners then resets[0].1.Value() else 0.0) + ValueOf(resets[1..], owners)
  }

  predicate NoSetBy(ls: seq<Label>, owners: set<string>, name: string) {
    forall l :: l in ls ==> !(l.FinishSet? && l.name == name && l.at in owners)
  }

  lemma {:induction false} LedgerWithoutSets(s: State, ls: seq<Label>, owners: set<string>, name: string)
    requires NoSetBy(ls, owners, name)
    ensures Ledger(s, ls, owners, name)
         == Increments(ls, owners, name) - ValueOf(Accepted(s, ls, name), owners)
    decreases |ls|
  {
    if ls == [] {
    } else {
      assert ls[0] in ls;
      assert NoSetBy(ls[1..], owners, name);
      LedgerWithoutSets(Step(s, ls[0]), ls[1..], owners, name);
      var rest := Accepted(Step(s, ls[0]), ls[1..], name);
      if AcceptsReset(s, ls[0]) && ls[0].name == name {
        var (o, c) := (ls[0].owner, ls[0].c);
        assert ([(o, c)] + rest)[1..] == rest;
      } else {
        assert [] + rest == rest;
      }
    }
  }

  // Whatever happens before a set at a ends, the owners then hold the value set plus what the others held,
  // what they counted meanwhile and took back, less what their accepted resets took.
  lemma {:induction false} SetLedger(s: State, mid: seq<Label>, a: string, others: set<string>, name: string, v: real)
    requires a !in others && NoSetBy(mid, others, name)
    ensures Total(Step(Exec(s, mid), FinishSet(a, name, v)), others + {a}, name)
         == v + Total(s, others, name) + Increments(mid, others, name)
            - ValueOf(Accepted(s, mid, name), others) + RestoredIn(s, mid, others, name)
  {
    RunLedger(s, mid, others, name);
    LedgerWithoutSets(s, mid, others, name);
    var t := Exec(s, mid);
    var u := Step(t, FinishSet(a, name, v));
    assert OwnValue(u, a, name) == v;
    assert forall o :: o in others ==> OwnValue(u, o, name) == OwnValue(t, o, name);
    var vals := OwnValues(u, others + {a}, name);
    SumTakeOut(vals, a);
    assert vals - {a} == OwnValues(t, others, name);
  }

  // A run with a set at a in it: the resets are sent and accepted anywhere in the run.
  function SetRun(mid: seq<Label>, a: string, name: string, v: real, after: seq<Label>): seq<Label> {
    mid + ([FinishSet(a, name, v)] + after)
  }

  lemma {:induction false} SetRunParts(s: State, mid: seq<Label>, a: string, name: string, v: real, after: seq<Label>)
    ensures var u := Step(Exec(s, mid), FinishSet(a, name, v)); var whole := SetRun(mid, a, name, v, after);
      && Exec(s, whole) == Exec(u, after)
      && Accepted(s, whole, name) == Accepted(s, mid, name) + Accepted(u, after, name)
      && (FreshRun(s, whole) <==> FreshRun(s, mid) && FreshRun(u, after))
      && (FreshAwayRun(s, whole) <==> FreshAwayRun(s, mid) && FreshAwayRun(u, after))
  {
    var rest := [FinishSet(a, name, v)] + after;
    assert rest[1..] == after;
    ExecAppend(s, mid, rest);
    AcceptedAppend(s, mid, rest, name);
    var more := Accepted(Step(Exec(s, mid), FinishSet(a, name, v)), after, name);
    assert [] + more == more;
  }

  // Each reset is accepted, and no other: every accepted one is among those sent, and every one sent is
  // accepted.
  predicate EachAccepted(resets: seq<(string, Counter)>, sent: map<string, Counter>) {
    (forall r :: r in resets ==> r.0 in sent && sent[r.0] == r.1) &&
    (forall b :: b in sent ==> (b, sent[b]) in resets)
  }

  // What owner b holds beyond the copy sent to it.
  function Unseen(s: State, sent: map<string, Counter>, b: string, name: string): real {
    OwnValue(s, b, name) - (if b in sent then sent[b].Value() else 0.0)
  }

  // What owners take back in the course of a set.
  function RestoredAround(s: State, mid: seq<Label>, a: string, others: set<string>, name: string, v: real,
                          after: seq<Label>): real
  {
    RestoredIn(s, mid, others, name)
    + RestoredIn(Step(Exec(s, mid), FinishSet(a, name, v)), after, others + {a}, name)
  }

  // A set whose resets are each accepted at some time, before or after its end, whenever the copies in them
  // were read: the owners end with the value set, plus what each other owner held beyond the copy sent to it,
  // plus what was counted since, plus what was restored. This holds of every run.
  lemma {:induction false} SetBooksUnseenWork(s: State, mid: seq<Label>, a: string, others: set<string>, name: string,
                                              v: real, after: seq<Label>, sent: map<string, Counter>)
    requires a !in others && sent.Keys <= others
    requires NoSetBy(mid, others, name) && NoSetBy(after, others + {a}, name)
    requires EachAccepted(Accepted(s, SetRun(mid, a, name, v, after), name), sent)
    ensures Total(Exec(s, SetRun(mid, a, name, v, after)), others + {a}, name)
         == v + Sum(map b | b in others :: Unseen(s, sent, b, name))
            + Increments(mid, others, name) + Increments(after, others + {a}, name)
            + RestoredAround(s, mid, a, others, name, v, after)
  {
    var u := Step(Exec(s, mid), FinishSet(a, name, v));
    var before, later := Accepted(s, mid, name), Accepted(u, after, name);
    SetRunParts(s, mid, a, name, v, after);
    SetLedger(s, mid, a, others, name, v);
    RunLedger(u, after, others + {a}, name);
    LedgerWithoutSets(u, after, others + {a}, name);
    ValueOfAppend(before, later, others);
    ValueOfWider(later, others, others + {a}, sent);
    SentSum(s, SetRun(mid, a, name, v, after), others, name, sent);
  }

  // So it conserves the work that a had not seen if no owner takes something back from an old copy of this
  // counter of its own,
  lemma {:induction false} SetConservesUnseenWork(s: State, mid: seq<Label>, a: string, others: set<string>,
                                                  name: string, v: real, after: seq<Label>,
                                                  sent: map<string, Counter>)
    requires Inv(s) && FreshAwayRun(s, SetRun(mid, a, name, v, after)) && a !in others && sent.Keys <= others
    requires NoSetBy(mid, others, name) && NoSetBy(after, others + {a}, name)
    requires EachAccepted(Accepted(s, SetRun(mid, a, name, v, after), name), sent)
    requires !UndoesIn(s, mid, others, name)
    requires !UndoesIn(Step(Exec(s, mid), FinishSet(a, name, v)), after, others + {a}, name)
    ensures Total(Exec(s, SetRun(mid, a, name, v, after)), others + {a}, name)
         == v + Sum(map b | b in others :: Unseen(s, sent, b, name))
            + Increments(mid, others, name) + Increments(after, others + {a}, name)
  {
    var t := Exec(s, mid);
    var u := Step(t, FinishSet(a, name, v));
    SetRunParts(s, mid, a, name, v, after);
    RunKeepsInv(s, mid);
    StepKeepsInv(t, FinishSet(a, name, v));
    NothingRestored(s, mid, others, name);
    NothingRestored(u, after, others + {a}, name);
    SetBooksUnseenWork(s, mid, a, others, name, v, after, sent);
  }

  // and where nothing negative is counted or set, only then: one such delivery is enough to lose the balance.
  lemma {:induction false} SetConservesIff(s: State, mid: seq<Label>, a: string, others: set<string>, name: string,
                                           v: real, after: seq<Label>, sent: map<string, Counter>)
    requires Inv(s) && FreshAwayRun(s, SetRun(mid, a, name, v, after)) && a !in others && sent.Keys <= others
    requires NoSetBy(mid, others, name) && NoSetBy(after, others + {a}, name)
    requires EachAccepted(Accepted(s, SetRun(mid, a, name, v, after), name), sent)
    requires NothingDown(s, name) && OnlyUp(SetRun(mid, a, name, v, after), name)
    ensures Total(Exec(s, SetRun(mid, a, name, v, after)), others + {a}, name)
         == v + Sum(map b | b in others :: Unseen(s, sent, b, name))
            + Increments(mid, others, name) + Increments(after, others + {a}, name)
      <==> !UndoesIn(s, mid, others, name)
           && !UndoesIn(Step(Exec(s, mid), FinishSet(a, name, v)), after, others + {a}, name)
  {
    var t := Exec(s, mid);
    var u := Step(t, FinishSet(a, name, v));
    SetRunParts(s, mid, a, name, v, after);
    SetRunOnlyUp(mid, a, name, v, after);
    RunKeepsInv(s, mid);
    StepKeepsInv(t, FinishSet(a, name, v));
    OnlyUpKeepsDownZero(s, mid, name);
    StepKeepsDownZero(t, FinishSet(a, name, v), name);
    RestoredNothingIff(s, mid, others, name);
    RestoredNothingIff(u, after, others + {a}, name);
    SetBooksUnseenWork(s, mid, a, others, name, v, after, sent);
  }

  lemma {:induction false} SetRunOnlyUp(mid: seq<Label>, a: string, name: string, v: real, after: seq<Label>)
    requires OnlyUp(SetRun(mid, a, name, v, after), name)
    ensures OnlyUp(mid, name) && OnlyUp(after, name) && v >= 0.0
  {
    var whole := SetRun(mid, a, name, v, after);
    assert whole[|mid|] == FinishSet(a, name, v);
    assert forall l :: l in mid || l in after ==> l in whole;
  }

  lemma {:induction false} ValueOfAppend(p: seq<(string, Counter)>, q: seq<(string, Counter)>, owners: set<string>)
    ensures ValueOf(p + q, owners) == ValueOf(p, owners) + ValueOf(q, owners)
    decreases |p|
  {
    if p == [] {
      assert p + q == q;
    } else {
      assert (p + q)[1..] == p[1..] + q;
      ValueOfAppend(p[1..], q, owners);
    }
  }

  lemma {:induction false} ValueOfWider(resets: seq<(string, Counter)>, owners: set<string>, wider: set<string>,
                                        sent: map<string, Counter>)
    requires owners <= wider && sent.Keys <= owners && forall r :: r in resets ==> r.0 in sent
    ensures ValueOf(resets, wider) == ValueOf(resets, owners)
    decreases |resets|
  {
    if resets == [] {
    } else {
      assert resets[0] in resets;
      ValueOfWider(resets[1..], owners, wider, sent);
    }
  }

  lemma {:induction false} SentSum(s: State, ls: seq<Label>, others: set<string>, name: string,
                                   sent: map<string, Counter>)
    requires sent.Keys <= others && EachAccepted(Accepted(s, ls, name), sent)
    ensures Total(s, others, name) - ValueOf(Accepted(s, ls, name), others)
         == Sum(map b | b in others :: Unseen(s, sent, b, name))
  {
    var resets := Accepted(s, ls, name);
    forall i, j | 0 <= i < j < |resets|
      ensures resets[i].0 != resets[j].0
    {
      assert resets[i] in resets && resets[j] in resets;
      if resets[i].0 == resets[j].0 {
        AcceptedAtMostOnce(s, ls, name, i, j);
      }
    }
    var copies := map b | b in others :: if b in sent then sent[b].Value() else 0.0;
    EachOnce(resets, sent, others, copies);
    SumMinus(OwnValues(s, others, name), copies, map b | b in others :: Unseen(s, sent, b, name));
  }

  lemma {:induction false} EachOnce(resets: seq<(string, Counter)>, sent: map<string, Counter>,
                                    others: set<string>, copies: map<string, real>)
    requires sent.Keys <= others == copies.Keys
    requires forall i, j :: 0 <= i < j < |resets| ==> resets[i].0 != resets[j].0
    requires EachAccepted(resets, sent)
    requires forall b :: b in others ==> copies[b] == if b in sent then sent[b].Value() else 0.0
    ensures ValueOf(resets, others) == Sum(copies)
    decreases |resets|
  {
    if resets == [] {
      assert sent == map[];
      SumZero(copies);
    } else {
      var (b, c) := resets[0];
      assert (b, c) in resets;
      var rest, less := resets[1..], copies[b := 0.0];
      forall d | d in sent - {b}
        ensures (d, sent[d]) in rest
      {
        assert (d, sent[d]) in resets;
      }
      forall r | r in rest
        ensures r.0 in sent - {b} && sent[r.0] == r.1
      {
        assert r in resets;
        var i :| 0 <= i < |rest| && rest[i] == r;
        assert resets[0].0 != resets[i + 1].0;
      }
      EachOnce(rest, sent - {b}, others, less);
      SumPut(copies, b, 0.0);
    }
  }

  lemma {:induction false} SumZero(m: map<string, real>)
    requires forall k :: k in m ==> m[k] == 0.0
    ensures Sum(m) == 0.0
    decreases |m|
  {
    if m == map[] {
    } else {
      var k :| k in m && Sum(m) == m[k] + Sum(m - {k});
      SumZero(m - {k});
    }
  }

  // ----- Runs without sets -----

  predicate NoSets(ls: seq<Label>) {
    forall l :: l in ls ==> !l.SendReset? && !l.DeliverReset? && !l.FinishSet?
  }

  // Nothing has left the first revision.
  ghost predicate FirstRevision(s: State) {
    (forall sl :: sl in s.held ==> s.held[sl].rev == 0) && (forall m :: m in s.net ==> m.Copy? && m.c.rev == 0)
  }

  lemma {:induction false} ResetFreeIsFresh(s: State, ls: seq<Label>)
    requires Inv(s) && FirstRevision(s) && NoSets(ls)
    ensures FreshRun(s, ls) && FirstRevision(Exec(s, ls)) && Inv(Exec(s, ls))
    decreases |ls|
  {
    if ls == [] {
    } else {
      assert ls[0] in ls;
      assert NoSets(ls[1..]);
      StepKeepsInv(s, ls[0]);
      ResetFreeIsFresh(Step(s, ls[0]), ls[1..]);
    }
  }

  lemma {:induction false} NothingAccepted(s: State, ls: seq<Label>, owners: set<string>, name: string)
    requires NoSets(ls)
    ensures Ledger(s, ls, owners, name) == Increments(ls, owners, name)
    decreases |ls|
  {
    if ls == [] {
    } else {
      assert ls[0] in ls;
      assert NoSets(ls[1..]);
      NothingAccepted(Step(s, ls[0]), ls[1..], owners, name);
    }
  }

  lemma {:induction false} BookedOnly(s: State, ls: seq<Label>, owners: set<string>, name: string)
    requires Inv(s) && FreshRun(s, ls)
    ensures Total(Exec(s, ls), owners, name) == Total(s, owners, name) + Ledger(s, ls, owners, name)
  {
    FreshIsFreshAway(s, ls);
    FreshUndoesNothing(s, ls, owners, name);
    NothingRestored(s, ls, owners, name);
    RunLedger(s, ls, owners, name);
  }

  // The owners together have counted exactly the increments made at them, and every copy is below its owner.
  lemma {:induction false} ResetFreeTotal(ls: seq<Label>, owners: set<string>, name: string)
    requires NoSets(ls)
    ensures Total(Exec(INIT, ls), owners, name) == Increments(ls, owners, name)
    ensures forall o :: OwnValue(Exec(INIT, ls), o, name) == Increments(ls, {o}, name)
    ensures Inv(Exec(INIT, ls)) && FirstRevision(Exec(INIT, ls))
  {
    ResetFreeIsFresh(INIT, ls);
    FreshIsFreshAway(INIT, ls);
    BookedOnly(INIT, ls, owners, name);
    NothingAccepted(INIT, ls, owners, name);
    SumZero(OwnValues(INIT, owners, name));
    forall o
      ensures OwnValue(Exec(INIT, ls), o, name) == Increments(ls, {o}, name)
    {
      BookedOnly(INIT, ls, {o}, name);
      NothingAccepted(INIT, ls, {o}, name);
      SumZero(OwnValues(INIT, {o}, name));
      SumTakeOut(OwnValues(Exec(INIT, ls), {o}, name), o);
      assert OwnValues(Exec(INIT, ls), {o}, name) - {o} == map[];
    }
  }

  function SlotValue(s: State, sl: Slot): real {
    if sl in s.held then s.held[sl].Value() else 0.0
  }

  // What get answers there, when `owners` are all owners of the counter.
  ghost function Get(s: State, at: string, name: string): real { Reading(ViewAt(s, at), name) }

  predicate Owners(s: State, owners: set<string>, name: string) {
    forall sl :: sl in s.held && sl.name == name ==> sl.owner in owners
  }

  lemma GetByOwner(s: State, at: string, owners: set<string>, name: string)
    requires Owners(s, owners, name)
    ensures Get(s, at, name) == Sum(map o | o in owners :: SlotValue(s, Slot(at, o, name)))
  {
    var m := ViewAt(s, at);
    forall k | k in m
      ensures Slot(at, k.owner, k.name) in s.held
    {
    }
    ReadingByOwner(m, name, owners);
    forall o | o in owners
      ensures ValueIn(m, Key(o, name)) == SlotValue(s, Slot(at, o, name))
    {
      var sl := Slot(at, o, name);
      if sl in s.held {
        assert Key(sl.owner, sl.name) in m;
      }
    }
    assert PerOwner(m, name, owners)
        == (map o | o in owners :: SlotValue(s, Slot(at, o, name)));
  }

  // The copies at one server are as far as the owners are.
  predicate Exact(s: State, at: string, owners: set<string>, name: string) {
    forall o :: o in owners ==> Held(s, Slot(at, o, name)) == Held(s, Own(o, name))
  }

  // There get answers what the owners hold together.
  lemma ExactGetIsTotal(s: State, at: string, owners: set<string>, name: string)
    requires Owners(s, owners, name) && Exact(s, at, owners, name)
    ensures Get(s, at, name) == Total(s, owners, name)
  {
    forall o | o in owners
      ensures SlotValue(s, Slot(at, o, name)) == OwnValue(s, o, name)
    {
      assert Held(s, Slot(at, o, name)) == Held(s, Own(o, name));
    }
    assert (map o | o in owners :: SlotValue(s, Slot(at, o, name))) == OwnValues(s, owners, name);
    GetByOwner(s, at, owners, name);
  }

  // Once the copies have caught up, get answers the sum of all increments.
  lemma {:induction false} ResetFreeGetIsExact(ls: seq<Label>, at: string, owners: set<string>, name: string)
    requires NoSets(ls) && Owners(Exec(INIT, ls), owners, name) && Exact(Exec(INIT, ls), at, owners, name)
    ensures Get(Exec(INIT, ls), at, name) == Increments(ls, owners, name)
  {
    ResetFreeTotal(ls, owners, name);
    ExactGetIsTotal(Exec(INIT, ls), at, owners, name);
  }

  // With increments that are not negative, get never exceeds the true total and never decreases.
  lemma {:induction false} ResetFreeGetClimbs(ls: seq<Label>, more: seq<Label>, at: string, owners: set<string>,
                                              name: string)
    requires NoSets(ls) && OnlyUp(ls, name) && NoSets(more) && OnlyUp(more, name)
    requires Owners(Exec(Exec(INIT, ls), more), owners, name)
    ensures var t := Exec(INIT, ls);
      Get(t, at, name) <= Increments(ls, owners, name) && Get(t, at, name) <= Get(Exec(t, more), at, name)
  {
    ResetFreeTotal(ls, owners, name);
    OnlyUpKeepsDownZero(INIT, ls, name);
    var t := Exec(INIT, ls);
    ResetFreeIsFresh(t, more);
    FreshIsFreshAway(t, more);
    RunKeepsInv(t, more);
    OnlyUpKeepsDownZero(t, more, name);
    var u := Exec(t, more);
    forall sl | sl in t.held && sl.name == name
      ensures sl.owner in owners
    {
      assert sl in u.held;
    }
    GetByOwner(t, at, owners, name);
    GetByOwner(u, at, owners, name);
    var here := map o | o in owners :: SlotValue(t, Slot(at, o, name));
    forall o | o in owners
      ensures SlotValue(t, Slot(at, o, name)) <= OwnValue(t, o, name)
      ensures SlotValue(t, Slot(at, o, name)) <= SlotValue(u, Slot(at, o, name))
    {
      ClimbsInValue(t, u, at, o, name);
    }
    SumMonotone(here, OwnValues(t, owners, name));
    SumMonotone(here, map o | o in owners :: SlotValue(u, Slot(at, o, name)));
  }

  lemma ClimbsInValue(t: State, u: State, at: string, o: string, name: string)
    requires Inv(t) && Inv(u) && FirstRevision(t) && FirstRevision(u)
    requires NothingDown(t, name) && NothingDown(u, name) && Climbs(t, u)
    ensures SlotValue(t, Slot(at, o, name)) <= OwnValue(t, o, name)
    ensures SlotValue(t, Slot(at, o, name)) <= SlotValue(u, Slot(at, o, name))
  {
    var sl := Slot(at, o, name);
    if sl in t.held {
      assert Lags(t, o, name, t.held[sl]);
      assert sl in u.held;
    } else {
      if Own(o, name) in t.held {
        assert Lags(t, o, name, t.held[Own(o, name)]);
      }
      if sl in u.held {
        assert Lags(u, o, name, u.held[sl]);
      }
    }
  }
}
