// What a set achieves: resets that are accepted, copies that arrive, and the reading that comes out.
module CounterSets {
  import opened Common
  import opened Counters
  import opened CounterRuns

  // ----- What single steps achieve -----

  // A reset on its way to the owner takes effect exactly when the owner's counter is of the revision in it, whatever
  // Up and Down are; it takes them off, opens a new revision and is told to the others.
  lemma ResetTakesEffectIff(s: State, o: string, n: string, c: Counter)
    requires Reset(o, n, c) in s.net
    ensures var t, own := Step(s, DeliverReset(o, n, c)), Own(o, n);
      && (Held(t, own) != Held(s, own) <==> own in s.held && s.held[own].rev == c.rev)
      && (own in s.held && s.held[own].rev == c.rev ==>
          var h := s.held[own]; var r := Counter(h.up - c.up, h.down - c.down, h.rev + 1);
          t.held[own] == r && Copy(o, n, r) in t.net)
  {}

  // The reset that a member sends carries the copy that it holds, if it holds one, and is never its own.
  lemma ResetIsSentIff(s: State, a: string, o: string, n: string, c: Counter)
    ensures Reset(o, n, c) in Step(s, SendReset(a, o, n)).net <==>
      Reset(o, n, c) in s.net || (a != o && Held(s, Slot(a, o, n)) == Some(c))
  {}

  // A push carries everything that is held, and nothing else is new.
  lemma PushCarriesIff(s: State, a: string, m: Msg)
    ensures m in Step(s, Snapshot(a)).net <==>
      m in s.net || (m.Copy? && Held(s, Slot(a, m.owner, m.name)) == Some(m.c))
  {
    if m.Copy? && Held(s, Slot(a, m.owner, m.name)) == Some(m.c) {
      var sl := Slot(a, m.owner, m.name);
      assert sl in s.held && sl.at == a;
    }
  }

  // A copy that arrives is not lost: what is held afterwards is at least as far, and takes nothing back.
  lemma CopyArrives(s: State, b: string, o: string, n: string, c: Counter)
    requires Copy(o, n, c) in s.net
    ensures var t, sl := Step(s, Deliver(b, o, n, c)), Slot(b, o, n);
      && sl in t.held && Leq(c, t.held[sl]) && (sl in s.held ==> Leq(s.held[sl], t.held[sl]))
      && (sl !in s.held || s.held[sl].rev < c.rev ==> t.held[sl] == c)
  {}

  // Every change that an owner makes of its counter is told to the others.
  lemma ChangesAreTold(s: State, l: Label, o: string, n: string)
    requires Held(Step(s, l), Own(o, n)) != Held(s, Own(o, n)) && !l.Deliver?
    ensures Own(o, n) in Step(s, l).held && Copy(o, n, Step(s, l).held[Own(o, n)]) in Step(s, l).net
  {}

  // Counting adds the difference to what the owner holds, by raising one of Up and Down, in the same revision.
  lemma IncCounts(s: State, a: string, n: string, diff: real)
    ensures var own := Own(a, n); var t := Step(s, Inc(a, n, diff));
      var h := if own in s.held then s.held[own] else Counter(0.0, 0.0, 0);
      && own in t.held && OwnValue(t, a, n) == OwnValue(s, a, n) + diff
      && t.held[own].rev == h.rev && t.held[own].up >= h.up && t.held[own].down >= h.down
      && (t.held[own].up == h.up || t.held[own].down == h.down)
  {}

  // A set leaves the owner with the value, all of it in Up or in Down, and opens the next revision.
  lemma SetOpensRevision(s: State, a: string, n: string, v: real)
    ensures var own := Own(a, n); var t := Step(s, FinishSet(a, n, v));
      && own in t.held && OwnValue(t, a, n) == v
      && t.held[own].up >= 0.0 && t.held[own].down >= 0.0 && (t.held[own].up == 0.0 || t.held[own].down == 0.0)
      && t.held[own].rev == if own in s.held then s.held[own].rev + 1 else 0
  {}

  // ----- Settling one owner -----

  // The run has a's reset to o, and behind it its delivery.
  predicate Reaches(ls: seq<Label>, a: string, o: string, name: string, c: Counter, sent: bool)
    decreases |ls|
  {
    ls != [] && ((sent && ls[0] == DeliverReset(o, name, c))
                 || Reaches(ls[1..], a, o, name, c, sent || ls[0] == SendReset(a, o, name)))
  }

  // Only resets of this counter are sent and delivered, those that carry what the owners hold in s.
  predicate SetTraffic(s: State, ls: seq<Label>, a: string, name: string) {
    forall l :: l in ls ==>
      || (l.SendReset? && l.at == a && l.name == name)
      || (l.DeliverReset? && l.name == name && Held(s, Own(l.owner, name)) == Some(l.c))
  }

  function Emptied(c: Counter): Counter { Counter(0.0, 0.0, c.rev + 1) }

  lemma {:induction false} OwnerSettles(s: State, t: State, ls: seq<Label>, a: string, o: string, name: string,
                                        c: Counter, sent: bool)
    requires a != o && SetTraffic(s, ls, a, name) && Held(s, Own(o, name)) == Some(c)
    requires Held(t, Slot(a, o, name)) == Some(c) && Own(o, name) in t.held
    requires t.held[Own(o, name)] == Emptied(c)
      || (t.held[Own(o, name)] == c && Reaches(ls, a, o, name, c, sent) && (sent ==> Reset(o, name, c) in t.net))
    ensures Held(Exec(t, ls), Own(o, name)) == Some(Emptied(c))
    decreases |ls|
  {
    if ls == [] {
    } else {
      assert ls[0] in ls;
      assert SetTraffic(s, ls[1..], a, name);
      OwnerSettles(s, Step(t, ls[0]), ls[1..], a, o, name, c, sent || ls[0] == SendReset(a, o, name));
    }
  }

  lemma {:induction false} NothingToSettle(s: State, t: State, ls: seq<Label>, a: string, o: string, name: string)
    requires SetTraffic(s, ls, a, name) && Own(o, name) !in s.held && Own(o, name) !in t.held
    ensures Own(o, name) !in Exec(t, ls).held
    decreases |ls|
  {
    if ls == [] {
    } else {
      assert ls[0] in ls;
      assert SetTraffic(s, ls[1..], a, name);
      NothingToSettle(s, Step(t, ls[0]), ls[1..], a, o, name);
    }
  }

  // ----- The set -----

  // A set whose copies are exact, and whose resets are all delivered, in any order and any number of times: the other
  // owners end at nothing in a new revision, and all owners together at the value set.
  lemma {:induction false} ExactSetReachesValue(s: State, ls: seq<Label>, a: string, others: set<string>, name: string,
                                                v: real)
    requires a !in others && Exact(s, a, others, name) && SetTraffic(s, ls, a, name)
    requires forall o :: o in others && Own(o, name) in s.held ==>
      Reaches(ls, a, o, name, s.held[Own(o, name)], false)
    ensures var t := Step(Exec(s, ls), FinishSet(a, name, v));
      && Total(t, others + {a}, name) == v && OwnValue(t, a, name) == v
      && forall o :: o in others ==>
           Held(t, Own(o, name)) == if Own(o, name) in s.held then Some(Emptied(s.held[Own(o, name)])) else None
  {
    var u := Exec(s, ls);
    var t := Step(u, FinishSet(a, name, v));
    forall o | o in others
      ensures Held(t, Own(o, name)) == if Own(o, name) in s.held then Some(Emptied(s.held[Own(o, name)])) else None
      ensures OwnValue(t, o, name) == 0.0
    {
      if Own(o, name) in s.held {
        OwnerSettles(s, s, ls, a, o, name, s.held[Own(o, name)], false);
      } else {
        NothingToSettle(s, s, ls, a, o, name);
      }
      assert Held(t, Own(o, name)) == Held(u, Own(o, name));
    }
    var vals := OwnValues(t, others + {a}, name);
    SumTakeOut(vals, a);
    SumZero(vals - {a});
    assert vals[a] == v;
  }

  // ----- Reading it -----

  // The push/pull in which b hears from o, as far as this counter goes.
  function Pull(s: State, b: string, o: string, name: string): seq<Label> {
    [Snapshot(o)] + if Own(o, name) in s.held then [Deliver(b, o, name, s.held[Own(o, name)])] else []
  }

  function PullAll(s: State, b: string, os: seq<string>, name: string): seq<Label>
    decreases |os|
  {
    if os == [] then [] else Pull(s, b, os[0], name) + PullAll(s, b, os[1..], name)
  }

  // It makes b's copy exact, and changes no other one.
  lemma {:induction false} PullMakesExact(s: State, b: string, o: string, name: string)
    requires Inv(s)
    ensures var t := Exec(s, Pull(s, b, o, name));
      && Inv(t) && Held(t, Slot(b, o, name)) == Held(s, Own(o, name))
      && forall sl :: sl != Slot(b, o, name) ==> Held(t, sl) == Held(s, sl)
  {
    var ls := Pull(s, b, o, name);
    StepKeepsInv(s, Snapshot(o));
    var u := Step(s, Snapshot(o));
    if Own(o, name) in s.held {
      var c := s.held[Own(o, name)];
      var l := Deliver(b, o, name, c);
      PushCarriesIff(s, o, Copy(o, name, c));
      assert Slot(b, o, name) in u.held ==> Lags(u, o, name, u.held[Slot(b, o, name)]);
      StepKeepsInv(u, l);
      assert ls == [Snapshot(o), l] && ls[1..] == [l] && [l][1..] == [];
      assert Exec(s, ls) == Exec(u, [l]) == Step(u, l);
    } else {
      assert Slot(b, o, name) in s.held ==> Lags(s, o, name, s.held[Slot(b, o, name)]);
      assert ls[1..] == [];
    }
  }

  lemma {:induction false} PullAllMakesExact(s: State, t: State, b: string, os: seq<string>, name: string)
    requires Inv(t) && forall o :: Held(t, Own(o, name)) == Held(s, Own(o, name))
    ensures var u := Exec(t, PullAll(s, b, os, name));
      && Inv(u) && (forall o :: Held(u, Own(o, name)) == Held(s, Own(o, name)))
      && (forall o :: o in os || Held(t, Slot(b, o, name)) == Held(s, Own(o, name)) ==>
            Held(u, Slot(b, o, name)) == Held(s, Own(o, name)))
    decreases |os|
  {
    if os == [] {
    } else {
      assert Held(t, Own(os[0], name)) == Held(s, Own(os[0], name));
      assert Pull(t, b, os[0], name) == Pull(s, b, os[0], name);
      PullMakesExact(t, b, os[0], name);
      var t' := Exec(t, Pull(s, b, os[0], name));
      ExecAppend(t, Pull(s, b, os[0], name), PullAll(s, b, os[1..], name));
      assert Held(t', Own(os[0], name)) == Held(s, Own(os[0], name));
      PullAllMakesExact(s, t', b, os[1..], name);
    }
  }

  // So a server that has heard from all owners answers what they hold together.
  lemma {:induction false} PulledIsTotal(t: State, b: string, owners: set<string>, os: seq<string>, name: string)
    requires Inv(t) && Owners(t, owners, name) && forall o :: o in owners ==> o in os
    ensures Get(Exec(t, PullAll(t, b, os, name)), b, name) == Total(t, owners, name)
  {
    var u := Exec(t, PullAll(t, b, os, name));
    PullAllMakesExact(t, t, b, os, name);
    forall sl | sl in u.held && sl.name == name
      ensures sl.owner in owners
    {
      assert Lags(u, sl.owner, name, u.held[sl]);
      assert Held(u, Own(sl.owner, name)) == Held(t, Own(sl.owner, name));
      assert Own(sl.owner, name) in t.held;
    }
    ExactGetIsTotal(u, b, owners, name);
    forall o | o in owners
      ensures OwnValue(u, o, name) == OwnValue(t, o, name)
    {
      assert Held(u, Own(o, name)) == Held(t, Own(o, name));
    }
    assert OwnValues(u, owners, name) == OwnValues(t, owners, name);
  }

  lemma {:induction false} TrafficKeepsInv(s: State, t: State, ls: seq<Label>, a: string, name: string)
    requires Inv(t) && SetTraffic(s, ls, a, name)
    ensures Inv(Exec(t, ls))
    decreases |ls|
  {
    if ls == [] {
    } else {
      assert ls[0] in ls;
      assert SetTraffic(s, ls[1..], a, name);
      StepKeepsInv(t, ls[0]);
      TrafficKeepsInv(s, Step(t, ls[0]), ls[1..], a, name);
    }
  }

  // After such a set, any server that has heard from all owners answers the value that was set.
  lemma {:induction false} SetIsRead(s: State, ls: seq<Label>, a: string, others: set<string>, name: string, v: real,
                                     b: string, os: seq<string>)
    requires Inv(s) && a !in others && Exact(s, a, others, name) && SetTraffic(s, ls, a, name)
    requires forall o :: o in others && Own(o, name) in s.held ==>
      Reaches(ls, a, o, name, s.held[Own(o, name)], false)
    requires forall o :: o in others + {a} ==> o in os
    requires Owners(Step(Exec(s, ls), FinishSet(a, name, v)), others + {a}, name)
    ensures var t := Step(Exec(s, ls), FinishSet(a, name, v));
      Get(Exec(t, PullAll(t, b, os, name)), b, name) == v
  {
    ExactSetReachesValue(s, ls, a, others, name, v);
    TrafficKeepsInv(s, s, ls, a, name);
    StepKeepsInv(Exec(s, ls), FinishSet(a, name, v));
    PulledIsTotal(Step(Exec(s, ls), FinishSet(a, name, v)), b, others + {a}, os, name);
  }
}
