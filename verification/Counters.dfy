// One owner's counter: a PN-counter (Up, Down) with an epoch number (Revision), and the merge that
// readChange and MergeRemoteState apply to every incoming copy.
module Counters {
  import opened Common

  datatype Counter = Counter(up: real, down: real, rev: nat)
  {
    function Value(): real { up - down }
  }

  // A copy and the owner it belongs to.
  datatype Key = Key(owner: string, name: string)

  type Replicas = map<Key, Counter>

  function Lookup(m: Replicas, k: Key): Option<Counter> {
    if k in m then Some(m[k]) else None
  }

  // The order every stored counter is meant to climb in: Revision first, then Up and Down.
  predicate Leq(c: Counter, d: Counter) {
    c.rev < d.rev || (c.rev == d.rev && c.up <= d.up && c.down <= d.down)
  }

  lemma LeqTransitive(c: Counter, d: Counter, e: Counter)
    requires Leq(c, d) && Leq(d, e)
    ensures Leq(c, e)
  {}

  // The merge: an unknown counter or a higher revision replaces, anything else takes the maximum,
  // also when the incoming revision is lower.
  function Merge(held: Option<Counter>, c: Counter): Counter {
    match held
    case None => c
    case Some(h) =>
      if c.rev > h.rev then c else Counter(Max(h.up, c.up), Max(h.down, c.down), h.rev)
  }

  // An incoming copy of an older revision that nevertheless exceeds what is held.
  predicate StaleRaise(held: Option<Counter>, c: Counter) {
    held.Some? && c.rev < held.value.rev && (c.up > held.value.up || c.down > held.value.down)
  }

  ghost predicate IsJoin(h: Counter, c: Counter, m: Counter) {
    Leq(h, m) && Leq(c, m) && forall u :: Leq(h, u) && Leq(c, u) ==> Leq(m, u)
  }

  // The merge is the least upper bound exactly when the copy is no stale raise.
  lemma MergeIsJoinIff(h: Counter, c: Counter)
    ensures IsJoin(h, c, Merge(Some(h), c)) <==> !StaleRaise(Some(h), c)
  {
    if StaleRaise(Some(h), c) {
      assert Leq(h, h) && Leq(c, h);
    }
  }

  // What a stale raise makes of the counter: the revision stays, and Up and Down are the larger ones.
  lemma StaleRaiseOutcome(h: Counter, c: Counter)
    requires StaleRaise(Some(h), c)
    ensures var m := Merge(Some(h), c);
      m.rev == h.rev && m.up >= h.up && m.up >= c.up && m.down >= h.down && m.down >= c.down
      && m.up in {h.up, c.up} && m.down in {h.down, c.down}
  {}

  // ----- What an owner does to its own counter -----

  function Incremented(own: Option<Counter>, diff: real): Counter {
    var c := if own.Some? then own.value else Counter(0.0, 0.0, 0);
    if diff > 0.0 then c.(up := c.up + diff) else c.(down := c.down - diff)
  }

  // A reset only takes effect on the revision that the sender had seen.
  predicate Accepts(own: Option<Counter>, seen: Counter) {
    own.Some? && seen.rev == own.value.rev
  }

  function AfterReset(own: Counter, seen: Counter): Counter {
    Counter(own.up - seen.up, own.down - seen.down, own.rev + 1)
  }

  function AfterSet(own: Option<Counter>, value: real): Counter {
    var up, down := if value > 0.0 then value else 0.0, if value > 0.0 then 0.0 else -value;
    Counter(up, down, if own.Some? then own.value.rev + 1 else 0)
  }

  // ----- What a server answers -----

  function Named(m: Replicas, name: string): map<Key, real> {
    map k | k in m && k.name == name :: m[k].Value()
  }

  // The reading of a counter: the sum of all copies, the server's own counter included.
  ghost function Reading(m: Replicas, name: string): real { Sum(Named(m, name)) }

  function ValueIn(m: Replicas, k: Key): real { if k in m then m[k].Value() else 0.0 }

  lemma ReadingPut(m: Replicas, k: Key, c: Counter, name: string)
    requires k !in m
    ensures Reading(m[k := c], name) == Reading(m, name) + if k.name == name then c.Value() else 0.0
  {
    if k.name == name {
      assert Named(m[k := c], name) == Named(m, name)[k := c.Value()];
      SumPut(Named(m, name), k, c.Value());
    } else {
      assert Named(m[k := c], name) == Named(m, name);
    }
  }

  function PerOwner(m: Replicas, name: string, owners: set<string>): map<string, real> {
    map o | o in owners :: ValueIn(m, Key(o, name))
  }

  // Summed owner by owner.
  lemma {:induction false} ReadingByOwner(m: Replicas, name: string, owners: set<string>)
    requires forall k :: k in m && k.name == name ==> k.owner in owners
    ensures Reading(m, name) == Sum(PerOwner(m, name, owners))
    decreases |owners|
  {
    if owners == {} {
      assert Named(m, name) == map[] && PerOwner(m, name, owners) == map[];
    } else {
      var o :| o in owners;
      var k := Key(o, name);
      SumTakeOut(PerOwner(m, name, owners), o);
      ReadingByOwner(m - {k}, name, owners - {o});
      assert PerOwner(m, name, owners) - {o} == PerOwner(m - {k}, name, owners - {o});
      if k in m {
        assert (m - {k})[k := m[k]] == m;
        ReadingPut(m - {k}, k, m[k], name);
      } else {
        assert m - {k} == m;
      }
    }
  }

  // ----- Deliveries in any order -----

  function Fold(held: Option<Counter>, cs: seq<Counter>): Option<Counter>
    decreases |cs|
  {
    if cs == [] then held else Some(Merge(Fold(held, cs[..|cs| - 1]), cs[|cs| - 1]))
  }

  ghost function Elements<T>(cs: seq<T>): set<T> { set c | c in cs }

  // No order, and no number of repetitions, of the same deliveries makes a difference.
  ghost predicate OrderIndependent(held: Option<Counter>, s: set<Counter>) {
    forall p, q :: Elements(p) == s && Elements(q) == s ==> Fold(held, p) == Fold(held, q)
  }

  // Nothing delivered has a newer revision than what is held.
  predicate HeldIsNewest(held: Option<Counter>, s: set<Counter>) {
    held.Some? && forall c :: c in s ==> c.rev <= held.value.rev
  }

  predicate IsTop(c: Counter, s: set<Counter>) {
    c in s && forall d :: d in s ==> d.rev <= c.rev
  }

  // Some counter of the newest revision has at least this Up, and some at least this Down.
  predicate Covered(c: Counter, s: set<Counter>) {
    (exists t :: t in s && IsTop(t, s) && c.up <= t.up) &&
    (exists t :: t in s && IsTop(t, s) && c.down <= t.down)
  }

  predicate NewestDominate(s: set<Counter>) {
    forall c {:trigger Covered(c, s)} :: c in s ==> Covered(c, s)
  }

  // What the result of a run of merges is made of.
  ghost predicate MadeOf(held: Option<Counter>, cs: seq<Counter>, m: Counter) {
    var replaced := held.None? || held.value.rev < m.rev;
    && (held.Some? ==> Leq(held.value, m))
    && (!replaced ==> held.value.rev == m.rev)
    && (replaced ==> exists c :: c in cs && c.rev == m.rev)
    && (forall c :: c in cs ==> c.rev <= m.rev)
    && (forall c :: c in cs && (c.rev == m.rev || !replaced) ==> c.up <= m.up && c.down <= m.down)
    && ((exists c :: c in cs && c.up == m.up) || (!replaced && held.value.up == m.up))
    && ((exists c :: c in cs && c.down == m.down) || (!replaced && held.value.down == m.down))
  }

  lemma {:induction false} FoldMadeOf(held: Option<Counter>, cs: seq<Counter>)
    requires cs != []
    ensures MadeOf(held, cs, Fold(held, cs).value)
    decreases |cs|
  {
    var init, c := cs[..|cs| - 1], cs[|cs| - 1];
    if init == [] {
      assert Fold(held, cs) == Some(Merge(held, c));
      OneMadeOf(held, c);
      assert cs == [c];
    } else {
      FoldMadeOf(held, init);
      MergeMadeOf(held, init, Fold(held, init).value, c);
      assert cs == init + [c];
    }
  }

  lemma OneMadeOf(held: Option<Counter>, c: Counter)
    ensures MadeOf(held, [c], Merge(held, c))
  {
    assert c in [c];
  }

  lemma MergeMadeOf(held: Option<Counter>, cs: seq<Counter>, m: Counter, c: Counter)
    requires MadeOf(held, cs, m)
    ensures MadeOf(held, cs + [c], Merge(Some(m), c))
  {
    assert forall d :: d in cs + [c] <==> d in cs || d == c;
    var n := Merge(Some(m), c);
    if c.rev > m.rev {
      assert n == c && c in cs + [c];
    } else {
      assert n.rev == m.rev;
    }
  }

  // Two orders of the same deliveries end in the same revision.
  lemma {:induction false} SameRevision(held: Option<Counter>, p: seq<Counter>, q: seq<Counter>)
    requires p != [] && q != []
    requires forall c :: c in p <==> c in q
    ensures Fold(held, p).value.rev == Fold(held, q).value.rev
  {
    FoldMadeOf(held, p);
    FoldMadeOf(held, q);
  }

  lemma {:induction false} OneSided(held: Option<Counter>, p: seq<Counter>, q: seq<Counter>, s: set<Counter>)
    requires p != [] && q != []
    requires forall c :: c in p <==> c in s
    requires forall c :: c in q <==> c in s
    requires HeldIsNewest(held, s) || NewestDominate(s)
    ensures Fold(held, p).value.up <= Fold(held, q).value.up
    ensures Fold(held, p).value.down <= Fold(held, q).value.down
  {
    SameRevision(held, p, q);
    var m, n := Fold(held, p).value, Fold(held, q).value;
    assert MadeOf(held, p, m) && MadeOf(held, q, n) by {
      FoldMadeOf(held, p);
      FoldMadeOf(held, q);
    }
    if held.Some? && held.value.rev == m.rev {
      Kept(held, p, q, m, n);
    } else {
      var top :| top in p && top.rev == m.rev;
      assert !HeldIsNewest(held, s) by { assert top in s; }
      Replaced(held, p, q, s, m, n);
    }
  }

  lemma Kept(held: Option<Counter>, p: seq<Counter>, q: seq<Counter>, m: Counter, n: Counter)
    requires MadeOf(held, p, m) && MadeOf(held, q, n) && m.rev == n.rev
    requires forall c :: c in p ==> c in q
    requires held.Some? && held.value.rev == m.rev
    ensures m.up <= n.up && m.down <= n.down
  {}

  lemma Replaced(held: Option<Counter>, p: seq<Counter>, q: seq<Counter>, s: set<Counter>, m: Counter, n: Counter)
    requires MadeOf(held, p, m) && MadeOf(held, q, n) && m.rev == n.rev
    requires forall c :: c in p <==> c in s
    requires forall c :: c in q <==> c in s
    requires held.None? || held.value.rev < m.rev
    requires NewestDominate(s)
    ensures m.up <= n.up && m.down <= n.down
  {
    var top :| top in p && top.rev == m.rev;
    var c :| c in p && c.up == m.up;
    var d :| d in p && d.down == m.down;
    assert c in s && d in s && top in s;
    assert Covered(c, s) && Covered(d, s);
    var t :| t in s && IsTop(t, s) && c.up <= t.up;
    var t' :| t' in s && IsTop(t', s) && d.down <= t'.down;
    assert t.rev == m.rev && t'.rev == m.rev;
    assert t in q && t' in q;
  }

  ghost function Listing<T>(s: set<T>): (l: seq<T>)
    ensures Elements(l) == s
  {
    if s == {} then [] else
      var x :| x in s;
      var rest := Listing(s - {x});
      assert Elements([x] + rest) == {x} + Elements(rest);
      [x] + rest
  }

  lemma {:induction false} FoldAppend(held: Option<Counter>, p: seq<Counter>, q: seq<Counter>)
    ensures Fold(held, p + q) == Fold(Fold(held, p), q)
    decreases |q|
  {
    if q == [] {
      assert p + q == p;
    } else {
      assert (p + q)[..|p + q| - 1] == p + q[..|q| - 1];
      FoldAppend(held, p, q[..|q| - 1]);
    }
  }

  // A listing of the newest counters and one of the others.
  lemma Layers(s: set<Counter>) returns (ts: seq<Counter>, ls: seq<Counter>)
    requires s != {}
    ensures ts != [] && Elements(ls + ts) == s && Elements(ts + ls) == s
    ensures forall t {:trigger IsTop(t, s)} :: t in ts ==> IsTop(t, s)
    ensures forall t, u :: t in ts && u in ts ==> t.rev == u.rev
    ensures forall t, l :: t in ts && l in ls ==> l.rev < t.rev
  {
    var tops := set c | c in s && IsTop(c, s);
    ts, ls := Listing(tops), Listing(s - tops);
    assert forall c :: c in ts <==> c in Elements(ts);
    assert forall c :: c in ls <==> c in Elements(ls);
    TopExists(s);
    var top :| top in s && IsTop(top, s);
    assert top in ts;
    assert forall c :: c in ls + ts <==> c in s;
    assert forall c :: c in ts + ls <==> c in s;
  }

  // When the newest do not dominate, delivering them last and delivering them first differ.
  lemma OrdersDiffer(held: Option<Counter>, s: set<Counter>)
    requires s != {} && !HeldIsNewest(held, s) && !NewestDominate(s)
    ensures !OrderIndependent(held, s)
  {
    var ts, ls := Layers(s);
    var c :| c in s && !Covered(c, s);
    assert c in Elements(ts + ls);
    assert held.None? || held.value.rev < ts[0].rev by { assert IsTop(ts[0], s); }
    LastDecide(held, ls, ts);
    FirstReplaces(held, ts, ls);
    var m, n := Fold(held, ls + ts).value, Fold(held, ts + ls).value;
    assert m != n by {
      var u :| u in ts && u.up == m.up;
      var d :| d in ts && d.down == m.down;
      assert IsTop(u, s) && IsTop(d, s);
    }
    OrdersMatter(held, s, ls + ts, ts + ls);
  }

  lemma {:induction false} OrdersMatter(held: Option<Counter>, s: set<Counter>, p: seq<Counter>, q: seq<Counter>)
    requires Elements(p) == s && Elements(q) == s && Fold(held, p) != Fold(held, q)
    ensures !OrderIndependent(held, s)
  {}

  // Delivered last, the newest leave nothing of the rest.
  lemma {:induction false} LastDecide(held: Option<Counter>, lows: seq<Counter>, tops: seq<Counter>)
    requires tops != []
    requires forall t, u :: t in tops && u in tops ==> t.rev == u.rev
    requires forall t, l :: t in tops && l in lows ==> l.rev < t.rev
    requires held.None? || held.value.rev < tops[0].rev
    ensures var m := Fold(held, lows + tops).value;
      (exists u :: u in tops && u.up == m.up) && (exists d :: d in tops && d.down == m.down)
  {
    FoldAppend(held, lows, tops);
    var before := Fold(held, lows);
    assert tops[0] in tops;
    if lows != [] {
      FoldMadeOf(held, lows);
    }
    FoldMadeOf(before, tops);
  }

  lemma {:induction false} TopExists(s: set<Counter>)
    requires s != {}
    ensures exists t :: t in s && IsTop(t, s)
    decreases |s|
  {
    var x :| x in s;
    if s == {x} {
      assert IsTop(x, s);
    } else {
      var r := s - {x};
      assert s == {x} + r;
      TopExists(r);
      var t :| t in r && IsTop(t, r);
      assert IsTop(if t.rev >= x.rev then t else x, s);
    }
  }

  lemma {:induction false} FirstReplaces(held: Option<Counter>, tops: seq<Counter>, lows: seq<Counter>)
    requires tops != []
    requires forall t, u :: t in tops && u in tops ==> t.rev == u.rev
    requires forall t, l :: t in tops && l in lows ==> l.rev < t.rev
    requires held.None? || held.value.rev < tops[0].rev
    ensures var n := Fold(held, tops + lows).value;
      forall c :: c in tops + lows ==> c.up <= n.up && c.down <= n.down
  {
    FoldAppend(held, tops, lows);
    FoldMadeOf(held, tops);
    assert tops[0] in tops;
    if lows == [] {
      assert tops + lows == tops;
    } else {
      FoldMadeOf(Fold(held, tops), lows);
    }
  }

  // The exact condition for order and repetition of deliveries about one counter not to matter.
  lemma OrderIndependentIff(held: Option<Counter>, s: set<Counter>)
    requires s != {}
    ensures OrderIndependent(held, s) <==> HeldIsNewest(held, s) || NewestDominate(s)
  {
    if HeldIsNewest(held, s) || NewestDominate(s) {
      forall p, q | Elements(p) == s && Elements(q) == s
        ensures Fold(held, p) == Fold(held, q)
      {
        assert forall c :: c in p <==> c in Elements(p);
        assert forall c :: c in q <==> c in Elements(q);
        SameRevision(held, p, q);
        OneSided(held, p, q, s);
        OneSided(held, q, p, s);
      }
    } else {
      OrdersDiffer(held, s);
    }
  }
}
