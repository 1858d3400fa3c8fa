// Deliveries to one node that knows the members: what a whole replica map becomes, and exactly when
// the order and repetition of the deliveries do not matter.
module Convergence {
  import opened Counters

  // A change message, or one entry of a push/pull state.
  datatype Update = Update(key: Key, c: Counter)

  function Apply(m: Replicas, u: Update): Replicas {
    m[u.key := Merge(Lookup(m, u.key), u.c)]
  }

  function ApplyAll(m: Replicas, us: seq<Update>): Replicas
    decreases |us|
  {
    if us == [] then m else Apply(ApplyAll(m, us[..|us| - 1]), us[|us| - 1])
  }

  // The counters that the updates bring for one key, in order.
  function About(us: seq<Update>, k: Key): seq<Counter>
    decreases |us|
  {
    if us == [] then []
    else
      var init := About(us[..|us| - 1], k);
      if us[|us| - 1].key == k then init + [us[|us| - 1].c] else init
  }

  ghost function Brought(s: set<Update>, k: Key): set<Counter> {
    set u | u in s && u.key == k :: u.c
  }

  lemma {:induction false} AboutElements(us: seq<Update>, k: Key)
    ensures Elements(About(us, k)) == Brought(Elements(us), k)
    decreases |us|
  {
    if us == [] {
    } else {
      var init, u := us[..|us| - 1], us[|us| - 1];
      AboutElements(init, k);
      assert us == init + [u];
      assert Elements(us) == Elements(init) + {u};
      assert Brought(Elements(us), k) == Brought(Elements(init), k) + (if u.key == k then {u.c} else {});
      assert Elements(About(init, k) + [u.c]) == Elements(About(init, k)) + {u.c};
    }
  }

  // Each key only sees the updates about it.
  lemma {:induction false} LookupApplyAll(m: Replicas, us: seq<Update>, k: Key)
    ensures Lookup(ApplyAll(m, us), k) == Fold(Lookup(m, k), About(us, k))
    decreases |us|
  {
    if us == [] {
    } else {
      LookupApplyAll(m, us[..|us| - 1], k);
      var init, u := About(us[..|us| - 1], k), us[|us| - 1];
      if u.key == k {
        assert (init + [u.c])[..|init|] == init;
      }
    }
  }

  ghost predicate Converges(m: Replicas, s: set<Update>) {
    forall p, q :: Elements(p) == s && Elements(q) == s ==> ApplyAll(m, p) == ApplyAll(m, q)
  }

  ghost predicate SafeFor(m: Replicas, s: set<Update>, k: Key) {
    HeldIsNewest(Lookup(m, k), Brought(s, k)) || NewestDominate(Brought(s, k))
  }

  function Tagged(k: Key, cs: seq<Counter>): seq<Update> {
    seq(|cs|, i requires 0 <= i < |cs| => Update(k, cs[i]))
  }

  lemma {:induction false} TaggedLast(us: seq<Update>, k: Key, init: seq<Counter>, c: Counter)
    ensures us + Tagged(k, init + [c]) == (us + Tagged(k, init)) + [Update(k, c)]
    ensures About((us + Tagged(k, init)) + [Update(k, c)], k) == About(us + Tagged(k, init), k) + [c]
  {
    var v := us + Tagged(k, init);
    assert (v + [Update(k, c)])[..|v|] == v;
  }

  lemma ElementsLast(us: seq<Update>, u: Update)
    ensures Elements(us + [u]) == Elements(us) + {u}
  {}

  lemma UpdatesLast(k: Key, init: seq<Counter>, c: Counter)
    ensures (set d | d in init + [c] :: Update(k, d)) == (set d | d in init :: Update(k, d)) + {Update(k, c)}
  {}

  lemma {:induction false} AboutTagged(us: seq<Update>, k: Key, cs: seq<Counter>)
    requires forall u :: u in us ==> u.key != k
    ensures About(us + Tagged(k, cs), k) == cs
    ensures Elements(us + Tagged(k, cs)) == Elements(us) + (set c | c in cs :: Update(k, c))
    decreases |us| + |cs|
  {
    var w := us + Tagged(k, cs);
    if cs != [] {
      var init, c := cs[..|cs| - 1], cs[|cs| - 1];
      AboutTagged(us, k, init);
      TaggedLast(us, k, init, c);
      assert cs == init + [c];
      ElementsLast(us + Tagged(k, init), Update(k, c));
      UpdatesLast(k, init, c);
    } else if us != [] {
      assert w == us;
      AboutTagged(us[..|us| - 1], k, []);
      assert us[..|us| - 1] + Tagged(k, []) == us[..|us| - 1];
    } else {
      assert w == [];
    }
  }

  // One key for which order matters is enough to tell two whole deliveries apart.
  lemma {:induction false} KeyBreaksConvergence(m: Replicas, s: set<Update>, k: Key, p: seq<Counter>, q: seq<Counter>)
    requires Elements(p) == Brought(s, k) && Elements(q) == Brought(s, k)
    requires Fold(Lookup(m, k), p) != Fold(Lookup(m, k), q)
    ensures !Converges(m, s)
  {
    var others := Listing(set u | u in s && u.key != k);
    forall u | u in others
      ensures u.key != k
    {
      assert u in Elements(others);
    }
    var p', q' := others + Tagged(k, p), others + Tagged(k, q);
    AboutTagged(others, k, p);
    AboutTagged(others, k, q);
    Listed(s, k, p);
    Listed(s, k, q);
    LookupApplyAll(m, p', k);
    LookupApplyAll(m, q', k);
    MapsDiffer(m, s, p', q');
  }

  lemma {:induction false} MapsDiffer(m: Replicas, s: set<Update>, p: seq<Update>, q: seq<Update>)
    requires Elements(p) == s && Elements(q) == s && ApplyAll(m, p) != ApplyAll(m, q)
    ensures !Converges(m, s)
  {}

  lemma Listed(s: set<Update>, k: Key, cs: seq<Counter>)
    requires Elements(cs) == Brought(s, k)
    ensures (set u | u in s && u.key != k) + (set c | c in cs :: Update(k, c)) == s
  {
    forall u | u in s && u.key == k
      ensures u in (set c | c in cs :: Update(k, c))
    {
      assert u.c in Brought(s, k);
      assert u.c in Elements(cs);
      assert u == Update(k, u.c);
    }
    forall c | c in cs
      ensures Update(k, c) in s
    {
      assert c in Elements(cs);
      var u :| u in s && u.key == k && u.c == c;
      assert u == Update(k, c);
    }
  }

  // The replica map is the same for every order and repetition of the deliveries exactly when, for each
  // counter that they are about, the held copy is the newest or the newest deliveries dominate.
  lemma ConvergesIff(m: Replicas, s: set<Update>)
    ensures Converges(m, s) <==> forall u {:trigger u.key} :: u in s ==> SafeFor(m, s, u.key)
  {
    if forall u {:trigger u.key} :: u in s ==> SafeFor(m, s, u.key) {
      forall p, q | Elements(p) == s && Elements(q) == s
        ensures ApplyAll(m, p) == ApplyAll(m, q)
      {
        SameMap(m, s, p, q);
      }
    } else {
      var u :| u in s && !SafeFor(m, s, u.key);
      var h, cs := Lookup(m, u.key), Brought(s, u.key);
      assert u.c in cs;
      OrderIndependentIff(h, cs);
      var p, q :| Elements(p) == cs && Elements(q) == cs && Fold(h, p) != Fold(h, q);
      KeyBreaksConvergence(m, s, u.key, p, q);
    }
  }

  lemma {:induction false} SameMap(m: Replicas, s: set<Update>, p: seq<Update>, q: seq<Update>)
    requires Elements(p) == s && Elements(q) == s
    requires forall u {:trigger u.key} :: u in s ==> SafeFor(m, s, u.key)
    ensures ApplyAll(m, p) == ApplyAll(m, q)
  {
    var a, b := ApplyAll(m, p), ApplyAll(m, q);
    forall k
      ensures Lookup(a, k) == Lookup(b, k)
    {
      SameEntry(m, s, p, q, k);
    }
    forall k
      ensures k in a <==> k in b
      ensures k in a && k in b ==> a[k] == b[k]
    {
      assert Lookup(a, k) == Lookup(b, k);
    }
  }

  lemma {:induction false} SameEntry(m: Replicas, s: set<Update>, p: seq<Update>, q: seq<Update>, k: Key)
    requires Elements(p) == s && Elements(q) == s
    requires forall u {:trigger u.key} :: u in s ==> SafeFor(m, s, u.key)
    ensures Lookup(ApplyAll(m, p), k) == Lookup(ApplyAll(m, q), k)
  {
    LookupApplyAll(m, p, k);
    LookupApplyAll(m, q, k);
    AboutElements(p, k);
    AboutElements(q, k);
    var cs := Brought(s, k);
    if cs == {} {
      NoElements(About(p, k));
      NoElements(About(q, k));
    } else {
      var c :| c in cs;
      var u :| u in s && u.key == k && u.c == c;
      assert SafeFor(m, s, u.key);
      OrderIndependentIff(Lookup(m, k), cs);
    }
  }

  lemma NoElements(cs: seq<Counter>)
    ensures cs == [] || Elements(cs) != {}
  {
    if cs == [] {
    } else {
      assert cs[0] in Elements(cs);
    }
  }

  // In particular, deliveries of a single revision per counter always converge.
  lemma EqualRevisionsConverge(m: Replicas, s: set<Update>)
    requires forall u, v :: u in s && v in s && u.key == v.key ==> u.c.rev == v.c.rev
    ensures Converges(m, s)
  {
    forall u | u in s
      ensures SafeFor(m, s, u.key)
    {
      var cs := Brought(s, u.key);
      forall c | c in cs
        ensures Covered(c, cs)
      {
        assert IsTop(c, cs);
      }
    }
    ConvergesIff(m, s);
  }

  // ... to the pointwise maximum: an upper bound of what was held and delivered, each part of which was
  // held or delivered.
  lemma {:induction false} EqualRevisionsMaximum(m: Replicas, us: seq<Update>, k: Key)
    requires forall u :: u in us && u.key == k ==> k !in m || u.c.rev == m[k].rev
    requires forall u, v :: u in us && v in us && u.key == v.key ==> u.c.rev == v.c.rev
    requires exists u :: u in us && u.key == k
    ensures k in ApplyAll(m, us)
    ensures var r := ApplyAll(m, us)[k]; var cs := Brought(Elements(us), k) + (if k in m then {m[k]} else {});
      && (forall c :: c in cs ==> c.rev == r.rev && c.up <= r.up && c.down <= r.down)
      && (exists c :: c in cs && c.up == r.up)
      && (exists c :: c in cs && c.down == r.down)
  {
    LookupApplyAll(m, us, k);
    AboutElements(us, k);
    var cs := About(us, k);
    var w :| w in us && w.key == k;
    assert w in Elements(us);
    assert w.c in Brought(Elements(us), k);
    assert w.c in cs by { assert w.c in Elements(cs); }
    FoldMadeOf(Lookup(m, k), cs);
    assert forall c :: c in cs <==> c in Elements(cs);
    forall c | c in cs
      ensures exists u :: u in us && u.key == k && u.c == c
    {
      assert c in Brought(Elements(us), k);
    }
  }
}
