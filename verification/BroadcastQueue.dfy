// The transmit-limited broadcast queue: messages go out a limited number of times, newer ones first, and a
// new message replaces an older one about the same subject.
module BroadcastQueue {
  import opened Bytes
  import opened Common

  // The name that a message is about, a string of bytes as all strings are in Go.
  type Subject = seq<byte>

  // A message and its subject; a message invalidates any other about the same subject.
  datatype Broadcast = Broadcast(subject: Subject, msg: seq<byte>)

  datatype Entry = Entry(transmits: nat, b: Broadcast)

  function Broadcasts(q: seq<Entry>): (bs: seq<Broadcast>)
    ensures |bs| == |q| && forall i :: 0 <= i < |q| ==> bs[i] == q[i].b
  {
    seq(|q|, i requires 0 <= i < |q| => q[i].b)
  }

  predicate DistinctSubjects(q: seq<Entry>) {
    forall i, j :: 0 <= i < j < |q| ==> q[i].b.subject != q[j].b.subject
  }

  predicate Descending(q: seq<Entry>) {
    forall i, j :: 0 <= i < j < |q| ==> q[i].transmits >= q[j].transmits
  }

  // ----- Invalidation -----

  function Without(q: seq<Entry>, subject: Subject): seq<Entry>
    decreases |q|
  {
    if q == [] then []
    else (if q[0].b.subject == subject then [] else [q[0]]) + Without(q[1..], subject)
  }

  function Matching(q: seq<Entry>, subject: Subject): seq<Broadcast>
    decreases |q|
  {
    if q == [] then []
    else (if q[0].b.subject == subject then [q[0].b] else []) + Matching(q[1..], subject)
  }

  // The removal scan as the program runs it: after a removal the index still advances, so the entry that
  // moves into the gap is not looked at. Shown here on what is left to scan.
  function SkippingRemoval(q: seq<Entry>, subject: Subject): seq<Entry>
    decreases |q|
  {
    if q == [] then []
    else if q[0].b.subject == subject then
      if |q| == 1 then [] else [q[1]] + SkippingRemoval(q[2..], subject)
    else [q[0]] + SkippingRemoval(q[1..], subject)
  }

  function SkippingMatches(q: seq<Entry>, subject: Subject): seq<Broadcast>
    decreases |q|
  {
    if q == [] then []
    else if q[0].b.subject == subject then
      [q[0].b] + if |q| == 1 then [] else SkippingMatches(q[2..], subject)
    else SkippingMatches(q[1..], subject)
  }

  // Two neighbours on the same subject.
  predicate NeighboursOn(q: seq<Entry>, subject: Subject) {
    exists i :: 0 <= i < |q| - 1 && q[i].b.subject == subject && q[i + 1].b.subject == subject
  }

  // The scan misses nothing exactly when no two neighbours are on the subject.
  lemma {:induction false} SkippingRemovalIff(q: seq<Entry>, subject: Subject)
    ensures SkippingRemoval(q, subject) == Without(q, subject) <==> !NeighboursOn(q, subject)
    ensures !NeighboursOn(q, subject) ==> SkippingMatches(q, subject) == Matching(q, subject)
    decreases |q|
  {
    if |q| < 2 {
    } else {
      if q[0].b.subject == subject {
        SkippingRemovalIff(q[2..], subject);
        assert Without(q[1..], subject) ==
          (if q[1].b.subject == subject then [] else [q[1]]) + Without(q[1..][1..], subject);
        assert q[1..][1..] == q[2..];
        if q[1].b.subject == subject {
          NoneLeft(q, subject);
          assert SkippingRemoval(q, subject)[0] == q[1];
        } else {
          assert NeighboursOn(q[2..], subject) ==> NeighboursOn(q, subject) by {
            if NeighboursOn(q[2..], subject) {
              var i :| 0 <= i < |q[2..]| - 1 && q[2..][i].b.subject == subject && q[2..][i + 1].b.subject == subject;
              assert q[i + 2].b.subject == subject && q[i + 3].b.subject == subject;
            }
          }
          assert NeighboursOn(q, subject) ==> NeighboursOn(q[2..], subject) by {
            if NeighboursOn(q, subject) {
              var i :| 0 <= i < |q| - 1 && q[i].b.subject == subject && q[i + 1].b.subject == subject;
              assert q[2..][i - 2].b.subject == subject && q[2..][i - 1].b.subject == subject;
            }
          }
          OneMore([q[1]], SkippingRemoval(q[2..], subject), Without(q[2..], subject));
        }
      } else {
        SkippingRemovalIff(q[1..], subject);
        assert NeighboursOn(q[1..], subject) <==> NeighboursOn(q, subject) by {
          if NeighboursOn(q[1..], subject) {
            var i :| 0 <= i < |q[1..]| - 1 && q[1..][i].b.subject == subject && q[1..][i + 1].b.subject == subject;
            assert q[i + 1].b.subject == subject && q[i + 2].b.subject == subject;
          }
          if NeighboursOn(q, subject) {
            var i :| 0 <= i < |q| - 1 && q[i].b.subject == subject && q[i + 1].b.subject == subject;
            assert q[1..][i - 1].b.subject == subject && q[1..][i].b.subject == subject;
          }
        }
        OneMore([q[0]], SkippingRemoval(q[1..], subject), Without(q[1..], subject));
      }
    }
  }

  lemma OneMore(x: seq<Entry>, s: seq<Entry>, t: seq<Entry>)
    ensures x + s == x + t <==> s == t
  {
    if x + s == x + t {
      assert s == (x + s)[|x|..] && t == (x + t)[|x|..];
    }
  }

  lemma {:induction false} NoneLeft(q: seq<Entry>, subject: Subject)
    ensures forall e :: e in Without(q, subject) <==> e in q && e.b.subject != subject
    decreases |q|
  {
    if q == [] {
    } else {
      NoneLeft(q[1..], subject);
      assert forall e :: e in q <==> e == q[0] || e in q[1..];
    }
  }

  lemma DistinctHaveNoNeighbours(q: seq<Entry>, subject: Subject)
    requires DistinctSubjects(q)
    ensures !NeighboursOn(q, subject)
  {}

  lemma {:induction false} WithoutKeeps(q: seq<Entry>, subject: Subject)
    requires DistinctSubjects(q) && Descending(q)
    ensures DistinctSubjects(Without(q, subject)) && Descending(Without(q, subject))
    ensures forall e :: e in Without(q, subject) <==> e in q && e.b.subject != subject
    decreases |q|
  {
    if q == [] {
    } else {
      WithoutKeeps(q[1..], subject);
      NoneLeft(q, subject);
      var r := Without(q[1..], subject);
      forall e | e in r
        ensures e.b.subject != q[0].b.subject && q[0].transmits >= e.transmits
      {
        assert e in q[1..];
      }
      if q[0].b.subject != subject {
        Prepend(q[0], r);
      }
    }
  }

  lemma Prepend(e: Entry, q: seq<Entry>)
    requires DistinctSubjects(q) && Descending(q)
    requires forall d :: d in q ==> d.b.subject != e.b.subject && e.transmits >= d.transmits
    ensures DistinctSubjects([e] + q) && Descending([e] + q)
  {
    assert forall i :: 0 <= i < |q| ==> q[i] in q;
  }

  lemma BroadcastsAppend(p: seq<Entry>, q: seq<Entry>)
    ensures Broadcasts(p + q) == Broadcasts(p) + Broadcasts(q)
  {}

  lemma {:induction false} WithoutAndMatching(q: seq<Entry>, subject: Subject)
    ensures multiset(Broadcasts(q)) == multiset(Broadcasts(Without(q, subject))) + multiset(Matching(q, subject))
    decreases |q|
  {
    if q == [] {
    } else {
      WithoutAndMatching(q[1..], subject);
      assert q == [q[0]] + q[1..];
      BroadcastsAppend([q[0]], q[1..]);
      BroadcastsAppend(if q[0].b.subject == subject then [] else [q[0]], Without(q[1..], subject));
      assert Broadcasts([q[0]]) == [q[0].b];
    }
  }

  // ----- Filling a packet -----

  datatype Pick = Pick(sent: seq<Broadcast>, finished: seq<Broadcast>, kept: seq<Entry>, used: int)

  function Fits(e: Entry, overhead: int, limit: int, used: int): bool {
    used + overhead + |e.b.msg| <= limit
  }

  function UsedAfter(e: Entry, overhead: int, limit: int, used: int): int {
    if Fits(e, overhead, limit, used) then used + overhead + |e.b.msg| else used
  }

  // What one entry contributes when it fits, or does not: what goes out, what is done, what stays.
  function Out(e: Entry, fits: bool): seq<Broadcast> { if fits then [e.b] else [] }

  function Done(e: Entry, fits: bool, max: int): seq<Broadcast> {
    if fits && e.transmits + 1 >= max then [e.b] else []
  }

  function Stays(e: Entry, fits: bool, max: int): seq<Entry> {
    if !fits then [e] else if e.transmits + 1 < max then [Entry(e.transmits + 1, e.b)] else []
  }

  // What fits, looking from the newest to the oldest: whatever still fits goes out once more, and leaves the
  // queue when it has gone out `max` times.
  function Greedy(q: seq<Entry>, overhead: int, limit: int, max: int, used: int): Pick
    decreases |q|
  {
    if q == [] then Pick([], [], [], used)
    else
      var e := q[|q| - 1];
      var fits := Fits(e, overhead, limit, used);
      var p := Greedy(q[..|q| - 1], overhead, limit, max, UsedAfter(e, overhead, limit, used));
      Pick(Out(e, fits) + p.sent, Done(e, fits, max) + p.finished, p.kept + Stays(e, fits, max), p.used)
  }

  function Framed(bs: seq<Broadcast>, overhead: int): int
    decreases |bs|
  {
    if bs == [] then 0 else overhead + |bs[0].msg| + Framed(bs[1..], overhead)
  }

  // The bytes used are those of the messages with their overhead, and stay within the limit.
  lemma {:induction false} GreedyFits(q: seq<Entry>, overhead: int, limit: int, max: int, used: int)
    ensures var p := Greedy(q, overhead, limit, max, used);
      p.used == used + Framed(p.sent, overhead) && (p.sent != [] ==> p.used <= limit)
    decreases |q|
  {
    if q == [] {
    } else {
      var e := q[|q| - 1];
      var used' := UsedAfter(e, overhead, limit, used);
      GreedyFits(q[..|q| - 1], overhead, limit, max, used');
      var p := Greedy(q[..|q| - 1], overhead, limit, max, used');
      assert ([e.b] + p.sent)[1..] == p.sent && [] + p.sent == p.sent;
    }
  }

  // What is not sent would not have fitted beside what is: the packet is filled as far as it goes.
  lemma {:induction false} GreedyFills(q: seq<Entry>, overhead: int, limit: int, max: int, used: int, e: Entry)
    requires overhead >= 0 && e in q
    ensures var p := Greedy(q, overhead, limit, max, used);
      p.used >= used && (e.b in p.sent || p.used + overhead + |e.b.msg| > limit)
    decreases |q|
  {
    var rest, last := q[..|q| - 1], q[|q| - 1];
    var used' := UsedAfter(last, overhead, limit, used);
    assert q == rest + [last];
    GreedyUses(rest, overhead, limit, max, used');
    if e in rest {
      GreedyFills(rest, overhead, limit, max, used', e);
    }
  }

  lemma {:induction false} GreedyUses(q: seq<Entry>, overhead: int, limit: int, max: int, used: int)
    requires overhead >= 0
    ensures Greedy(q, overhead, limit, max, used).used >= used
    decreases |q|
  {
    if q == [] {
    } else {
      GreedyUses(q[..|q| - 1], overhead, limit, max, UsedAfter(q[|q| - 1], overhead, limit, used));
    }
  }

  lemma {:induction false} FramedAppend(p: seq<Broadcast>, q: seq<Broadcast>, overhead: int)
    ensures Framed(p + q, overhead) == Framed(p, overhead) + Framed(q, overhead)
    decreases |p|
  {
    if p == [] {
      assert p + q == q;
    } else {
      assert (p + q)[1..] == p[1..] + q;
      FramedAppend(p[1..], q, overhead);
    }
  }

  lemma {:induction false} PacketIsFull(q: seq<Entry>, overhead: int, limit: int, max: int)
    ensures var sent := Greedy(q, overhead, limit, max, 0).sent;
      && (Framed(sent, overhead) <= limit || sent == [])
      && (overhead >= 0 ==>
            forall e :: e in q ==> e.b in sent || Framed(sent, overhead) + overhead + |e.b.msg| > limit)
      && (q != [] && overhead + |q[|q| - 1].b.msg| <= limit ==> sent != [] && sent[0] == q[|q| - 1].b)
  {
    GreedyFits(q, overhead, limit, max, 0);
    if overhead >= 0 {
      forall e | e in q
        ensures var p := Greedy(q, overhead, limit, max, 0); e.b in p.sent || p.used + overhead + |e.b.msg| > limit
      {
        GreedyFills(q, overhead, limit, max, 0, e);
      }
    }
    if q != [] {
      NewestFirst(q, overhead, limit, max);
    }
  }

  // When there is room for everything, everything goes out.
  lemma {:induction false} GreedySendsAll(q: seq<Entry>, overhead: int, limit: int, max: int, used: int)
    requires overhead >= 0 && used + Framed(Broadcasts(q), overhead) <= limit
    ensures forall b :: b in Members(q) ==> b in Greedy(q, overhead, limit, max, used).sent
    decreases |q|
  {
    if q == [] {
    } else {
      var rest, e := q[..|q| - 1], q[|q| - 1];
      assert q == rest + [e] && Members(q) == Members(rest) + {e.b};
      BroadcastsAppend(rest, [e]);
      assert Broadcasts([e]) == [e.b] && [e.b][1..] == [];
      FramedAppend(Broadcasts(rest), [e.b], overhead);
      FramedNotNegative(Broadcasts(rest), overhead);
      GreedySendsAll(rest, overhead, limit, max, UsedAfter(e, overhead, limit, used));
    }
  }

  lemma {:induction false} FramedNotNegative(bs: seq<Broadcast>, overhead: int)
    requires overhead >= 0
    ensures Framed(bs, overhead) >= 0
    decreases |bs|
  {
    if bs == [] {
    } else {
      FramedNotNegative(bs[1..], overhead);
    }
  }

  // The newest entry is the first to go out, when it fits at all.
  lemma {:induction false} NewestFirst(q: seq<Entry>, overhead: int, limit: int, max: int)
    requires q != []
    ensures var p, b := Greedy(q, overhead, limit, max, 0), q[|q| - 1].b;
      overhead + |b.msg| <= limit ==> p.sent != [] && p.sent[0] == b
  {}

  // The first is in the queue behind the second: it is newer.
  ghost predicate Newer(q: seq<Entry>, x: Broadcast, y: Broadcast) {
    exists k, l :: 0 <= k < l < |q| && q[l].b == x && q[k].b == y
  }

  lemma NewerStays(rest: seq<Entry>, e: Entry, x: Broadcast, y: Broadcast)
    requires Newer(rest, x, y) || (x == e.b && y in Members(rest))
    ensures Newer(rest + [e], x, y)
  {
    var q := rest + [e];
    if Newer(rest, x, y) {
      var k, l :| 0 <= k < l < |rest| && rest[l].b == x && rest[k].b == y;
      assert q[l].b == x && q[k].b == y;
    } else {
      var d :| d in rest && d.b == y;
      var k :| 0 <= k < |rest| && rest[k] == d;
      assert q[|rest|].b == x && q[k].b == y;
    }
  }

  // Nothing overtakes: what goes out is in the order of the queue, from the newest to the oldest.
  lemma {:induction false} GreedyInOrder(q: seq<Entry>, overhead: int, limit: int, max: int, used: int, i: nat, j: nat)
    requires i < j < |Greedy(q, overhead, limit, max, used).sent|
    ensures var sent := Greedy(q, overhead, limit, max, used).sent; Newer(q, sent[i], sent[j])
    decreases |q|
  {
    var rest, e := q[..|q| - 1], q[|q| - 1];
    var fits, used' := Fits(e, overhead, limit, used), UsedAfter(e, overhead, limit, used);
    var r := Greedy(rest, overhead, limit, max, used').sent;
    var sent := Out(e, fits) + r;
    assert q == rest + [e];
    if fits && i == 0 {
      GreedyPicksFrom(rest, overhead, limit, max, used');
      assert sent[j] in r;
    } else {
      GreedyInOrder(rest, overhead, limit, max, used', i - |Out(e, fits)|, j - |Out(e, fits)|);
    }
    NewerStays(rest, e, sent[i], sent[j]);
  }

  predicate Distinct(bs: seq<Broadcast>) {
    forall i, j :: 0 <= i < j < |bs| ==> bs[i].subject != bs[j].subject
  }

  ghost function Members(q: seq<Entry>): set<Broadcast> { set e | e in q :: e.b }

  // Nothing is picked that is not in the queue.
  lemma {:induction false} GreedyPicksFrom(q: seq<Entry>, overhead: int, limit: int, max: int, used: int)
    ensures var p := Greedy(q, overhead, limit, max, used);
      && (forall b :: b in p.sent || b in p.finished ==> b in Members(q))
      && (forall k :: k in p.kept ==> k.b in Members(q))
    decreases |q|
  {
    if q == [] {
    } else {
      var e := q[|q| - 1];
      GreedyPicksFrom(q[..|q| - 1], overhead, limit, max, UsedAfter(e, overhead, limit, used));
      assert q == q[..|q| - 1] + [e];
      assert Members(q) == Members(q[..|q| - 1]) + {e.b};
    }
  }

  // Nothing is picked twice.
  lemma {:induction false} GreedyPicksOnce(q: seq<Entry>, overhead: int, limit: int, max: int, used: int)
    requires DistinctSubjects(q)
    ensures var p := Greedy(q, overhead, limit, max, used);
      Distinct(p.sent) && Distinct(p.finished) && DistinctSubjects(p.kept)
    decreases |q|
  {
    if q == [] {
    } else {
      var rest, e := q[..|q| - 1], q[|q| - 1];
      var fits, used' := Fits(e, overhead, limit, used), UsedAfter(e, overhead, limit, used);
      GreedyPicksOnce(rest, overhead, limit, max, used');
      GreedyPicksFrom(rest, overhead, limit, max, used');
      assert q == rest + [e];
      LastIsNew(rest, e);
      var r := Greedy(rest, overhead, limit, max, used');
      PickedOnce(r, e, fits, max);
    }
  }

  lemma PickedOnce(r: Pick, e: Entry, fits: bool, max: int)
    requires Distinct(r.sent) && Distinct(r.finished) && DistinctSubjects(r.kept)
    requires forall b :: b in r.sent || b in r.finished ==> b.subject != e.b.subject
    requires forall k :: k in r.kept ==> k.b.subject != e.b.subject
    ensures Distinct(Out(e, fits) + r.sent) && Distinct(Done(e, fits, max) + r.finished)
    ensures DistinctSubjects(r.kept + Stays(e, fits, max))
  {
    NewFirst(Out(e, fits), r.sent);
    NewFirst(Done(e, fits, max), r.finished);
    NewLast(r.kept, Stays(e, fits, max));
  }

  lemma NewFirst(x: seq<Broadcast>, bs: seq<Broadcast>)
    requires |x| <= 1 && Distinct(bs)
    requires forall a, b :: a in x && b in bs ==> a.subject != b.subject
    ensures Distinct(x + bs)
  {
    assert forall i :: 0 <= i < |bs| ==> bs[i] in bs;
  }

  lemma NewLast(q: seq<Entry>, x: seq<Entry>)
    requires |x| <= 1 && DistinctSubjects(q)
    requires forall e, d :: e in q && d in x ==> e.b.subject != d.b.subject
    ensures DistinctSubjects(q + x)
  {
    assert forall i :: 0 <= i < |q| ==> q[i] in q;
  }

  lemma LastIsNew(rest: seq<Entry>, e: Entry)
    requires DistinctSubjects(rest + [e])
    ensures forall b :: b in Members(rest) ==> b.subject != e.b.subject
  {
    forall d | d in rest
      ensures d.b.subject != e.b.subject
    {
      var i :| 0 <= i < |rest| && rest[i] == d;
      assert (rest + [e])[i] == d && (rest + [e])[|rest|] == e;
    }
  }

  // What becomes of one entry: it stays as it is, goes out once more and stays, or goes out a last time.
  predicate Fate(e: Entry, p: Pick, max: int) {
    || (e.b !in p.sent && e.b !in p.finished && e in p.kept)
    || (e.b in p.sent && e.b !in p.finished && e.transmits + 1 < max && Entry(e.transmits + 1, e.b) in p.kept)
    || (e.b in p.sent && e.b in p.finished && e.transmits + 1 >= max && forall k :: k in p.kept ==> k.b != e.b)
  }

  // Where an entry comes to when the entry behind it is looked at before,
  lemma FateLater(d: Entry, r: Pick, e: Entry, fits: bool, max: int, p: Pick)
    requires Fate(d, r, max) && d.b != e.b
    requires p == Pick(Out(e, fits) + r.sent, Done(e, fits, max) + r.finished, r.kept + Stays(e, fits, max), r.used)
    ensures Fate(d, p, max)
  {}

  // and the entry that is looked at.
  lemma FateNow(r: Pick, e: Entry, fits: bool, max: int, p: Pick)
    requires e.b !in r.sent && e.b !in r.finished && forall k :: k in r.kept ==> k.b != e.b
    requires p == Pick(Out(e, fits) + r.sent, Done(e, fits, max) + r.finished, r.kept + Stays(e, fits, max), r.used)
    ensures Fate(e, p, max)
  {}

  lemma {:induction false} GreedyFate(q: seq<Entry>, overhead: int, limit: int, max: int, used: int, d: Entry)
    requires DistinctSubjects(q) && d in q
    ensures Fate(d, Greedy(q, overhead, limit, max, used), max)
    decreases |q|
  {
    var rest, e := q[..|q| - 1], q[|q| - 1];
    var fits, used' := Fits(e, overhead, limit, used), UsedAfter(e, overhead, limit, used);
    var r := Greedy(rest, overhead, limit, max, used');
    assert q == rest + [e];
    LastIsNew(rest, e);
    if d in rest {
      assert d.b in Members(rest);
      GreedyFate(rest, overhead, limit, max, used', d);
      FateLater(d, r, e, fits, max, Greedy(q, overhead, limit, max, used));
    } else {
      GreedyPicksFrom(rest, overhead, limit, max, used');
      FateNow(r, e, fits, max, Greedy(q, overhead, limit, max, used));
    }
  }

  // What the last entry, looked at first, adds to the pick from the rest.
  lemma {:induction false} GreedyLast(rest: seq<Entry>, e: Entry, overhead: int, limit: int, max: int, used: int)
    ensures var p, fits := Greedy(rest + [e], overhead, limit, max, used), Fits(e, overhead, limit, used);
      var r := Greedy(rest, overhead, limit, max, UsedAfter(e, overhead, limit, used));
      p.kept == r.kept + Stays(e, fits, max) && p.finished == Done(e, fits, max) + r.finished
  {
    assert (rest + [e])[..|rest|] == rest;
  }

  lemma {:induction false} GreedyConserves(q: seq<Entry>, overhead: int, limit: int, max: int, used: int)
    ensures var p := Greedy(q, overhead, limit, max, used);
      multiset(Broadcasts(q)) == multiset(Broadcasts(p.kept)) + multiset(p.finished)
    decreases |q|
  {
    if q == [] {
    } else {
      var rest, e := q[..|q| - 1], q[|q| - 1];
      var fits, used' := Fits(e, overhead, limit, used), UsedAfter(e, overhead, limit, used);
      GreedyConserves(rest, overhead, limit, max, used');
      StaysOrDone(e, fits, max);
      GreedyLast(rest, e, overhead, limit, max, used);
      assert q == rest + [e];
      ConserveStep(rest, e, Greedy(rest, overhead, limit, max, used'), Done(e, fits, max), Stays(e, fits, max));
    }
  }

  lemma ConserveStep(rest: seq<Entry>, e: Entry, r: Pick, done: seq<Broadcast>, stays: seq<Entry>)
    requires multiset(Broadcasts(rest)) == multiset(Broadcasts(r.kept)) + multiset(r.finished)
    requires multiset(Broadcasts([e])) == multiset(Broadcasts(stays)) + multiset(done)
    ensures multiset(Broadcasts(rest + [e])) == multiset(Broadcasts(r.kept + stays)) + multiset(done + r.finished)
  {
    BroadcastsAppend(rest, [e]);
    BroadcastsAppend(r.kept, stays);
    assert multiset(Broadcasts(rest + [e])) == multiset(Broadcasts(rest)) + multiset(Broadcasts([e]));
    assert multiset(Broadcasts(r.kept + stays)) == multiset(Broadcasts(r.kept)) + multiset(Broadcasts(stays));
  }

  lemma StaysOrDone(e: Entry, fits: bool, max: int)
    ensures multiset(Broadcasts([e])) == multiset(Broadcasts(Stays(e, fits, max))) + multiset(Done(e, fits, max))
  {
    assert Broadcasts([e]) == [e.b];
    assert Broadcasts(Stays(e, fits, max)) == if fits && e.transmits + 1 >= max then [] else [e.b];
  }

  // ----- The order of the queue -----

  function Insert(e: Entry, q: seq<Entry>): seq<Entry>
    decreases |q|
  {
    if q == [] || e.transmits >= q[0].transmits then [e] + q else [q[0]] + Insert(e, q[1..])
  }

  lemma {:induction false} InsertAdds(e: Entry, q: seq<Entry>)
    ensures multiset(Insert(e, q)) == multiset(q) + multiset{e}
    decreases |q|
  {
    if q == [] || e.transmits >= q[0].transmits {
    } else {
      InsertAdds(e, q[1..]);
      assert q == [q[0]] + q[1..];
    }
  }

  lemma {:induction false} InsertSorts(e: Entry, q: seq<Entry>)
    requires Descending(q)
    ensures Descending(Insert(e, q))
    decreases |q|
  {
    if q == [] || e.transmits >= q[0].transmits {
    } else {
      InsertSorts(e, q[1..]);
      InsertAdds(e, q[1..]);
      var r := Insert(e, q[1..]);
      forall i | 0 <= i < |r|
        ensures q[0].transmits >= r[i].transmits
      {
        assert r[i] in multiset(r);
        assert r[i] == e || r[i] in q[1..];
      }
    }
  }

  // Stands for the library's sort, which is not stable: only order and contents are relied on.
  method Sort(q: seq<Entry>) returns (r: seq<Entry>)
    ensures Descending(r) && multiset(r) == multiset(q)
  {
    r := [];
    for i := 0 to |q|
      invariant Descending(r) && multiset(r) == multiset(q[..i])
    {
      InsertSorts(q[i], r);
      InsertAdds(q[i], r);
      assert q[..i + 1] == q[..i] + [q[i]];
      r := Insert(q[i], r);
    }
    assert q[..|q|] == q;
  }

  // The queue after packets were filled: the entries that were picked to stay, in transmit order.
  predicate Refilled(q: seq<Entry>, p: Pick, q': seq<Entry>) {
    multiset(q') == multiset(p.kept) && (p.sent == [] ==> q' == q) && (p.sent != [] ==> Descending(q'))
  }

  lemma TakeOut(q: seq<Entry>, i: nat)
    requires i < |q|
    ensures multiset(q) == multiset(q[..i] + q[i + 1..]) + multiset{q[i]}
    ensures multiset(Broadcasts(q)) == multiset(Broadcasts(q[..i] + q[i + 1..])) + multiset{q[i].b}
  {
    var l, r := q[..i], q[i + 1..];
    assert q == l + ([q[i]] + r);
    BroadcastsAppend(l, [q[i]] + r);
    BroadcastsAppend([q[i]], r);
    BroadcastsAppend(l, r);
    assert Broadcasts([q[i]]) == [q[i].b];
  }

  lemma {:induction false} PermutedBroadcasts(p: seq<Entry>, q: seq<Entry>)
    requires multiset(p) == multiset(q)
    ensures multiset(Broadcasts(p)) == multiset(Broadcasts(q))
    decreases |p|
  {
    if p == [] {
      assert |q| == |multiset(q)| == 0;
    } else {
      assert p[0] in multiset(q);
      var i :| 0 <= i < |q| && q[i] == p[0];
      var q' := q[..i] + q[i + 1..];
      TakeOut(p, 0);
      TakeOut(q, i);
      assert p[..0] + p[0 + 1..] == p[1..];
      Cancel(multiset(p), multiset(p[1..]), multiset(q'), p[0]);
      PermutedBroadcasts(p[1..], q');
    }
  }

  lemma Cancel(m: multiset<Entry>, a: multiset<Entry>, b: multiset<Entry>, e: Entry)
    requires m == a + multiset{e} && m == b + multiset{e}
    ensures a == b
  {
    assert a == m - multiset{e} && b == m - multiset{e};
  }

  lemma PermutedDistinct(p: seq<Entry>, q: seq<Entry>)
    requires multiset(p) == multiset(q) && DistinctSubjects(p)
    ensures DistinctSubjects(q)
  {
    Permuted(p, q);
    forall i, j | 0 <= i < j < |q|
      ensures q[i].b.subject != q[j].b.subject
    {
      assert q[i] in p && q[j] in p && q[i] != q[j];
      var a :| 0 <= a < |p| && p[a] == q[i];
      var b :| 0 <= b < |p| && p[b] == q[j];
    }
  }

  class TransmitLimitedQueue {
    var bcQueue: seq<Entry>
    var finished: seq<Broadcast>  // the broadcasts whose Finished was called, in order

    ghost predicate Valid()
      reads this
    {
      DistinctSubjects(bcQueue) && Descending(bcQueue)
    }

    constructor ()
      ensures Valid() && bcQueue == [] && finished == []
    {
      bcQueue, finished := [], [];
    }

    // The removal scan.
    method Invalidate(subject: Subject)
      modifies this
      ensures bcQueue == SkippingRemoval(old(bcQueue), subject)
      ensures finished == old(finished) + SkippingMatches(old(bcQueue), subject)
    {
      var n, i := |bcQueue|, 0;
      ghost var q0, fin0 := bcQueue, finished;
      ghost var head, tail := [], bcQueue;
      while i < n
        invariant n == |bcQueue| && bcQueue == head + tail && (tail == [] || i == |head|)
        invariant i >= |head|
        invariant Removing(q0, fin0, head, tail, finished, subject)
        decreases n - i
      {
        if subject == bcQueue[i].b.subject {
          RemoveRound(q0, fin0, head, tail, finished, subject);
          finished := finished + [bcQueue[i].b];
          CloseGap(head, tail);
          bcQueue := bcQueue[..i] + bcQueue[i + 1..];
          n := n - 1;
          head, tail := head + if |tail| > 1 then [tail[1]] else [], if |tail| > 1 then tail[2..] else [];
        } else {
          KeepRound(q0, fin0, head, tail, finished, subject);
          head, tail := head + [tail[0]], tail[1..];
        }
        i := i + 1;
      }
      assert head + [] == head && finished + [] == finished;
    }

    method QueueBroadcast(b: Broadcast)
      requires Valid()
      modifies this
      ensures Valid()
      ensures bcQueue == Without(old(bcQueue), b.subject) + [Entry(0, b)]
      ensures finished == old(finished) + Matching(old(bcQueue), b.subject)
    {
      ghost var q0 := bcQueue;
      Invalidate(b.subject);
      SkippingRemovalIff(q0, b.subject);
      DistinctHaveNoNeighbours(q0, b.subject);
      WithoutKeeps(q0, b.subject);
      assert forall j :: 0 <= j < |bcQueue| ==> bcQueue[j] in bcQueue;
      bcQueue := bcQueue + [Entry(0, b)];
    }

    // Entry i goes out once more if it fits; when it is done it is overwritten by the last one.
    method Consider(i: nat, overhead: int, limit: int, transmitLimit: int, bytesUsed: int)
      returns (used: int, ghost sent: seq<Broadcast>, toSend: seq<seq<byte>>)
      requires i < |bcQueue|
      modifies this
      ensures var e := old(bcQueue)[i]; var fits := Fits(e, overhead, limit, bytesUsed);
        && used == UsedAfter(e, overhead, limit, bytesUsed)
        && sent == Out(e, fits) && toSend == Messages(sent)
        && finished == old(finished) + Done(e, fits, transmitLimit)
        && i <= |bcQueue| && bcQueue[..i] == old(bcQueue)[..i]
        && multiset(bcQueue[i..]) == multiset(Stays(e, fits, transmitLimit)) + multiset(old(bcQueue)[i + 1..])
      ensures sent == [] ==> bcQueue == old(bcQueue)
    {
      var e := bcQueue[i];
      if bytesUsed + overhead + |e.b.msg| > limit {
        used, sent, toSend := bytesUsed, [], [];
        assert bcQueue[i..] == [e] + bcQueue[i + 1..];
        return;
      }
      used := bytesUsed + overhead + |e.b.msg|;
      sent, toSend := [e.b], [e.b.msg];
      var transmits := e.transmits + 1;
      if transmits >= transmitLimit {
        finished := finished + [e.b];
        var n := |bcQueue|;
        SwapRemove(bcQueue, i);
        bcQueue := bcQueue[i := bcQueue[n - 1]][..n - 1];
      } else {
        Overwrite(bcQueue, i, Entry(transmits, e.b));
        bcQueue := bcQueue[i := Entry(transmits, e.b)];
      }
    }

    // The scan from the newest entry to the oldest.
    method FillPacket(overhead: int, limit: int, transmitLimit: int)
      returns (toSend: seq<seq<byte>>, ghost sent: seq<Broadcast>)
      modifies this
      ensures var p := Greedy(old(bcQueue), overhead, limit, transmitLimit, 0);
        && sent == p.sent && toSend == Messages(sent)
        && finished == old(finished) + p.finished
        && multiset(bcQueue) == multiset(p.kept)
        && (sent == [] ==> bcQueue == old(bcQueue))
    {
      ghost var q0, fin0 := bcQueue, finished;
      toSend, sent := [], [];
      var bytesUsed := 0;
      var i := |bcQueue| - 1;
      assert q0[..i + 1] == q0;
      while i >= 0
        invariant -1 <= i < |q0| && toSend == Messages(sent)
        invariant InScan(q0, bcQueue, i + 1, overhead, limit, transmitLimit, bytesUsed, fin0, sent, finished)
      {
        ghost var now, finished', used := bcQueue, finished, bytesUsed;
        var ms;
        ghost var out;
        bytesUsed, out, ms := Consider(i, overhead, limit, transmitLimit, bytesUsed);
        ScanRound(q0, now, bcQueue, i, overhead, limit, transmitLimit, used, fin0, sent, finished', out);
        MessagesAppend(sent, out);
        toSend, sent := toSend + ms, sent + out;
        i := i - 1;
      }
      assert bcQueue[0..] == bcQueue;
    }

    method GetBroadcasts(overhead: int, limit: int, transmitLimit: int)
      returns (toSend: seq<seq<byte>>, ghost sent: seq<Broadcast>)
      requires Valid()
      modifies this
      ensures Valid()
      ensures var p := Greedy(old(bcQueue), overhead, limit, transmitLimit, 0);
        && sent == p.sent && toSend == Messages(sent)
        && finished == old(finished) + p.finished
        && Refilled(old(bcQueue), p, bcQueue)
      ensures Framed(sent, overhead) <= limit || sent == []
      ensures overhead >= 0 ==>
        forall e :: e in old(bcQueue) ==> e.b in sent || Framed(sent, overhead) + overhead + |e.b.msg| > limit
      ensures var q := old(bcQueue);
        q != [] && overhead + |q[|q| - 1].b.msg| <= limit ==> sent != [] && sent[0] == q[|q| - 1].b
    {
      toSend, sent := [], [];
      if |bcQueue| == 0 {
        return;
      }
      ghost var q0 := bcQueue;
      toSend, sent := FillPacket(overhead, limit, transmitLimit);
      if |toSend| > 0 {
        bcQueue := Sort(bcQueue);
      }
      GreedyPicksOnce(q0, overhead, limit, transmitLimit, 0);
      PermutedDistinct(Greedy(q0, overhead, limit, transmitLimit, 0).kept, bcQueue);
      PacketIsFull(q0, overhead, limit, transmitLimit);
    }

    // Only the latest maxRetain are kept.
    method Prune(maxRetain: nat)
      requires Valid()
      modifies this
      ensures Valid()
      ensures bcQueue == Latest(old(bcQueue), maxRetain)
      ensures finished == old(finished) + Broadcasts(old(bcQueue)[..|old(bcQueue)| - |bcQueue|])
    {
      var n := |bcQueue|;
      if n < maxRetain {
        assert bcQueue[..0] == [];
        return;
      }
      for i := 0 to n - maxRetain
        invariant bcQueue == old(bcQueue)
        invariant finished == old(finished) + Broadcasts(bcQueue[..i])
      {
        assert bcQueue[..i + 1] == bcQueue[..i] + [bcQueue[i]];
        finished := finished + [bcQueue[i].b];
      }
      bcQueue := bcQueue[n - maxRetain..];
    }

    method Reset()
      requires Valid()
      modifies this
      ensures Valid() && bcQueue == [] && finished == old(finished) + Broadcasts(old(bcQueue))
    {
      for i := 0 to |bcQueue|
        invariant bcQueue == old(bcQueue)
        invariant finished == old(finished) + Broadcasts(bcQueue[..i])
      {
        assert bcQueue[..i + 1] == bcQueue[..i] + [bcQueue[i]];
        finished := finished + [bcQueue[i].b];
      }
      assert bcQueue[..|bcQueue|] == bcQueue;
      bcQueue := [];
    }
  }

  // What the removal scan has passed, and what it makes of the rest, is the whole result.
  ghost predicate Removing(q0: seq<Entry>, fin0: seq<Broadcast>, head: seq<Entry>, tail: seq<Entry>,
                           finished: seq<Broadcast>, subject: Subject)
  {
    && head + SkippingRemoval(tail, subject) == SkippingRemoval(q0, subject)
    && finished + SkippingMatches(tail, subject) == fin0 + SkippingMatches(q0, subject)
  }

  lemma RemoveRound(q0: seq<Entry>, fin0: seq<Broadcast>, head: seq<Entry>, tail: seq<Entry>,
                    finished: seq<Broadcast>, subject: Subject)
    requires Removing(q0, fin0, head, tail, finished, subject)
    requires tail != [] && tail[0].b.subject == subject
    ensures Removing(q0, fin0, head + if |tail| > 1 then [tail[1]] else [], if |tail| > 1 then tail[2..] else [],
                     finished + [tail[0].b], subject)
  {
    if |tail| > 1 {
      Reassociate(head, [tail[1]], SkippingRemoval(tail[2..], subject));
      Reassociate(finished, [tail[0].b], SkippingMatches(tail[2..], subject));
    } else {
      assert head + [] == head && [tail[0].b] + [] == [tail[0].b];
      assert (finished + [tail[0].b]) + [] == finished + [tail[0].b];
    }
  }

  lemma KeepRound(q0: seq<Entry>, fin0: seq<Broadcast>, head: seq<Entry>, tail: seq<Entry>,
                  finished: seq<Broadcast>, subject: Subject)
    requires Removing(q0, fin0, head, tail, finished, subject)
    requires tail != [] && tail[0].b.subject != subject
    ensures Removing(q0, fin0, head + [tail[0]], tail[1..], finished, subject)
  {
    Reassociate(head, [tail[0]], SkippingRemoval(tail[1..], subject));
  }

  lemma CloseGap(head: seq<Entry>, tail: seq<Entry>)
    requires tail != []
    ensures var q := head + tail;
      q[..|head|] + q[|head| + 1..] ==
        (head + if |tail| > 1 then [tail[1]] else []) + if |tail| > 1 then tail[2..] else []
  {}

  lemma Overwrite(q: seq<Entry>, i: nat, e: Entry)
    requires i < |q|
    ensures q[i := e][..i] == q[..i] && multiset(q[i := e][i..]) == multiset([e]) + multiset(q[i + 1..])
  {
    assert q[i := e][i..] == [e] + q[i + 1..];
  }

  // What the scan did, and what the rest of the queue will add, make up the whole pick.
  ghost predicate Scanned(p: Pick, rest: Pick, fin0: seq<Broadcast>,
                          sent: seq<Broadcast>, finished: seq<Broadcast>, passed: multiset<Entry>)
  {
    && p.sent == sent + rest.sent
    && fin0 + p.finished == finished + rest.finished
    && multiset(p.kept) == multiset(rest.kept) + passed
  }

  lemma ScanStep(p: Pick, r: Pick, r': Pick, fin0: seq<Broadcast>, sent: seq<Broadcast>, finished: seq<Broadcast>,
                 passed: multiset<Entry>, out: seq<Broadcast>, done: seq<Broadcast>, stays: seq<Entry>)
    requires Scanned(p, r, fin0, sent, finished, passed)
    requires r.sent == out + r'.sent && r.finished == done + r'.finished && r.kept == r'.kept + stays
    ensures Scanned(p, r', fin0, sent + out, finished + done, multiset(stays) + passed)
  {
    assert sent + (out + r'.sent) == (sent + out) + r'.sent;
    assert finished + (done + r'.finished) == (finished + done) + r'.finished;
    assert multiset(r'.kept + stays) == multiset(r'.kept) + multiset(stays);
  }

  // The scan has passed the entries from i on.
  ghost predicate InScan(q0: seq<Entry>, now: seq<Entry>, i: int, overhead: int, limit: int, max: int, used: int,
                         fin0: seq<Broadcast>, sent: seq<Broadcast>, finished: seq<Broadcast>)
  {
    && 0 <= i <= |q0| && i <= |now| && now[..i] == q0[..i] && (sent == [] ==> now == q0)
    && Scanned(Greedy(q0, overhead, limit, max, 0), Greedy(q0[..i], overhead, limit, max, used),
               fin0, sent, finished, multiset(now[i..]))
  }

  lemma ScanRound(q0: seq<Entry>, now: seq<Entry>, next: seq<Entry>, i: nat,
                  overhead: int, limit: int, max: int, used: int,
                  fin0: seq<Broadcast>, sent: seq<Broadcast>, finished: seq<Broadcast>, out: seq<Broadcast>)
    requires InScan(q0, now, i + 1, overhead, limit, max, used, fin0, sent, finished)
    requires var e := now[i]; var fits := Fits(e, overhead, limit, used);
      && out == Out(e, fits) && i <= |next| && next[..i] == now[..i] && (out == [] ==> next == now)
      && multiset(next[i..]) == multiset(Stays(e, fits, max)) + multiset(now[i + 1..])
    ensures InScan(q0, next, i, overhead, limit, max, UsedAfter(now[i], overhead, limit, used),
                   fin0, sent + out, finished + Done(now[i], Fits(now[i], overhead, limit, used), max))
  {
    var e, q, p := now[i], q0[..i + 1], Greedy(q0, overhead, limit, max, 0);
    var fits := Fits(e, overhead, limit, used);
    assert q[..|q| - 1] == q0[..i] && q[|q| - 1] == e && now[..i] == q0[..i] by {
      assert now[..i + 1][..i] == now[..i] && now[..i + 1][i] == now[i];
    }
    ScanStep(p, Greedy(q, overhead, limit, max, used),
             Greedy(q0[..i], overhead, limit, max, UsedAfter(e, overhead, limit, used)),
             fin0, sent, finished, multiset(now[i + 1..]), out, Done(e, fits, max), Stays(e, fits, max));
  }

  lemma MessagesAppend(p: seq<Broadcast>, q: seq<Broadcast>)
    ensures Messages(p + q) == Messages(p) + Messages(q)
  {}

  function Latest(q: seq<Entry>, maxRetain: nat): seq<Entry> {
    if |q| < maxRetain then q else q[|q| - maxRetain..]
  }

  // The newest entries, as many as there may be.
  lemma LatestIs(q: seq<Entry>, maxRetain: nat)
    ensures var r := Latest(q, maxRetain);
      |r| == (if |q| < maxRetain then |q| else maxRetain)
      && forall i :: |q| - |r| <= i < |q| ==> r[i - (|q| - |r|)] == q[i]
  {}

  // Moving the last entry into the gap removes one entry and leaves everything before the gap in place.
  lemma SwapRemove(q: seq<Entry>, i: nat)
    requires i < |q|
    ensures var r := q[i := q[|q| - 1]][..|q| - 1];
      r[..i] == q[..i] && multiset(r[i..]) == multiset(q[i + 1..])
  {
    var n := |q|;
    var r := q[i := q[n - 1]][..n - 1];
    if i < n - 1 {
      assert r[i..] == [q[n - 1]] + q[i + 1..n - 1];
      assert q[i + 1..] == q[i + 1..n - 1] + [q[n - 1]];
    }
  }

  function Messages(bs: seq<Broadcast>): (ms: seq<seq<byte>>)
    ensures |ms| == |bs| && forall i :: 0 <= i < |bs| ==> ms[i] == bs[i].msg
  {
    seq(|bs|, i requires 0 <= i < |bs| => bs[i].msg)
  }
}
