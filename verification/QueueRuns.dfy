// Every sequence of calls on the broadcast queue, each with the transmit limit of the cluster's size at the call.
module QueueRuns {
  import opened BroadcastQueue

  // The queue, and what was ever queued, finished and handed out.
  datatype State = State(q: seq<Entry>, queued: seq<Broadcast>, finished: seq<Broadcast>, sent: seq<Broadcast>)

  const EMPTY := State([], [], [], [])

  datatype Op =
    | Queue(b: Broadcast)
    | Get(overhead: int, limit: int, transmitLimit: int)
    | Prune(maxRetain: nat)
    | Reset

  // What the methods of the queue promise.
  predicate Next(s: State, op: Op, t: State) {
    match op
    case Queue(b) =>
      t == State(Without(s.q, b.subject) + [Entry(0, b)], s.queued + [b], s.finished + Matching(s.q, b.subject), s.sent)
    case Get(overhead, limit, transmitLimit) =>
      var p := Greedy(s.q, overhead, limit, transmitLimit, 0);
      t == State(t.q, s.queued, s.finished + p.finished, s.sent + p.sent) && Refilled(s.q, p, t.q)
    case Prune(maxRetain) =>
      var q := Latest(s.q, maxRetain);
      t == State(q, s.queued, s.finished + Broadcasts(s.q)[..|s.q| - |q|], s.sent)
    case Reset => t == State([], s.queued, s.finished + Broadcasts(s.q), s.sent)
  }

  predicate IsRun(ss: seq<State>, ops: seq<Op>) {
    |ss| == |ops| + 1 && ss[0] == EMPTY && forall i :: 0 <= i < |ops| ==> Next(ss[i], ops[i], ss[i + 1])
  }

  // No call has a higher transmit limit.
  predicate Within(op: Op, max: int) { op.Get? ==> op.transmitLimit <= max }

  predicate AllWithin(ops: seq<Op>, max: int) { forall op :: op in ops ==> Within(op, max) }

  // Even a limit below one lets a message out once.
  function Times(max: int): nat { if max < 1 then 1 else max }

  // No subject is queued twice, the order is that of the transmit counts, and nothing is lost or finished
  // twice.
  ghost predicate WellKept(s: State) {
    && DistinctSubjects(s.q)
    && Descending(s.q)
    && multiset(s.queued) == multiset(Broadcasts(s.q)) + multiset(s.finished)
  }

  // What n queueings of a message may add up to.
  function Budget(max: int, n: nat): nat
    decreases n
  {
    if n == 0 then 0 else Times(max) + Budget(max, n - 1)
  }

  lemma {:induction false} BudgetAdds(max: int, a: nat, b: nat)
    ensures Budget(max, a + b) == Budget(max, a) + Budget(max, b)
    ensures b >= 1 ==> Budget(max, b) >= Times(max)
    decreases b
  {
    if b == 0 {
    } else {
      BudgetAdds(max, a, b - 1);
    }
  }

  lemma {:induction false} BudgetIsProduct(max: int, n: nat)
    ensures Budget(max, n) == Times(max) * n
    decreases n
  {
    if n == 0 {
    } else {
      BudgetIsProduct(max, n - 1);
      assert Times(max) * n == Times(max) * (n - 1) + Times(max);
    }
  }

  // A message in the queue went out as often as its entry says, and within the budget before.
  predicate EntryLimited(e: Entry, sent: nat, finished: nat, max: int) {
    e.transmits < Times(max) && sent <= e.transmits + Budget(max, finished)
  }

  ghost predicate Limited(s: State, max: int) {
    && (forall e :: e in s.q ==> EntryLimited(e, multiset(s.sent)[e.b], multiset(s.finished)[e.b], max))
    && (forall b :: b !in Members(s.q) ==> multiset(s.sent)[b] <= Budget(max, multiset(s.finished)[b]))
  }

  // Entries that leave without going out.
  lemma RemovalKeepsLimits(s: State, t: State, removed: multiset<Broadcast>, max: int)
    requires Limited(s, max) && t.sent == s.sent
    requires forall e :: e in t.q ==> e in s.q
    requires multiset(Broadcasts(s.q)) == multiset(Broadcasts(t.q)) + removed
    requires multiset(t.finished) == multiset(s.finished) + removed
    ensures Limited(t, max)
  {
    forall e | e in t.q
      ensures EntryLimited(e, multiset(t.sent)[e.b], multiset(t.finished)[e.b], max)
    {
      BudgetAdds(max, multiset(s.finished)[e.b], removed[e.b]);
    }
    forall b | b !in Members(t.q)
      ensures multiset(t.sent)[b] <= Budget(max, multiset(t.finished)[b])
    {
      BudgetAdds(max, multiset(s.finished)[b], removed[b]);
      if b in Members(s.q) {
        MemberCounted(s.q, b);
        NotMember(t.q, b);
        var e :| e in s.q && e.b == b;
      }
    }
  }

  lemma MemberCounted(q: seq<Entry>, b: Broadcast)
    requires b in Members(q)
    ensures multiset(Broadcasts(q))[b] >= 1
  {
    var e :| e in q && e.b == b;
    var i :| 0 <= i < |q| && q[i] == e;
    assert Broadcasts(q)[i] == b;
  }

  lemma NotMember(q: seq<Entry>, b: Broadcast)
    requires b !in Members(q)
    ensures multiset(Broadcasts(q))[b] == 0
  {
    forall j | 0 <= j < |q|
      ensures Broadcasts(q)[j] != b
    {
      assert q[j].b in Members(q);
    }
    assert b !in Broadcasts(q);
  }

  lemma QueueStep(s: State, b: Broadcast, max: int, t: State)
    requires WellKept(s) && Limited(s, max) && Next(s, Queue(b), t)
    ensures WellKept(t) && Limited(t, max)
  {
    var u := State(Without(s.q, b.subject), s.queued, t.finished, s.sent);
    WithoutKeeps(s.q, b.subject);
    WithoutAndMatching(s.q, b.subject);
    RemovalKeepsLimits(s, u, multiset(Matching(s.q, b.subject)), max);
    AppendStep(u, b, max, t);
  }

  lemma AppendStep(u: State, b: Broadcast, max: int, t: State)
    requires WellKept(u) && Limited(u, max) && forall e :: e in u.q ==> e.b.subject != b.subject
    requires t == u.(q := u.q + [Entry(0, b)], queued := u.queued + [b])
    ensures WellKept(t) && Limited(t, max)
  {
    AppendWellKept(u, b, max, t);
    assert Members(t.q) == Members(u.q) + {b};
  }

  lemma AppendWellKept(u: State, b: Broadcast, max: int, t: State)
    requires WellKept(u) && forall e :: e in u.q ==> e.b.subject != b.subject
    requires t == u.(q := u.q + [Entry(0, b)], queued := u.queued + [b])
    ensures WellKept(t)
  {
    NewLast(u.q, [Entry(0, b)]);
    BroadcastsAppend(u.q, [Entry(0, b)]);
    assert Broadcasts([Entry(0, b)]) == [b];
  }

  // What is known of a pick from queue q.
  ghost predicate GoodPick(q: seq<Entry>, p: Pick, max: int) {
    && Distinct(p.sent) && Distinct(p.finished) && DistinctSubjects(p.kept)
    && (forall b :: b in p.sent || b in p.finished ==> b in Members(q))
    && (forall k :: k in p.kept ==> k.b in Members(q))
    && (forall e :: e in q ==> Fate(e, p, max))
    && multiset(Broadcasts(q)) == multiset(Broadcasts(p.kept)) + multiset(p.finished)
  }

  lemma {:induction false} GreedyIsGood(q: seq<Entry>, overhead: int, limit: int, max: int)
    requires DistinctSubjects(q)
    ensures GoodPick(q, Greedy(q, overhead, limit, max, 0), max)
  {
    GreedyPicksFrom(q, overhead, limit, max, 0);
    GreedyPicksOnce(q, overhead, limit, max, 0);
    GreedyConserves(q, overhead, limit, max, 0);
    forall e | e in q
      ensures Fate(e, Greedy(q, overhead, limit, max, 0), max)
    {
      GreedyFate(q, overhead, limit, max, 0, e);
    }
  }

  lemma GetStep(s: State, op: Op, max: int, t: State)
    requires WellKept(s) && Limited(s, max) && op.Get? && Within(op, max) && Next(s, op, t)
    ensures WellKept(t) && Limited(t, max)
  {
    GreedyIsGood(s.q, op.overhead, op.limit, op.transmitLimit);
    PickStep(s, Greedy(s.q, op.overhead, op.limit, op.transmitLimit, 0), op.transmitLimit, max, t);
  }

  lemma PickStep(s: State, p: Pick, at: int, max: int, t: State)
    requires WellKept(s) && Limited(s, max) && at <= max && GoodPick(s.q, p, at) && Refilled(s.q, p, t.q)
    requires t == State(t.q, s.queued, s.finished + p.finished, s.sent + p.sent)
    ensures WellKept(t) && Limited(t, max)
  {
    assert WellKept(t) by {
      PermutedBroadcasts(p.kept, t.q);
      assert multiset(t.finished) == multiset(s.finished) + multiset(p.finished);
      PermutedDistinct(p.kept, t.q);
    }
    forall e
      ensures e in t.q <==> e in p.kept
    {
      assert e in multiset(t.q) <==> e in multiset(p.kept);
    }
    forall e | e in t.q
      ensures EntryLimited(e, multiset(t.sent)[e.b], multiset(t.finished)[e.b], max)
    {
      PacketKeepsLimits(s, p, at, max, e.b);
    }
    forall b | b !in Members(t.q)
      ensures multiset(t.sent)[b] <= Budget(max, multiset(t.finished)[b])
    {
      forall k | k in p.kept
        ensures k.b != b
      {
        assert k.b in Members(t.q);
      }
      PacketKeepsLimits(s, p, at, max, b);
    }
  }

  lemma {:induction false} OnceInDistinct(bs: seq<Broadcast>, b: Broadcast)
    requires Distinct(bs)
    ensures multiset(bs)[b] == if b in bs then 1 else 0
    decreases |bs|
  {
    if bs == [] {
    } else {
      assert bs == [bs[0]] + bs[1..];
      OnceInDistinct(bs[1..], b);
    }
  }

  lemma {:induction false} PacketKeepsLimits(s: State, p: Pick, at: int, max: int, b: Broadcast)
    requires Limited(s, max) && at <= max && GoodPick(s.q, p, at)
    ensures var sent, finished := multiset(s.sent + p.sent)[b], multiset(s.finished + p.finished)[b];
      && (forall k :: k in p.kept && k.b == b ==> EntryLimited(k, sent, finished, max))
      && ((forall k :: k in p.kept ==> k.b != b) ==> sent <= Budget(max, finished))
  {
    OnceInDistinct(p.sent, b);
    OnceInDistinct(p.finished, b);
    if b in Members(s.q) {
      var e :| e in s.q && e.b == b;
      assert Fate(e, p, at);
      FateIsLimited(p, e, at, multiset(s.sent)[b], multiset(s.finished)[b], max);
    }
  }

  lemma {:induction false} FateIsLimited(p: Pick, e: Entry, at: int, sent: nat, finished: nat, max: int)
    requires DistinctSubjects(p.kept) && at <= max && Fate(e, p, at) && EntryLimited(e, sent, finished, max)
    ensures var sent' := sent + (if e.b in p.sent then 1 else 0);
      var finished' := finished + (if e.b in p.finished then 1 else 0);
      && (forall k :: k in p.kept && k.b == e.b ==> EntryLimited(k, sent', finished', max))
      && ((forall k :: k in p.kept ==> k.b != e.b) ==> sent' <= Budget(max, finished'))
  {
    BudgetAdds(max, finished, 1);
    if e.b !in p.finished {
      var k := Entry(e.transmits + (if e.b in p.sent then 1 else 0), e.b);
      assert k in p.kept;
      SameSubject(p.kept, k);
    }
  }

  lemma SameSubject(q: seq<Entry>, k: Entry)
    requires DistinctSubjects(q) && k in q
    ensures forall e :: e in q && e.b == k.b ==> e == k
  {}

  lemma PruneStep(s: State, maxRetain: nat, max: int, t: State)
    requires WellKept(s) && Limited(s, max) && Next(s, Prune(maxRetain), t)
    ensures WellKept(t) && Limited(t, max)
  {
    PruneIs(s, maxRetain, t);
    DropOldest(s, |s.q| - |t.q|, max, t);
  }

  lemma PruneIs(s: State, maxRetain: nat, t: State)
    requires Next(s, Prune(maxRetain), t)
    ensures |t.q| <= |s.q|
    ensures var n := |s.q| - |t.q|; t == State(s.q[n..], s.queued, s.finished + Broadcasts(s.q)[..n], s.sent)
  {}

  lemma DropOldest(s: State, n: nat, max: int, t: State)
    requires WellKept(s) && Limited(s, max) && n <= |s.q|
    requires t == State(s.q[n..], s.queued, s.finished + Broadcasts(s.q)[..n], s.sent)
    ensures WellKept(t) && Limited(t, max)
  {
    SplitBroadcasts(s.q, n);
    SuffixWellKept(s.q, n);
    Leaving(s, t, Broadcasts(s.q)[..n], max);
  }

  lemma Leaving(s: State, t: State, gone: seq<Broadcast>, max: int)
    requires WellKept(s) && Limited(s, max) && DistinctSubjects(t.q) && Descending(t.q)
    requires t.queued == s.queued && t.finished == s.finished + gone && t.sent == s.sent
    requires forall e :: e in t.q ==> e in s.q
    requires multiset(Broadcasts(s.q)) == multiset(Broadcasts(t.q)) + multiset(gone)
    ensures WellKept(t) && Limited(t, max)
  {
    assert multiset(t.finished) == multiset(s.finished) + multiset(gone);
    RemovalKeepsLimits(s, t, multiset(gone), max);
  }

  lemma SuffixWellKept(q: seq<Entry>, n: nat)
    requires n <= |q| && DistinctSubjects(q) && Descending(q)
    ensures DistinctSubjects(q[n..]) && Descending(q[n..])
  {}

  lemma SplitBroadcasts(q: seq<Entry>, n: nat)
    requires n <= |q|
    ensures multiset(Broadcasts(q)) == multiset(Broadcasts(q[n..])) + multiset(Broadcasts(q)[..n])
  {
    assert q == q[..n] + q[n..];
    BroadcastsAppend(q[..n], q[n..]);
    assert Broadcasts(q)[..n] == Broadcasts(q[..n]);
  }

  lemma StepKeeps(s: State, op: Op, max: int, t: State)
    requires WellKept(s) && Limited(s, max) && Within(op, max) && Next(s, op, t)
    ensures WellKept(t) && Limited(t, max)
  {
    match op
    case Queue(b) => QueueStep(s, b, max, t);
    case Get(_, _, _) => GetStep(s, op, max, t);
    case Prune(maxRetain) => PruneStep(s, maxRetain, max, t);
    case Reset =>
      assert Broadcasts(t.q) == [];
      RemovalKeepsLimits(s, t, multiset(Broadcasts(s.q)), max);
  }

  // In every state of every run: no subject twice, in transmit order, every broadcast either still queued or
  // finished once for each time it was queued, and handed out at most max(1, limit) times for each, at the highest
  // limit of the run.
  lemma {:induction false} RunIsWellKept(ss: seq<State>, ops: seq<Op>, max: int, i: nat)
    requires IsRun(ss, ops) && AllWithin(ops, max) && i < |ss|
    ensures WellKept(ss[i]) && Limited(ss[i], max)
    decreases i
  {
    if i == 0 {
    } else {
      RunIsWellKept(ss, ops, max, i - 1);
      assert ops[i - 1] in ops;
      StepKeeps(ss[i - 1], ops[i - 1], max, ss[i]);
    }
  }

  lemma RunLimitsTransmits(ss: seq<State>, ops: seq<Op>, max: int, i: nat, b: Broadcast)
    requires IsRun(ss, ops) && AllWithin(ops, max) && i < |ss|
    ensures var s := ss[i]; var queued, sent := multiset(s.queued)[b], multiset(s.sent)[b];
      && sent <= Times(max) * queued
      && queued == multiset(Broadcasts(s.q))[b] + multiset(s.finished)[b]
  {
    RunIsWellKept(ss, ops, max, i);
    var s := ss[i];
    var live := multiset(Broadcasts(s.q))[b];
    BudgetAdds(max, multiset(s.finished)[b], live);
    if b in Members(s.q) {
      MemberCounted(s.q, b);
      var e :| e in s.q && e.b == b;
    }
    BudgetIsProduct(max, multiset(s.queued)[b]);
  }

  function HighestLimit(ops: seq<Op>): (max: int)
    ensures AllWithin(ops, max)
    decreases |ops|
  {
    if ops == [] then 0
    else
      var rest := HighestLimit(ops[1..]);
      assert ops == [ops[0]] + ops[1..];
      if ops[0].Get? && ops[0].transmitLimit > rest then ops[0].transmitLimit else rest
  }

  lemma {:induction false} RunIsKept(ss: seq<State>, ops: seq<Op>, i: nat)
    requires IsRun(ss, ops) && i < |ss|
    ensures WellKept(ss[i])
  {
    var max := HighestLimit(ops);
    RunIsWellKept(ss, ops, max, i);
  }

  // ----- Every message goes out as often as it may -----

  // A packet with room for the whole queue, at this limit.
  predicate Roomy(s: State, op: Op, limit: int) {
    op.Get? && op.overhead >= 0 && op.transmitLimit == limit && Framed(Broadcasts(s.q), op.overhead) <= op.limit
  }

  // A message that has gone out so often is in the queue, or is done and in no entry.
  ghost predicate Placed(q: seq<Entry>, b: Broadcast, transmits: nat, done: bool) {
    if done then forall e :: e in q ==> e.b != b else Entry(transmits, b) in q
  }

  lemma RoomyStep(s: State, op: Op, limit: int, t: State, b: Broadcast, transmits: nat)
    requires WellKept(s) && Roomy(s, op, limit) && Next(s, op, t) && Entry(transmits, b) in s.q
    ensures multiset(t.sent)[b] == multiset(s.sent)[b] + 1
    ensures Placed(t.q, b, transmits + 1, transmits + 1 >= limit)
  {
    var p := Greedy(s.q, op.overhead, op.limit, limit, 0);
    assert b in Members(s.q);
    GreedySendsAll(s.q, op.overhead, op.limit, limit, 0);
    GreedyPicksOnce(s.q, op.overhead, op.limit, limit, 0);
    OnceInDistinct(p.sent, b);
    RoomyKept(s.q, op, limit, b, transmits);
    KeptPlaced(p.kept, t.q, b, transmits + 1, transmits + 1 >= limit);
  }

  lemma {:induction false} RoomyKept(q: seq<Entry>, op: Op, limit: int, b: Broadcast, transmits: nat)
    requires DistinctSubjects(q) && op.Get? && Entry(transmits, b) in q
    requires b in Greedy(q, op.overhead, op.limit, limit, 0).sent
    ensures Placed(Greedy(q, op.overhead, op.limit, limit, 0).kept, b, transmits + 1, transmits + 1 >= limit)
  {
    GreedyFate(q, op.overhead, op.limit, limit, 0, Entry(transmits, b));
  }

  lemma KeptPlaced(kept: seq<Entry>, q: seq<Entry>, b: Broadcast, transmits: nat, done: bool)
    requires multiset(q) == multiset(kept) && Placed(kept, b, transmits, done)
    ensures Placed(q, b, transmits, done)
  {
    forall e
      ensures e in q <==> e in kept
    {
      assert e in multiset(q) <==> e in multiset(kept);
    }
  }

  // One packet on the way.
  ghost predicate GoesOut(s: State, t: State, limit: int, b: Broadcast) {
    forall n: nat :: Entry(n, b) in s.q ==>
      multiset(t.sent)[b] == multiset(s.sent)[b] + 1 && Placed(t.q, b, n + 1, n + 1 >= limit)
  }

  lemma RoomyRun(ss: seq<State>, ops: seq<Op>, i: nat, limit: int, b: Broadcast)
    requires IsRun(ss, ops) && i < |ops| && Roomy(ss[i], ops[i], limit)
    ensures GoesOut(ss[i], ss[i + 1], limit, b)
  {
    RunIsKept(ss, ops, i);
    forall n: nat | Entry(n, b) in ss[i].q
      ensures multiset(ss[i + 1].sent)[b] == multiset(ss[i].sent)[b] + 1
      ensures Placed(ss[i + 1].q, b, n + 1, n + 1 >= limit)
    {
      RoomyStep(ss[i], ops[i], limit, ss[i + 1], b, n);
    }
  }

  lemma {:induction false} CountUp(ss: seq<State>, i: nat, k: nat, limit: int, b: Broadcast, transmits: nat)
    requires i + k < |ss| && Entry(transmits, b) in ss[i].q && transmits + k <= Times(limit)
    requires forall j :: i <= j < i + k ==> GoesOut(ss[j], ss[j + 1], limit, b)
    ensures multiset(ss[i + k].sent)[b] == multiset(ss[i].sent)[b] + k
    ensures Placed(ss[i + k].q, b, transmits + k, k > 0 && transmits + k >= limit)
    decreases k
  {
    if k == 0 {
    } else {
      assert GoesOut(ss[i], ss[i + 1], limit, b);
      if k > 1 {
        CountUp(ss, i + 1, k - 1, limit, b, transmits + 1);
      }
    }
  }

  predicate AllRoomy(ss: seq<State>, ops: seq<Op>, from: nat, to: nat, limit: int)
    requires to < |ss| == |ops| + 1
  {
    forall j {:trigger ops[j]} :: from <= j < to ==> Roomy(ss[j], ops[j], limit)
  }

  lemma OneGoesOut(ss: seq<State>, ops: seq<Op>, from: nat, to: nat, limit: int, b: Broadcast, j: nat)
    requires IsRun(ss, ops) && to < |ss| && AllRoomy(ss, ops, from, to, limit) && from <= j < to
    ensures GoesOut(ss[j], ss[j + 1], limit, b)
  {
    assert Roomy(ss[j], ops[j], limit);
    RoomyRun(ss, ops, j, limit, b);
  }

  // In packets with room, each message of the queue goes out once in each until it has gone out max(1, limit) times,
  // and then leaves the queue.
  lemma {:induction false} EveryMessageGoesOut(ss: seq<State>, ops: seq<Op>, i: nat, k: nat, limit: int, b: Broadcast,
                                               transmits: nat)
    requires IsRun(ss, ops) && i + k < |ss| && Entry(transmits, b) in ss[i].q && transmits + k <= Times(limit)
    requires AllRoomy(ss, ops, i, i + k, limit)
    ensures multiset(ss[i + k].sent)[b] == multiset(ss[i].sent)[b] + k
    ensures Placed(ss[i + k].q, b, transmits + k, k > 0 && transmits + k >= limit)
  {
    forall j | i <= j < i + k
      ensures GoesOut(ss[j], ss[j + 1], limit, b)
    {
      OneGoesOut(ss, ops, i, i + k, limit, b, j);
    }
    CountUp(ss, i, k, limit, b, transmits);
  }
}
