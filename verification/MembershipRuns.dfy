// Any number of members exchanging messages and pushed states over a network that loses, repeats and reorders.
module MembershipRuns {
  import opened Bytes
  import opened Membership

  // `announced` are the members that have made their first announcement.
  datatype Cluster = Cluster(locals: map<string, Local>, announced: set<string>, net: set<Msg>)

  const EMPTY := Cluster(map[], {}, {})

  // Each is one locked region, or one access outside the lock. The listeners of a member run before it announces
  // itself. A probe that fails and a suspicion that runs out put an accusation on the network, from a record as
  // it then is: what made the member look at the record may be past, and the handler runs later, possibly after
  // the record has changed. So does the handler of a member's own death. A push/pull puts one message for each
  // record on the network, and takes in any of those.
  datatype Label =
    | Create(n: string)
    | Announce(n: string, inc: nat, addr: Addr, meta: seq<byte>, vsn: seq<byte>)
    | Act(n: string, op: Op)
    | Accuse(n: string, b: string)
    | TimeOut(n: string, b: string)
    | Depart(n: string)
    | Push(n: string)

  // A message is taken in only after it was sent; updating, leaving and reaping need an announced member.
  predicate Enabled(c: Cluster, l: Label) {
    match l
    case Create(n) => n !in c.locals
    case Announce(n, inc, addr, meta, vsn) =>
      n in c.locals && n !in c.announced && inc <= c.locals[n].counter && |vsn| == 6
    case Act(n, op) =>
      n in c.locals && Fits(op) && (op.Receive? ==> op.m in c.net) && (n !in c.announced ==> IsEarly(op))
    case Accuse(n, b) => n in c.locals && b in c.locals[n].records
    case TimeOut(n, b) => n in c.locals && b in c.locals[n].records
    case Depart(n) => n in c.announced && n in c.locals && c.locals[n].leaving && n in c.locals[n].records
    case Push(n) => n in c.locals
  }

  // Every broadcast that a member has queued may be on its way.
  function Publish(c: Cluster, n: string, l: Local): Cluster {
    c.(locals := c.locals[n := l], net := c.net + set m | m in l.queued)
  }

  function Next(c: Cluster, l: Label): Cluster
    requires Enabled(c, l)
  {
    match l
    case Create(n) => Publish(c, n, Initial(n))
    case Announce(n, inc, addr, meta, vsn) =>
      Publish(c.(announced := c.announced + {n}), n, Membership.Step(c.locals[n], Bootstrap(inc, addr, meta, vsn)))
    case Act(n, op) => Publish(c, n, Membership.Step(c.locals[n], op))
    case Accuse(n, b) => c.(net := c.net + {SuspectMsg(c.locals[n].records[b].inc, b, n)})
    case TimeOut(n, b) => c.(net := c.net + {DeadMsg(c.locals[n].records[b].inc, b, n)})
    case Depart(n) => c.(net := c.net + {DeadMsg(c.locals[n].records[n].inc, n, "")})
    case Push(n) =>
      c.(net := c.net + set b, to | b in c.locals[n].records && to in c.locals :: Pushed(c.locals[n].records[b], b, to))
  }

  predicate IsRun(cs: seq<Cluster>, ls: seq<Label>) {
    |cs| == |ls| + 1 && cs[0] == EMPTY &&
    forall i :: 0 <= i < |ls| ==> Enabled(cs[i], ls[i]) && cs[i + 1] == Next(cs[i], ls[i])
  }

  // ----- Incarnations -----

  // b has announced itself, and reached the incarnation.
  predicate Owned(c: Cluster, b: string, inc: nat) {
    b in c.announced && b in c.locals && inc <= c.locals[b].counter
  }

  // The steps in which a member speaks of itself.
  predicate AboutSelf(l: Local, op: Op) { op.Bootstrap? || (op.Receive? && op.m.node == l.name) }

  // Where the incarnation of a record, and a queued message, come from.
  predicate RecordOrigin(l: Local, op: Op, t: Local, b: string) {
    b in t.records ==>
      || (b in l.records && t.records[b].inc == l.records[b].inc)
      || (op.Receive? && op.m.node == b && t.records[b].inc <= op.m.inc)
      || (b == l.name && AboutSelf(l, op) && t.records[b].inc <= t.counter)
  }

  predicate QueueOrigin(l: Local, op: Op, t: Local, m: Msg) {
    m in t.queued ==>
      || m in l.queued
      || (op.Receive? && m == op.m)
      || (m.AliveMsg? && m.node == l.name && AboutSelf(l, op) && m.inc <= t.counter && WellFormed(m))
  }

  ghost predicate SixVersions(l: Local) {
    forall b :: b in l.records ==> |l.records[b].vsn| == 6
  }

  lemma RecordOrigins(l: Local, op: Op, b: string)
    requires Fits(op)
    ensures RecordOrigin(l, op, Membership.Step(l, op), b)
    ensures var t := Membership.Step(l, op);
      b in t.records && (b in l.records ==> |l.records[b].vsn| == 6) ==> |t.records[b].vsn| == 6
  {
    match op
    case Receive(m) =>
      if m.AliveMsg? {
        AliveOrigins(l, m, false, b);
      }
    case Bootstrap(inc, addr, meta, vsn) =>
      if inc <= l.counter {
        AliveOrigins(l, AliveMsg(inc, l.name, addr, meta, vsn), true, b);
      }
    case _ =>
  }

  lemma AliveOrigins(l: Local, a: Msg, bootstrap: bool, b: string)
    requires a.AliveMsg? && WellFormed(a)
    ensures var t := OnAlive(l, a, bootstrap);
      b in t.records ==>
        && ((b in l.records ==> |l.records[b].vsn| == 6) ==> |t.records[b].vsn| == 6)
        && (|| (b in l.records && t.records[b].inc == l.records[b].inc)
            || (a.node == b && t.records[b].inc <= a.inc)
            || (b == l.name && a.node == l.name && t.records[b].inc <= t.counter))
  {}

  lemma QueueOrigins(l: Local, op: Op, m: Msg)
    requires Fits(op)
    requires l.name in l.records ==> |l.records[l.name].vsn| == 6
    ensures QueueOrigin(l, op, Membership.Step(l, op), m)
  {}

  lemma LocalOrigins(l: Local, op: Op)
    requires Fits(op) && SixVersions(l)
    ensures var t := Membership.Step(l, op);
      && t.name == l.name && t.counter >= l.counter && SixVersions(t)
      && (forall b :: RecordOrigin(l, op, t, b)) && (forall m :: QueueOrigin(l, op, t, m))
  {
    var t := Membership.Step(l, op);
    forall b
      ensures RecordOrigin(l, op, t, b) && (b in t.records ==> |t.records[b].vsn| == 6)
    {
      RecordOrigins(l, op, b);
    }
    forall m
      ensures QueueOrigin(l, op, t, m)
    {
      QueueOrigins(l, op, m);
    }
  }

  ghost predicate IncarnationsOwned(c: Cluster) {
    && c.announced <= c.locals.Keys
    && (forall n :: n in c.locals ==> LocalOwned(c, n, c.locals[n]))
    && (forall m :: m in c.net ==> Owned(c, m.node, m.inc) && WellFormed(m))
  }

  ghost predicate LocalOwned(c: Cluster, n: string, l: Local) {
    && l.name == n && SixVersions(l)
    && (forall b :: b in l.records ==> Owned(c, b, l.records[b].inc))
    && (forall m :: m in l.queued ==> Owned(c, m.node, m.inc) && WellFormed(m))
  }

  // A member acts: its counter may rise, everything else stays owned.
  lemma PublishKeepsOwned(c: Cluster, n: string, t: Local, announced: set<string>)
    requires IncarnationsOwned(c) && c.announced <= announced <= c.locals.Keys + {n}
    requires n in c.locals ==> c.locals[n].counter <= t.counter
    requires LocalOwned(c.(locals := c.locals[n := t], announced := announced), n, t)
    ensures IncarnationsOwned(Publish(c.(announced := announced), n, t))
  {
    var e := c.(locals := c.locals[n := t], announced := announced);
    var d := Publish(c.(announced := announced), n, t);
    forall b, inc | Owned(c, b, inc) || Owned(e, b, inc)
      ensures Owned(d, b, inc)
    {
    }
    forall x | x in d.locals
      ensures LocalOwned(d, x, d.locals[x])
    {
      if x != n {
        assert LocalOwned(c, x, c.locals[x]);
      }
    }
  }

  lemma ActKeepsOwned(c: Cluster, n: string, op: Op, announced: set<string>)
    requires IncarnationsOwned(c) && n in c.locals && Fits(op) && (op.Receive? ==> op.m in c.net)
    requires c.announced <= announced <= c.locals.Keys && (op.Bootstrap? ==> n in announced)
    ensures IncarnationsOwned(Publish(c.(announced := announced), n, Membership.Step(c.locals[n], op)))
  {
    var l := c.locals[n];
    var t := Membership.Step(l, op);
    assert LocalOwned(c, n, l);
    LocalOrigins(l, op);
    var d := c.(locals := c.locals[n := t], announced := announced);
    assert op.Receive? ==> Owned(c, op.m.node, op.m.inc);
    assert AboutSelf(l, op) ==> n in announced;
    forall b | b in t.records
      ensures Owned(d, b, t.records[b].inc)
    {
      assert RecordOrigin(l, op, t, b);
      assert b in l.records ==> Owned(c, b, l.records[b].inc);
    }
    forall m | m in t.queued
      ensures Owned(d, m.node, m.inc) && WellFormed(m)
    {
      assert QueueOrigin(l, op, t, m);
    }
    PublishKeepsOwned(c, n, t, announced);
  }

  lemma NextKeepsOwned(c: Cluster, l: Label)
    requires IncarnationsOwned(c) && Enabled(c, l)
    ensures IncarnationsOwned(Next(c, l))
  {
    match l
    case Create(n) => PublishKeepsOwned(c, n, Initial(n), c.announced);
    case Announce(n, inc, addr, meta, vsn) =>
      ActKeepsOwned(c, n, Bootstrap(inc, addr, meta, vsn), c.announced + {n});
    case Act(n, op) => ActKeepsOwned(c, n, op, c.announced);
    case Accuse(n, b) => Sent(c, Next(c, l), n);
    case TimeOut(n, b) => Sent(c, Next(c, l), n);
    case Depart(n) => Sent(c, Next(c, l), n);
    case Push(n) => Sent(c, Next(c, l), n);
  }

  predicate TakenFrom(m: Msg, l: Local) {
    && m.node in l.records && m.inc == l.records[m.node].inc && (m.AliveMsg? ==> m.vsn == l.records[m.node].vsn)
  }

  // Messages made of a member's own records.
  lemma Sent(c: Cluster, d: Cluster, n: string)
    requires IncarnationsOwned(c) && n in c.locals && d.locals == c.locals && d.announced == c.announced
    requires forall m :: m in d.net ==> m in c.net || TakenFrom(m, c.locals[n])
    ensures IncarnationsOwned(d)
  {
    assert LocalOwned(c, n, c.locals[n]);
    forall b, inc | Owned(c, b, inc)
      ensures Owned(d, b, inc)
    {
    }
    forall x | x in d.locals
      ensures LocalOwned(d, x, d.locals[x])
    {
      assert LocalOwned(c, x, c.locals[x]);
    }
  }

  // In every state of every run, each record and each message about b carries an incarnation that b has
  // reached, and there are none before b has announced itself.
  lemma {:induction false} RunKeepsOwned(cs: seq<Cluster>, ls: seq<Label>, i: nat)
    requires IsRun(cs, ls) && i < |cs|
    ensures IncarnationsOwned(cs[i])
    decreases i
  {
    if i == 0 {
    } else {
      RunKeepsOwned(cs, ls, i - 1);
      NextKeepsOwned(cs[i - 1], ls[i - 1]);
    }
  }

  // Everything that a member has queued may be on its way after it has acted; a failed probe and a suspicion that
  // has run out are told with the incarnation of the record, a leave with the own one, and a push brings each record
  // to each member. Nothing else is new.
  lemma OnItsWayIff(c: Cluster, l: Label, m: Msg)
    requires Enabled(c, l)
    ensures m in Next(c, l).net <==>
      || m in c.net
      || (l.Accuse? && m == SuspectMsg(c.locals[l.n].records[l.b].inc, l.b, l.n))
      || (l.TimeOut? && m == DeadMsg(c.locals[l.n].records[l.b].inc, l.b, l.n))
      || (l.Depart? && m == DeadMsg(c.locals[l.n].records[l.n].inc, l.n, ""))
      || (l.Push? && exists b, to :: b in c.locals[l.n].records && to in c.locals
                                     && m == Pushed(c.locals[l.n].records[b], b, to))
      || ((l.Create? || l.Announce? || l.Act?) && m in Next(c, l).locals[l.n].queued)
  {}

  function Actor(l: Label): string { l.n }

  // Only b itself raises the counter of b, and no step lowers it.
  lemma OnlyOwnerRaises(c: Cluster, l: Label, b: string)
    requires Enabled(c, l) && b in c.locals
    ensures b in Next(c, l).locals
    ensures b != Actor(l) ==> Next(c, l).locals[b] == c.locals[b]
    ensures Next(c, l).locals[b].counter >= c.locals[b].counter
  {}

  // Before its announcement a member knows nothing of itself, and afterwards it is running.
  ghost predicate InOrder(c: Cluster, n: string, l: Local) {
    && l.name == n
    && (n in c.announced ==> Running(l))
    && (n !in c.announced ==> Early(l) && n !in l.records && !Present(l.events, n))
  }

  lemma ActKeepsInOrder(c: Cluster, n: string, op: Op)
    requires IncarnationsOwned(c) && Enabled(c, Act(n, op)) && InOrder(c, n, c.locals[n])
    ensures InOrder(c, n, Membership.Step(c.locals[n], op))
  {
    var l := c.locals[n];
    if n in c.announced {
      StepKeepsRunning(l, op);
    } else {
      assert op.Receive? ==> Owned(c, op.m.node, op.m.inc);
      assert Exec(l, [op]) == Membership.Step(l, op) by {
        assert [op][1..] == [];
      }
      EarlyRun(l, [op]);
    }
  }

  lemma NextKeepsInOrder(c: Cluster, l: Label, n: string)
    requires IncarnationsOwned(c) && Enabled(c, l) && n in Next(c, l).locals
    requires n in c.locals ==> InOrder(c, n, c.locals[n])
    ensures InOrder(Next(c, l), n, Next(c, l).locals[n])
  {
    match l
    case Create(x) =>
      if x == n {
        assert n !in c.announced;
        assert forall b :: Notifying(Initial(n), b);
      }
    case Announce(x, inc, addr, meta, vsn) =>
      if x == n {
        AnnouncementIff(c.locals[n], inc, addr, meta, vsn);
      }
    case Act(x, op) =>
      if x == n {
        ActKeepsInOrder(c, n, op);
      }
    case _ =>
  }

  // In every run, whatever comes in before or after its announcement: every announced member is alive in its own
  // list as long as it is not leaving, and its notifications alternate.
  lemma {:induction false} RunKeepsInOrder(cs: seq<Cluster>, ls: seq<Label>, i: nat, n: string)
    requires IsRun(cs, ls) && i < |cs| && n in cs[i].locals
    ensures InOrder(cs[i], n, cs[i].locals[n])
    decreases i
  {
    if i == 0 {
    } else {
      var c, l := cs[i - 1], ls[i - 1];
      if n in c.locals {
        RunKeepsInOrder(cs, ls, i - 1, n);
      }
      RunKeepsOwned(cs, ls, i - 1);
      NextKeepsInOrder(c, l, n);
    }
  }

  // So whatever accusation about b is on the way in a run, b outranks it at once when it arrives.
  lemma AccusedOutranks(cs: seq<Cluster>, ls: seq<Label>, i: nat, b: string, m: Msg)
    requires IsRun(cs, ls) && i < |cs| && m in cs[i].net && m.node == b && !m.AliveMsg?
    requires b in cs[i].locals && !cs[i].locals[b].leaving
    ensures var l := cs[i].locals[b]; var t := OnMessage(l, m);
      && m.inc <= l.counter
      && b in t.records && t.records[b].status == Alive && m.inc < t.records[b].inc <= t.counter <= l.counter + 1
  {
    RunKeepsOwned(cs, ls, i);
    RunKeepsInOrder(cs, ls, i, b);
    assert LocalOwned(cs[i], b, cs[i].locals[b]);
    assert Owned(cs[i], m.node, m.inc);
    AccusationIsOutranked(cs[i].locals[b], m);
  }
}
