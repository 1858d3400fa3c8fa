// What one member believes about the others: records of (incarnation, alive/suspect/dead), changed by alive,
// suspect and dead messages, and the refutation of accusations about itself.
module Membership {
  import opened Bytes

  datatype Status = Alive | Suspect | Dead

  datatype Addr = Addr(ip: seq<byte>, port: nat)

  datatype Record = Record(addr: Addr, meta: seq<byte>, vsn: seq<byte>, inc: nat, status: Status)
  {
    // Incarnation first, then alive < suspect < dead.
    function Rank(): nat { 3 * inc + match status case Alive => 0 case Suspect => 1 case Dead => 2 }
  }

  datatype Msg =
    | AliveMsg(inc: nat, node: string, addr: Addr, meta: seq<byte>, vsn: seq<byte>)
    | SuspectMsg(inc: nat, node: string, from: string)
    | DeadMsg(inc: nat, node: string, from: string)

  datatype Event = Join(name: string) | Leave(name: string) | Update(name: string)

  // `events` are the notifications given and `queued` the broadcasts queued so far; `counter` is the
  // incarnation counter, unbounded here.
  datatype Local = Local(name: string, counter: nat, leaving: bool, records: map<string, Record>,
                         events: seq<Event>, queued: seq<Msg>)

  function Initial(name: string): Local { Local(name, 0, false, map[], [], []) }

  // An alive message carries no versions, or the six of them.
  predicate WellFormed(m: Msg) { m.AliveMsg? ==> |m.vsn| == 0 || |m.vsn| >= 6 }

  // ----- The handlers -----

  // A member never heard of enters as dead, at incarnation 0.
  function Known(l: Local, a: Msg): Local
    requires a.AliveMsg?
  {
    if a.node in l.records then l
    else l.(records := l.records[a.node := Record(a.addr, a.meta, [0, 0, 0, 0, 0, 0], 0, Dead)])
  }

  // The least new incarnation above an accusation.
  function Refuting(counter: nat, accused: nat): nat {
    if accused >= counter + 1 then accused + 1 else counter + 1
  }

  function Refute(l: Local, accused: nat): Local
    requires l.name in l.records
  {
    var inc, r := Refuting(l.counter, accused), l.records[l.name];
    l.(counter := inc, records := l.records[l.name := r.(inc := inc)],
       queued := l.queued + [AliveMsg(inc, l.name, r.addr, r.meta, r.vsn)])
  }

  function Notified(was: Record, now: Record, name: string): seq<Event> {
    if was.status == Dead then [Join(name)] else if was.meta != now.meta then [Update(name)] else []
  }

  function OnAlive(l: Local, a: Msg, bootstrap: bool): Local
    requires a.AliveMsg? && WellFormed(a)
  {
    if l.leaving && a.node == l.name then l
    else
      var k := Known(l, a);
      var r := k.records[a.node];
      if r.addr != a.addr then k
      else if a.node != l.name && a.inc <= r.inc then k
      else if a.node == l.name && a.inc < r.inc then k
      else if !bootstrap && a.node == l.name then
        if a.inc == r.inc && a.meta == r.meta && a.vsn == r.vsn then k
        else
          var t := Refute(k, a.inc);
          t.(events := t.events + Notified(r, t.records[l.name], l.name))
      else
        var now := Record(r.addr, a.meta, if |a.vsn| > 0 then a.vsn[..6] else r.vsn, a.inc, Alive);
        k.(records := k.records[a.node := now], queued := k.queued + [a], events := k.events + Notified(r, now, a.node))
  }

  lemma KnownFirst(l: Local, a: Msg, bootstrap: bool)
    requires a.AliveMsg? && WellFormed(a) && !(l.leaving && a.node == l.name)
    ensures OnAlive(Known(l, a), a, bootstrap) == OnAlive(l, a, bootstrap)
  {}

  function OnSuspect(l: Local, s: Msg): Local
    requires s.SuspectMsg?
  {
    if s.node !in l.records then l
    else
      var r := l.records[s.node];
      if s.inc < r.inc || r.status != Alive then l
      else if s.node == l.name then Refute(l, s.inc)
      else l.(records := l.records[s.node := r.(inc := s.inc, status := Suspect)], queued := l.queued + [s])
  }

  function OnDead(l: Local, d: Msg): Local
    requires d.DeadMsg?
  {
    if d.node !in l.records then l
    else
      var r := l.records[d.node];
      if d.inc < r.inc || r.status == Dead then l
      else if d.node == l.name && !l.leaving then Refute(l, d.inc)
      else
        l.(records := l.records[d.node := r.(inc := d.inc, status := Dead)], queued := l.queued + [d],
           events := l.events + [Leave(d.node)])
  }

  function OnMessage(l: Local, m: Msg): Local
    requires WellFormed(m)
  {
    match m
    case AliveMsg(_, _, _, _, _) => OnAlive(l, m, false)
    case SuspectMsg(_, _, _) => OnSuspect(l, m)
    case DeadMsg(_, _, _) => OnDead(l, m)
  }

  // The handling of one record of a pushed state: what the other side calls dead is only suspected.
  function Pushed(r: Record, node: string, self: string): Msg {
    if r.status == Alive then AliveMsg(r.inc, node, r.addr, r.meta, r.vsn) else SuspectMsg(r.inc, node, self)
  }

  function LiveOnes(records: map<string, Record>): map<string, Record> {
    map n | n in records && records[n].status != Dead :: records[n]
  }

  // resetNodes forgets the dead.
  function Reaped(l: Local): Local {
    l.(records := LiveOnes(l.records))
  }

  // The member announces itself with its next incarnation, when nothing comes between.
  function Announce(l: Local, addr: Addr, meta: seq<byte>, vsn: seq<byte>): Local
    requires |vsn| == 6
  {
    var inc := l.counter + 1;
    OnAlive(l.(counter := inc), AliveMsg(inc, l.name, addr, meta, vsn), true)
  }

  function Start(name: string, addr: Addr, meta: seq<byte>, vsn: seq<byte>): Local
    requires |vsn| == 6
  {
    Announce(Initial(name), addr, meta, vsn)
  }

  // What may happen at one member, each at once. Announcing takes two steps, at the start as on an update: the
  // counter is raised outside the lock, and the announcement is handled at some time after.
  datatype Op =
    | Receive(m: Msg)
    | Raise
    | Bootstrap(inc: nat, addr: Addr, meta: seq<byte>, vsn: seq<byte>)
    | BeginLeave
    | Reap

  predicate Fits(op: Op) {
    match op
    case Receive(m) => WellFormed(m)
    case Bootstrap(_, _, _, vsn) => |vsn| == 6
    case _ => true
  }

  function Step(l: Local, op: Op): Local
    requires Fits(op)
  {
    match op
    case Receive(m) => OnMessage(l, m)
    case Raise => l.(counter := l.counter + 1)
    case Bootstrap(inc, addr, meta, vsn) =>
      if inc <= l.counter then OnAlive(l, AliveMsg(inc, l.name, addr, meta, vsn), true) else l
    case BeginLeave => l.(leaving := true)
    case Reap => Reaped(l)
  }

  lemma AnnounceInSteps(l: Local, addr: Addr, meta: seq<byte>, vsn: seq<byte>)
    requires |vsn| == 6
    ensures Announce(l, addr, meta, vsn) == Step(Step(l, Raise), Bootstrap(l.counter + 1, addr, meta, vsn))
  {}

  predicate AllFit(ops: seq<Op>) { forall op :: op in ops ==> Fits(op) }

  function Exec(l: Local, ops: seq<Op>): Local
    requires AllFit(ops)
    decreases |ops|
  {
    if ops == [] then l else assert ops[0] in ops; Exec(Step(l, ops[0]), ops[1..])
  }

  // The messages that a pushed state amounts to.
  function Received(remote: seq<(string, Record)>, self: string): (ops: seq<Op>)
    requires forall p :: p in remote ==> WellFormed(Pushed(p.1, p.0, self))
    ensures |ops| == |remote| && AllFit(ops)
  {
    seq(|remote|, i requires 0 <= i < |remote| => Receive(Pushed(remote[i].1, remote[i].0, self)))
  }

  // ----- Records only climb -----

  // While a record of another member stays, it is unchanged or of a strictly higher rank.
  lemma StepClimbs(l: Local, op: Op, b: string)
    requires Fits(op) && b != l.name && b in l.records && b in Step(l, op).records
    ensures var r, r' := l.records[b], Step(l, op).records[b];
      (r.inc == r'.inc && r.status == r'.status) || r.Rank() < r'.Rank()
    // so that it is only revived by a strictly higher incarnation
    ensures var r, r' := l.records[b], Step(l, op).records[b];
      r.status == Dead && r'.status != Dead ==> r.inc < r'.inc
  {}

  // How often (incarnation, status) of b changes until it is forgotten.
  function Changes(l: Local, ops: seq<Op>, b: string): nat
    requires AllFit(ops)
    decreases |ops|
  {
    if ops == [] || b !in l.records then 0
    else
      assert ops[0] in ops;
      var t := Step(l, ops[0]);
      if b !in t.records then 0
      else
        (if t.records[b].Rank() != l.records[b].Rank() then 1 else 0) + Changes(t, ops[1..], b)
  }

  predicate IncarnationsUpTo(ops: seq<Op>, b: string, n: nat) {
    forall op :: op in ops && op.Receive? && op.m.node == b ==> op.m.inc <= n
  }

  lemma {:induction false} ChangesBounded(l: Local, ops: seq<Op>, b: string, n: nat)
    requires AllFit(ops) && b != l.name && b in l.records && l.records[b].inc <= n && IncarnationsUpTo(ops, b, n)
    ensures Changes(l, ops, b) + l.records[b].Rank() <= 3 * n + 2
    decreases |ops|
  {
    if ops == [] {
    } else {
      assert ops[0] in ops;
      var t := Step(l, ops[0]);
      if b in t.records {
        StepClimbs(l, ops[0], b);
        assert t.name == l.name;
        ChangesBounded(t, ops[1..], b, n);
      }
    }
  }

  // With incarnations up to n, a record changes at most 3n times from when it is entered.
  lemma {:induction false} NewRecordChanges(l: Local, a: Msg, ops: seq<Op>, n: nat)
    requires a.AliveMsg? && a.node !in l.records && a.node != l.name
    requires AllFit(ops) && IncarnationsUpTo(ops, a.node, n)
    ensures Changes(Known(l, a), ops, a.node) <= 3 * n
  {
    ChangesBounded(Known(l, a), ops, a.node, n);
  }

  // ----- Notifications -----

  // The member joined last, and has not left since.
  function Present(es: seq<Event>, b: string): bool
    decreases |es|
  {
    if es == [] then false
    else
      var e := es[|es| - 1];
      if e == Join(b) then true else if e == Leave(b) then false else Present(es[..|es| - 1], b)
  }

  // Joins and leaves of b strictly alternate, a join first.
  predicate Alternates(es: seq<Event>, b: string)
    decreases |es|
  {
    es == [] ||
    var init, e := es[..|es| - 1], es[|es| - 1];
    Alternates(init, b) && (e == Join(b) ==> !Present(init, b)) && (e == Leave(b) ==> Present(init, b))
  }

  function Listed(l: Local, b: string): bool { b in l.records && l.records[b].status != Dead }

  // The notifications alternate and say who is listed.
  ghost predicate Notifying(l: Local, b: string) {
    Alternates(l.events, b) && (Present(l.events, b) <==> Listed(l, b))
  }

  // What holds from the first announcement on.
  ghost predicate Running(l: Local) {
    && (!l.leaving ==> l.name in l.records && l.records[l.name].status == Alive && l.records[l.name].inc <= l.counter)
    && (forall b :: Notifying(l, b))
  }

  lemma {:induction false} Appended(es: seq<Event>, e: Event, b: string)
    ensures Present(es + [e], b) == if e == Join(b) then true else if e == Leave(b) then false else Present(es, b)
    ensures Alternates(es + [e], b) <==>
      Alternates(es, b) && (e == Join(b) ==> !Present(es, b)) && (e == Leave(b) ==> Present(es, b))
  {
    assert (es + [e])[..|es|] == es;
  }

  predicate Reports(e: Event, before: bool, after: bool) {
    match e
    case Join(_) => !before && after
    case Leave(_) => before && !after
    case Update(_) => before == after
  }

  // At most one event, about the member whose listing changed.
  predicate Follows(l: Local, t: Local, es: seq<Event>, x: string, b: string) {
    && t.events == l.events + es && |es| <= 1
    && (b != x ==> Listed(t, b) == Listed(l, b))
    && (es == [] ==> Listed(t, x) == Listed(l, x))
    && (es != [] ==> es[0].name == x && Reports(es[0], Listed(l, x), Listed(t, x)))
  }

  lemma NotificationFollows(l: Local, t: Local, es: seq<Event>, x: string, b: string)
    requires Notifying(l, b) && Follows(l, t, es, x, b)
    ensures Notifying(t, b)
  {
    if es == [] {
      assert t.events == l.events;
    } else {
      assert es == [es[0]];
      Appended(l.events, es[0], b);
    }
  }

  lemma NotificationsFollow(l: Local, t: Local, es: seq<Event>, x: string)
    requires forall b :: Notifying(l, b) && Follows(l, t, es, x, b)
    ensures forall b :: Notifying(t, b)
  {
    forall b
      ensures Notifying(t, b)
    {
      assert Notifying(l, b) && Follows(l, t, es, x, b);
      NotificationFollows(l, t, es, x, b);
    }
  }

  lemma StepKeepsRunning(l: Local, op: Op)
    requires Fits(op) && Running(l)
    ensures Running(Step(l, op))
  {
    var t := Step(l, op);
    match op
    case Receive(m) => ReceiveKeepsRunning(l, m);
    case Raise =>
      NotificationsFollow(l, t, [], "");
    case Bootstrap(inc, addr, meta, vsn) =>
      if inc <= l.counter {
        AliveKeepsRunning(l, AliveMsg(inc, l.name, addr, meta, vsn), true);
      }
    case BeginLeave =>
      NotificationsFollow(l, t, [], "");
    case Reap =>
      NotificationsFollow(l, t, [], "");
  }

  lemma ReceiveKeepsRunning(l: Local, m: Msg)
    requires WellFormed(m) && Running(l)
    ensures Running(OnMessage(l, m))
  {
    var t := OnMessage(l, m);
    match m
    case AliveMsg(_, _, _, _, _) => AliveKeepsRunning(l, m, false);
    case SuspectMsg(_, _, _) => NotificationsFollow(l, t, [], m.node);
    case DeadMsg(_, _, _) =>
      var gone := m.node in l.records && !(m.inc < l.records[m.node].inc) && l.records[m.node].status != Dead
                  && !(m.node == l.name && !l.leaving);
      NotificationsFollow(l, t, if gone then [Leave(m.node)] else [], m.node);
  }

  lemma AliveKeepsRunning(l: Local, a: Msg, bootstrap: bool)
    requires a.AliveMsg? && WellFormed(a) && Running(l)
    requires bootstrap ==> a.node == l.name && a.inc <= l.counter
    ensures Running(OnAlive(l, a, bootstrap))
  {
    var t, k := OnAlive(l, a, bootstrap), Known(l, a);
    if !(l.leaving && a.node == l.name) {
      var r := k.records[a.node];
      var es := if t.events == k.events then [] else Notified(r, t.records[a.node], a.node);
      assert t.events == l.events + es by {
        assert l.events + [] == l.events;
      }
      NotificationsFollow(l, t, es, a.node);
    }
  }

  lemma StartIs(name: string, addr: Addr, meta: seq<byte>, vsn: seq<byte>)
    requires |vsn| == 6
    ensures var l := Start(name, addr, meta, vsn);
      && l.name == name && !l.leaving && l.counter == 1 && l.events == [] + [Join(name)]
      && l.records == map[name := Record(addr, meta, vsn, 1, Alive)]
  {
    assert vsn[..6] == vsn;
  }

  lemma StartIsRunning(name: string, addr: Addr, meta: seq<byte>, vsn: seq<byte>)
    requires |vsn| == 6
    ensures Running(Start(name, addr, meta, vsn))
  {
    var l := Start(name, addr, meta, vsn);
    StartIs(name, addr, meta, vsn);
    forall b
      ensures Notifying(l, b)
    {
      Appended([], Join(name), b);
    }
  }

  // In every run from the first announcement on, whatever messages arrive: joins and leaves alternate, the
  // members joined and not left are those listed, and a member that is not leaving is alive in its own list.
  lemma {:induction false} RunKeepsRunning(l: Local, ops: seq<Op>)
    requires AllFit(ops) && Running(l)
    ensures Running(Exec(l, ops))
    decreases |ops|
  {
    if ops == [] {
    } else {
      assert ops[0] in ops;
      StepKeepsRunning(l, ops[0]);
      RunKeepsRunning(Step(l, ops[0]), ops[1..]);
    }
  }

  // ----- Before the first announcement -----

  // The listeners are started first: messages may be handled before the member has announced itself.
  predicate IsEarly(op: Op) { op.Receive? || op.Raise? }

  predicate AllEarly(ops: seq<Op>) { forall op :: op in ops ==> Fits(op) && IsEarly(op) }

  // The own record, if there is one, is dead; the notifications about all others are in order.
  ghost predicate Early(l: Local) {
    && !l.leaving
    && (l.name in l.records ==> l.records[l.name].status == Dead && l.records[l.name].inc <= l.counter)
    && (forall b :: b != l.name ==> Notifying(l, b))
    && (Present(l.events, l.name) || Alternates(l.events, l.name))
  }

  // What the events that a step adds mean for the own name.
  lemma {:induction false} OwnName(es: seq<Event>, more: seq<Event>, self: string)
    requires |more| <= 1 && (more != [] && more[0].name == self ==> more[0].Join?)
    requires Present(es, self) || Alternates(es, self)
    ensures Present(es + more, self) || Alternates(es + more, self)
    ensures more == [] || more[0].name != self ==> Present(es + more, self) == Present(es, self)
  {
    if more == [] {
      assert es + more == es;
    } else {
      assert more == [more[0]];
      Appended(es, more[0], self);
    }
  }

  lemma OthersFollow(l: Local, t: Local, es: seq<Event>, x: string)
    requires Early(l) && (forall b :: b != l.name ==> Follows(l, t, es, x, b)) && t.name == l.name
    ensures forall b :: b != l.name ==> Notifying(t, b)
  {
    forall b | b != l.name
      ensures Notifying(t, b)
    {
      assert Notifying(l, b) && Follows(l, t, es, x, b);
      NotificationFollows(l, t, es, x, b);
    }
  }

  // An early message about another member leaves alone what is known of the own name.
  lemma OtherMessageEarly(l: Local, m: Msg)
    requires Early(l) && WellFormed(m) && m.node != l.name
    ensures var t := OnMessage(l, m);
      && Early(t) && t.name == l.name && Present(t.events, l.name) == Present(l.events, l.name)
      && (l.name in t.records <==> l.name in l.records)
  {
    var t, k := OnMessage(l, m), if m.AliveMsg? then Known(l, m) else l;
    var es :=
      if t.events == l.events then [] else if m.AliveMsg? then Notified(k.records[m.node], t.records[m.node], m.node)
      else [Leave(m.node)];
    assert l.events + [] == l.events;
    assert t.events == l.events + es;
    OthersFollow(l, t, es, m.node);
    OwnName(l.events, es, l.name);
  }

  // One about the member itself can only give it a record, and report a join.
  lemma OwnMessageEarly(l: Local, m: Msg)
    requires Early(l) && WellFormed(m) && m.node == l.name
    ensures Early(OnMessage(l, m)) && OnMessage(l, m).name == l.name
  {
    var t := OnMessage(l, m);
    var es := if t.events == l.events then [] else [Join(l.name)];
    assert l.events + [] == l.events;
    assert t.events == l.events + es;
    OwnName(l.events, es, l.name);
    forall b | b != l.name
      ensures Notifying(t, b)
    {
      assert Notifying(l, b);
      if es != [] {
        Appended(l.events, Join(l.name), b);
      }
    }
  }

  lemma {:induction false} EarlyRun(l: Local, ops: seq<Op>)
    requires Early(l) && AllEarly(ops)
    ensures AllFit(ops) && Early(Exec(l, ops)) && Exec(l, ops).name == l.name
    ensures (forall op :: op in ops && op.Receive? ==> op.m.node != l.name) ==>
      && Present(Exec(l, ops).events, l.name) == Present(l.events, l.name)
      && (l.name in Exec(l, ops).records <==> l.name in l.records)
    decreases |ops|
  {
    if ops == [] {
    } else {
      var op := ops[0];
      assert op in ops;
      var t := Step(l, op);
      if op.Raise? {
        assert forall b :: b != l.name ==> Notifying(l, b) == Notifying(t, b);
      } else if op.m.node != l.name {
        OtherMessageEarly(l, op.m);
      } else {
        OwnMessageEarly(l, op.m);
      }
      EarlyRun(t, ops[1..]);
    }
  }

  // The announcement makes the member a running one exactly when no join was reported for its name before, and
  // its record, if there is one, is at the address announced.
  lemma AnnouncementIff(l: Local, inc: nat, addr: Addr, meta: seq<byte>, vsn: seq<byte>)
    requires Early(l) && inc <= l.counter && |vsn| == 6
    ensures Running(Step(l, Bootstrap(inc, addr, meta, vsn))) <==>
      !Present(l.events, l.name)
      && (l.name in l.records ==> l.records[l.name].addr == addr && l.records[l.name].inc <= inc)
  {
    var t := Step(l, Bootstrap(inc, addr, meta, vsn));
    var taken := l.name in l.records ==> l.records[l.name].addr == addr && l.records[l.name].inc <= inc;
    if taken {
      Adopted(l, inc, addr, meta, vsn);
      Appended(l.events, Join(l.name), l.name);
      if !Present(l.events, l.name) {
        forall b
          ensures Notifying(t, b)
        {
          if b != l.name {
            assert Notifying(l, b);
            Appended(l.events, Join(l.name), b);
          }
        }
      } else {
        assert !Notifying(t, l.name);
      }
    } else {
      assert t == l;
    }
  }

  lemma Adopted(l: Local, inc: nat, addr: Addr, meta: seq<byte>, vsn: seq<byte>)
    requires Early(l) && inc <= l.counter && |vsn| == 6
    requires l.name in l.records ==> l.records[l.name].addr == addr && l.records[l.name].inc <= inc
    ensures var t := Step(l, Bootstrap(inc, addr, meta, vsn));
      && t.name == l.name && t.counter == l.counter && !t.leaving && t.events == l.events + [Join(l.name)]
      && t.records == l.records[l.name := Record(addr, meta, vsn, inc, Alive)]
  {
    assert vsn[..6] == vsn;
  }

  // After any messages that are not about itself, the announcement makes the member a running one.
  lemma {:induction false} AnnouncedAfterOthers(name: string, ops: seq<Op>, inc: nat, addr: Addr, meta: seq<byte>,
                                                vsn: seq<byte>)
    requires AllEarly(ops) && AllFit(ops) && inc <= Exec(Initial(name), ops).counter && |vsn| == 6
    requires forall op :: op in ops && op.Receive? ==> op.m.node != name
    ensures Running(Step(Exec(Initial(name), ops), Bootstrap(inc, addr, meta, vsn)))
  {
    assert forall b :: Notifying(Initial(name), b);
    EarlyRun(Initial(name), ops);
    AnnouncementIff(Exec(Initial(name), ops), inc, addr, meta, vsn);
  }

  // An early alive message about itself, left over from before a restart, makes it report its own join twice.
  lemma EarlyAliveJoinsTwice(name: string, addr: Addr, meta: seq<byte>, vsn: seq<byte>)
    requires |vsn| == 6
    ensures var l := Step(Step(Initial(name), Receive(AliveMsg(1, name, addr, meta, vsn))), Raise);
      Step(l, Bootstrap(l.counter, addr, meta, vsn)).events == [Join(name), Join(name)]
  {}

  // ----- Refutation -----

  // An accusation about itself leaves a running member alive, at an incarnation strictly above it.
  lemma AccusationIsOutranked(l: Local, m: Msg)
    requires Running(l) && !l.leaving && m.node == l.name && !m.AliveMsg?
    ensures var t := OnMessage(l, m);
      l.name in t.records && t.records[l.name].inc > m.inc && t.records[l.name].status == Alive
  {}

  // The refutation that is queued convinces any peer that believes the accusation, or less, at the same address.
  lemma RefutationConvinces(l: Local, m: Msg, peer: Local)
    requires Running(l) && !l.leaving && m.node == l.name && !m.AliveMsg? && m.inc >= l.records[l.name].inc
    requires |l.records[l.name].vsn| == 6
    requires peer.name != l.name && l.name in peer.records
    requires peer.records[l.name].addr == l.records[l.name].addr && peer.records[l.name].inc <= m.inc
    ensures var t := OnMessage(l, m); var a := t.queued[|t.queued| - 1];
      && |t.queued| == |l.queued| + 1 && a.AliveMsg? && WellFormed(a) && a.node == l.name
      && OnMessage(peer, a).records[l.name].status == Alive
      && OnMessage(peer, a).records[l.name].inc == t.records[l.name].inc > m.inc
  {}
}
