// What each message makes of the member it is about, exactly when, and who is told: the effects of the handlers stated
// apart from their branches.
module Reactions {
  import opened Bytes
  import opened Membership
  import opened Suspicions

  // What another member's record was before a message: one never heard of counts as dead, at incarnation 0.
  function IncOf(l: Local, b: string): nat { if b in l.records then l.records[b].inc else 0 }

  // A message changes the record of no member but the one it is about, and the counter only if that is oneself.
  lemma OthersUntouched(l: Local, m: Msg, b: string)
    requires WellFormed(m) && b != m.node
    ensures var t := OnMessage(l, m);
      && t.name == l.name && t.leaving == l.leaving && (m.node != l.name ==> t.counter == l.counter)
      && (b in t.records <==> b in l.records) && (b in l.records ==> t.records[b] == l.records[b])
  {}

  // ----- Messages about another member -----

  // Word that a member is alive is taken exactly when it is newer than what is known and no other address is known.
  predicate AliveCounts(l: Local, a: Msg)
    requires a.AliveMsg?
  {
    a.inc > IncOf(l, a.node) && (a.node in l.records ==> l.records[a.node].addr == a.addr)
  }

  // Then the member is listed with what it says of itself, it is passed on, and a join is reported where the member was
  // not listed, an update where its meta data are new.
  lemma AliveIsTakenIff(l: Local, a: Msg)
    requires a.AliveMsg? && WellFormed(a) && a.node != l.name
    ensures var t := OnMessage(l, a);
      && (t.queued == l.queued + [a] <==> AliveCounts(l, a))
      && (AliveCounts(l, a) ==>
            && Listed(t, a.node) && t.records[a.node].addr == a.addr && t.records[a.node].meta == a.meta
            && t.records[a.node].inc == a.inc && t.records[a.node].status == Alive
            && (|a.vsn| == 6 ==> t.records[a.node].vsn == a.vsn)
            && t.events == l.events + Told(l, a))
      && (!AliveCounts(l, a) ==>
            && t.queued == l.queued && t.events == l.events && Listed(t, a.node) == Listed(l, a.node)
            && (a.node in l.records ==> t == l))
  {
    var t := OnMessage(l, a);
    if AliveCounts(l, a) {
      assert |a.vsn| == 6 ==> a.vsn[..6] == a.vsn;
    } else {
      assert |t.queued| == |l.queued|;
    }
  }

  function Told(l: Local, a: Msg): seq<Event> {
    if !Listed(l, a.node) then [Join(a.node)]
    else if a.AliveMsg? && l.records[a.node].meta != a.meta then [Update(a.node)]
    else []
  }

  // A suspicion is taken exactly when the member is known as alive, at no higher incarnation. Then it is passed on.
  lemma SuspicionIsTakenIff(l: Local, s: Msg)
    requires s.SuspectMsg? && s.node != l.name && s.node in l.records
    ensures var t, r := OnMessage(l, s), l.records[s.node];
      && (Suspected(t, s.node) <==> r.status == Suspect || (r.status == Alive && r.inc <= s.inc))
      && (t.queued == l.queued + [s] <==> r.status == Alive && r.inc <= s.inc)
      && (r.status == Alive && r.inc <= s.inc ==>
            t.records[s.node] == r.(inc := s.inc, status := Suspect) && t.events == l.events)
      && (!(r.status == Alive && r.inc <= s.inc) ==> t == l)
  {
    assert OnMessage(l, s).queued == l.queued ==> |OnMessage(l, s).queued| == |l.queued|;
  }

  // A death is taken exactly when the member is listed, at no higher incarnation. Then it is passed on, and the leave
  // is reported.
  lemma DeathIsTakenIff(l: Local, d: Msg)
    requires d.DeadMsg? && d.node != l.name && d.node in l.records
    ensures var t, r := OnMessage(l, d), l.records[d.node];
      && (!Listed(t, d.node) <==> r.status == Dead || r.inc <= d.inc)
      && (t.queued == l.queued + [d] <==> Listed(l, d.node) && r.inc <= d.inc)
      && (Listed(l, d.node) && r.inc <= d.inc ==>
            t.records[d.node] == r.(inc := d.inc, status := Dead) && t.events == l.events + [Leave(d.node)])
      && (!(Listed(l, d.node) && r.inc <= d.inc) ==> t == l)
  {
    assert OnMessage(l, d).queued == l.queued ==> |OnMessage(l, d).queued| == |l.queued|;
  }

  // No suspicion or death of a member never heard of is taken.
  lemma StrangersAreIgnored(l: Local, m: Msg)
    requires !m.AliveMsg? && m.node !in l.records
    ensures OnMessage(l, m) == l
  {}

  // What one member has taken, another that knows less, at the same address, takes too: they agree on the member.
  lemma NewsConvinces(l: Local, m: Msg, peer: Local)
    requires WellFormed(m) && m.node != l.name && m.node != peer.name && OnMessage(l, m).queued == l.queued + [m]
    requires m.node in peer.records && peer.records[m.node].Rank() < OnMessage(l, m).records[m.node].Rank()
    requires m.AliveMsg? ==> peer.records[m.node].addr == m.addr && peer.records[m.node].inc < m.inc
    requires m.DeadMsg? ==> Listed(peer, m.node)
    requires m.SuspectMsg? ==> peer.records[m.node].status == Alive
    ensures var r, p := OnMessage(l, m).records[m.node], OnMessage(peer, m).records[m.node];
      p.inc == r.inc == m.inc && p.status == r.status && OnMessage(peer, m).queued == peer.queued + [m]
  {
    NotEmptied(l, m);
    if m.SuspectMsg? {
      if m.node in l.records {
        SuspicionIsTakenIff(l, m);
      }
      SuspicionIsTakenIff(peer, m);
    } else if m.DeadMsg? {
      if m.node in l.records {
        DeathIsTakenIff(l, m);
      }
      DeathIsTakenIff(peer, m);
    } else {
      AliveIsTakenIff(l, m);
      AliveIsTakenIff(peer, m);
    }
  }

  lemma NotEmptied(l: Local, m: Msg)
    ensures l.queued + [m] != l.queued
  {
    assert |l.queued + [m]| == |l.queued| + 1;
  }

  // ----- Messages about oneself -----

  // A member that is not leaving answers an accusation exactly when it is not out of date, with word that it is alive
  // at a higher incarnation.
  lemma AccusationIsAnsweredIff(l: Local, m: Msg)
    requires Running(l) && !l.leaving && m.node == l.name && !m.AliveMsg?
    ensures var t, r := OnMessage(l, m), l.records[l.name];
      && (t.queued != l.queued <==> m.inc >= r.inc) && (m.inc < r.inc ==> t == l)
      && (m.inc >= r.inc ==> Answers(l, m, t))
  {
    NotEmptied(l, AliveMsg(Refuting(l.counter, m.inc), l.name, l.records[l.name].addr, l.records[l.name].meta,
                           l.records[l.name].vsn));
  }

  // The answer is the least new incarnation, with the data one has.
  predicate Answers(l: Local, m: Msg, t: Local)
    requires l.name in l.records
  {
    var r := l.records[l.name];
    && l.name in t.records && t.records[l.name] == r.(inc := t.counter)
    && t.counter > l.counter && t.counter > m.inc && (t.counter == l.counter + 1 || t.counter == m.inc + 1)
    && t.queued == l.queued + [AliveMsg(t.counter, l.name, r.addr, r.meta, r.vsn)]
    && t.events == l.events
  }

  // Word from elsewhere that it is alive is answered exactly when it is of a higher incarnation, or of the same with
  // other data, as after a restart.
  lemma OwnNewsIsAnsweredIff(l: Local, a: Msg)
    requires Running(l) && !l.leaving && a.AliveMsg? && WellFormed(a) && a.node == l.name
    ensures var t, r := OnMessage(l, a), l.records[l.name];
      var answered := a.addr == r.addr && (a.inc > r.inc || (a.inc == r.inc && (a.meta != r.meta || a.vsn != r.vsn)));
      (t.queued != l.queued <==> answered) && (!answered ==> t == l) && (answered ==> Answers(l, a, t))
  {
    NotEmptied(l, AliveMsg(Refuting(l.counter, a.inc), l.name, l.records[l.name].addr, l.records[l.name].meta,
                           l.records[l.name].vsn));
    assert l.events + [] == l.events;
  }

  // An update, announced with an incarnation drawn before, takes effect exactly when no higher one has come between.
  lemma UpdateIsToldIff(l: Local, inc: nat, addr: Addr, meta: seq<byte>, vsn: seq<byte>)
    requires Running(l) && !l.leaving && inc <= l.counter && |vsn| == 6 && l.records[l.name].addr == addr
    ensures var t := Step(l, Bootstrap(inc, addr, meta, vsn)); var r := l.records[l.name];
      && (inc < r.inc ==> t == l)
      && (inc >= r.inc ==>
            && l.name in t.records && t.records[l.name] == Record(addr, meta, vsn, inc, Alive)
            && t.queued == l.queued + [AliveMsg(inc, l.name, addr, meta, vsn)]
            && t.events == l.events + if r.meta != meta then [Update(l.name)] else [])
  {
    assert vsn[..6] == vsn;
  }

  // ----- Leaving -----

  // A member that leaves is told dead, at its own incarnation, and reports its leave,
  lemma LeaveIsTold(l: Local)
    requires Running(l) && !l.leaving
    ensures var d := DeadMsg(l.records[l.name].inc, l.name, ""); var t := OnMessage(Step(l, BeginLeave), d);
      && t.leaving && !Listed(t, l.name) && t.queued == l.queued + [d] && t.events == l.events + [Leave(l.name)]
  {}

  predicate Gone(l: Local) { l.leaving && !Listed(l, l.name) }

  lemma StepKeepsGone(l: Local, op: Op)
    requires Fits(op) && Gone(l)
    ensures Gone(Step(l, op)) && Step(l, op).name == l.name
  {}

  // and nothing lists it again in its own list.
  lemma {:induction false} GoneStays(l: Local, ops: seq<Op>)
    requires AllFit(ops) && Gone(l)
    ensures Gone(Exec(l, ops)) && Exec(l, ops).name == l.name
    decreases |ops|
  {
    if ops == [] {
    } else {
      assert ops[0] in ops;
      StepKeepsGone(l, ops[0]);
      GoneStays(Step(l, ops[0]), ops[1..]);
    }
  }

  // Reaping forgets exactly the dead, and changes nothing else.
  lemma ReapForgetsIff(l: Local, b: string)
    ensures var t := Step(l, Reap);
      && (b in t.records <==> Listed(l, b)) && (b in t.records ==> t.records[b] == l.records[b])
      && t == l.(records := t.records)
  {}

  // ----- Pushed states -----

  // No pushed state takes a member off the list: what the other side calls dead is only suspected,
  lemma {:induction false} PushUnlistsNobody(l: Local, remote: seq<(string, Record)>, b: string)
    requires (forall p :: p in remote ==> WellFormed(Pushed(p.1, p.0, l.name))) && Listed(l, b)
    ensures Listed(Exec(l, Received(remote, l.name)), b)
    decreases |remote|
  {
    if remote == [] {
    } else {
      var ops := Received(remote, l.name);
      assert remote[0] in remote;
      assert ops[1..] == Received(remote[1..], l.name);
      OneUnlistsNobody(l, remote[0].1, remote[0].0, b);
      PushUnlistsNobody(Step(l, ops[0]), remote[1..], b);
    }
  }

  lemma OneUnlistsNobody(l: Local, r: Record, node: string, b: string)
    requires WellFormed(Pushed(r, node, l.name)) && Listed(l, b)
    ensures var t := OnMessage(l, Pushed(r, node, l.name)); Listed(t, b) && t.name == l.name
  {}

  // but suspected it is: another member that is listed, and called dead or suspect at an incarnation at least as high,
  // is not alive afterwards. Each member is in a pushed state once.
  lemma {:induction false} CalledDeadIsSuspected(l: Local, remote: seq<(string, Record)>, i: nat)
    requires forall p :: p in remote ==> WellFormed(Pushed(p.1, p.0, l.name))
    requires forall j, k :: 0 <= j < k < |remote| ==> remote[j].0 != remote[k].0
    requires i < |remote| && remote[i].1.status != Alive && remote[i].0 != l.name
    requires Listed(l, remote[i].0) && l.records[remote[i].0].inc <= remote[i].1.inc
    ensures Suspected(Exec(l, Received(remote, l.name)), remote[i].0)
    decreases |remote|
  {
    var (b, r) := remote[i];
    var ops := Received(remote, l.name);
    assert remote[0] in remote;
    assert ops[1..] == Received(remote[1..], l.name);
    var t := Step(l, ops[0]);
    if i == 0 {
      SuspicionIsTakenIff(l, SuspectMsg(r.inc, b, l.name));
      StaysIfNotNamed(t, remote[1..], b);
    } else {
      OthersUntouched(l, ops[0].m, b);
      assert remote[1..][i - 1] == remote[i];
      CalledDeadIsSuspected(t, remote[1..], i - 1);
    }
  }

  lemma {:induction false} StaysIfNotNamed(l: Local, remote: seq<(string, Record)>, b: string)
    requires forall p :: p in remote ==> WellFormed(Pushed(p.1, p.0, l.name)) && p.0 != b
    requires b in l.records
    ensures var t := Exec(l, Received(remote, l.name)); b in t.records && t.records[b] == l.records[b]
    decreases |remote|
  {
    if remote == [] {
    } else {
      var ops := Received(remote, l.name);
      assert remote[0] in remote;
      assert ops[1..] == Received(remote[1..], l.name);
      OthersUntouched(l, ops[0].m, b);
      StaysIfNotNamed(Step(l, ops[0]), remote[1..], b);
    }
  }

  // ----- Failure detection -----

  // A member known as alive that is suspected, and still is when the timer looks, is declared dead: its own suspicion
  // is recognized exactly then, and the accusation takes it off the list, is passed on and reported.
  lemma {:induction false} UnrefutedIsDeclaredDead(s: Timed, m: Msg, now: int, ops: seq<Op>, times: seq<int>)
    requires Stamped(s) && m.SuspectMsg? && m.node != s.local.name && m.node in s.local.records
    requires s.local.records[m.node].status == Alive && s.local.records[m.node].inc <= m.inc
    requires AllFit(ops) && |times| == |ops| && now !in times && now != NEVER
    ensures var u := TimedStep(s, Receive(m), now); var t := TimedExec(u, ops, times);
      && (Recognized(t, m.node, now) <==> StaysSuspected(u.local, ops, m.node))
      && (Recognized(t, m.node, now) ==>
            var d := DeadMsg(t.local.records[m.node].inc, m.node, t.local.name); var e := OnMessage(t.local, d);
            !Listed(e, m.node) && e.queued == t.local.queued + [d] && e.events == t.local.events + [Leave(m.node)])
  {
    SuspicionIsTakenIff(s.local, m);
    RaisedIsRecognized(s, m, now);
    var u := TimedStep(s, Receive(m), now);
    RecognizedIff(u, ops, times, m.node, now);
    var t := TimedExec(u, ops, times);
    NameStays(u.local, ops);
    if Recognized(t, m.node, now) {
      DeathIsTakenIff(t.local, DeadMsg(t.local.records[m.node].inc, m.node, t.local.name));
    }
  }

  lemma {:induction false} NameStays(l: Local, ops: seq<Op>)
    requires AllFit(ops)
    ensures Exec(l, ops).name == l.name
    decreases |ops|
  {
    if ops == [] {
    } else {
      assert ops[0] in ops;
      NameStays(Step(l, ops[0]), ops[1..]);
    }
  }
}
