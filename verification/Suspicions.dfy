// The time stamps of status changes, by which the timer of a suspicion recognizes it, and what its accusation does.
module Suspicions {
  import opened Membership

  // The stamp of a record whose status has never changed: the zero time.
  const NEVER := 0

  datatype Timed = Timed(local: Local, times: map<string, int>)

  predicate Stamped(s: Timed) { s.times.Keys == s.local.records.Keys }

  // What a handler at `now` makes of a stamp: a changed status is stamped, and a record that enters as dead is not.
  function Stamp(s: Timed, n: string, r: Record, now: int): int
    requires Stamped(s)
  {
    if n !in s.local.records then (if r.status == Dead then NEVER else now)
    else if r.status == s.local.records[n].status then s.times[n]
    else now
  }

  // One handler at `now` has taken s to t.
  predicate Ticked(s: Timed, t: Timed, now: int)
    requires Stamped(s)
  {
    Stamped(t) && forall n :: n in t.times ==> t.times[n] == Stamp(s, n, t.local.records[n], now)
  }

  function TimedStep(s: Timed, op: Op, now: int): (t: Timed)
    requires Stamped(s) && Fits(op)
    ensures Ticked(s, t, now)
  {
    var l := Step(s.local, op);
    Timed(l, map n | n in l.records :: Stamp(s, n, l.records[n], now))
  }

  // The step and its stamps are settled by that.
  lemma TickedIsStep(s: Timed, t: Timed, op: Op, now: int)
    requires Stamped(s) && Fits(op) && t.local == Step(s.local, op) && Ticked(s, t, now)
    ensures t == TimedStep(s, op, now)
  {
    assert t.times.Keys == TimedStep(s, op, now).times.Keys;
  }

  function TimedExec(s: Timed, ops: seq<Op>, now: seq<int>): (t: Timed)
    requires Stamped(s) && AllFit(ops) && |now| == |ops|
    ensures Stamped(t) && t.local == Exec(s.local, ops)
    decreases |ops|
  {
    if ops == [] then s else assert ops[0] in ops; TimedExec(TimedStep(s, ops[0], now[0]), ops[1..], now[1..])
  }

  // ----- The check of the timer -----

  predicate Suspected(l: Local, b: string) { b in l.records && l.records[b].status == Suspect }

  // What the timer of a suspicion raised at `changeTime` looks at.
  predicate Recognized(s: Timed, b: string, changeTime: int)
    requires Stamped(s)
  {
    Suspected(s.local, b) && s.times[b] == changeTime
  }

  // The message that makes a member suspect leaves a suspicion which its own timer recognizes.
  lemma RaisedIsRecognized(s: Timed, m: Msg, now: int)
    requires Stamped(s) && m.SuspectMsg? && !Suspected(s.local, m.node) && Suspected(OnMessage(s.local, m), m.node)
    ensures Recognized(TimedStep(s, Receive(m), now), m.node, now)
  {}

  // The member is suspected at the start and after every step.
  predicate StaysSuspected(l: Local, ops: seq<Op>, b: string)
    requires AllFit(ops)
    decreases |ops|
  {
    Suspected(l, b) && (ops == [] || (assert ops[0] in ops; StaysSuspected(Step(l, ops[0]), ops[1..], b)))
  }

  // A stamp that is gone does not come back,
  lemma {:induction false} LostForGood(s: Timed, ops: seq<Op>, now: seq<int>, b: string, t: int)
    requires Stamped(s) && AllFit(ops) && |now| == |ops|
    requires t !in now && t != NEVER && (b in s.times ==> s.times[b] != t)
    ensures var e := TimedExec(s, ops, now); b in e.times ==> e.times[b] != t
    decreases |ops|
  {
    if ops == [] {
    } else {
      assert ops[0] in ops;
      LostForGood(TimedStep(s, ops[0], now[0]), ops[1..], now[1..], b, t);
    }
  }

  // so that the check recognizes the suspicion exactly when the member was suspected throughout, however often it was
  // revived, declared dead, forgotten and suspected again in between.
  lemma {:induction false} RecognizedIff(s: Timed, ops: seq<Op>, now: seq<int>, b: string, changeTime: int)
    requires Stamped(s) && AllFit(ops) && |now| == |ops| && Recognized(s, b, changeTime)
    requires changeTime !in now && changeTime != NEVER
    ensures Recognized(TimedExec(s, ops, now), b, changeTime) <==> StaysSuspected(s.local, ops, b)
    decreases |ops|
  {
    if ops == [] {
    } else {
      assert ops[0] in ops;
      var t := TimedStep(s, ops[0], now[0]);
      if Suspected(t.local, b) {
        RecognizedIff(t, ops[1..], now[1..], b, changeTime);
      } else {
        LostForGood(t, ops[1..], now[1..], b, changeTime);
      }
    }
  }

  // ----- The accusation of the timer -----

  predicate StaysKnown(l: Local, ops: seq<Op>, b: string)
    requires AllFit(ops)
    decreases |ops|
  {
    b in l.records && (ops == [] || (assert ops[0] in ops; StaysKnown(Step(l, ops[0]), ops[1..], b)))
  }

  lemma {:induction false} RunClimbs(l: Local, ops: seq<Op>, b: string)
    requires AllFit(ops) && b != l.name && StaysKnown(l, ops, b)
    ensures b in Exec(l, ops).records && l.records[b].inc <= Exec(l, ops).records[b].inc && Exec(l, ops).name == l.name
    decreases |ops|
  {
    if ops == [] {
    } else {
      assert ops[0] in ops;
      var t := Step(l, ops[0]);
      StepClimbs(l, ops[0], b);
      assert t.name == l.name;
      RunClimbs(t, ops[1..], b);
    }
  }

  // The check sees the record in l. The incarnation is read after `mid`, and the accusation handled after `rest`. It
  // spares the member exactly when the member is dead by then, or has refuted since the reading: not since the check,
  // as an accusation with the incarnation that was checked would.
  lemma {:induction false} TimerSparesIff(l: Local, mid: seq<Op>, rest: seq<Op>, b: string)
    requires AllFit(mid) && AllFit(rest) && b != l.name
    requires StaysKnown(l, mid, b) && StaysKnown(Exec(l, mid), rest, b)
    ensures var read := Exec(l, mid); var m := Exec(read, rest);
      && b in read.records && b in m.records && l.records[b].inc <= read.records[b].inc <= m.records[b].inc
      && (OnDead(m, DeadMsg(read.records[b].inc, b, l.name)) == m <==>
          m.records[b].status == Dead || read.records[b].inc < m.records[b].inc)
      && (OnDead(m, DeadMsg(l.records[b].inc, b, l.name)) == m <==>
          m.records[b].status == Dead || l.records[b].inc < m.records[b].inc)
  {
    RunClimbs(l, mid, b);
    RunClimbs(Exec(l, mid), rest, b);
    var m := Exec(Exec(l, mid), rest);
    DeadIsNoted(m, l.records[b].inc, b);
    DeadIsNoted(m, Exec(l, mid).records[b].inc, b);
  }

  // Also when the record was forgotten in between, and whatever incarnation was read from it.
  lemma DeadIsNoted(m: Local, inc: nat, b: string)
    requires b != m.name
    ensures OnDead(m, DeadMsg(inc, b, m.name)) == m <==>
      b !in m.records || m.records[b].status == Dead || inc < m.records[b].inc
  {
    var d := DeadMsg(inc, b, m.name);
    assert OnDead(m, d) != m ==> |OnDead(m, d).queued| == |m.queued| + 1;
  }

  // The race: a member suspected at the check refutes before its incarnation is read, and is declared dead at the
  // incarnation of its refutation. The incarnation that was checked would have left it alive.
  lemma RefutedInTheGap(l: Local, a: Msg)
    requires a.AliveMsg? && WellFormed(a) && a.node != l.name && Suspected(l, a.node)
    requires l.records[a.node].addr == a.addr && a.inc > l.records[a.node].inc
    ensures var i, read := l.records[a.node].inc, OnAlive(l, a, false);
      && read.records[a.node].inc == a.inc && read.records[a.node].status == Alive
      && OnDead(read, DeadMsg(i, a.node, l.name)) == read
      && OnDead(read, DeadMsg(a.inc, a.node, l.name)).records[a.node] == read.records[a.node].(status := Dead)
  {}
}
