// The member list as it is stored: a slice of node records in random order, a map from names to the same
// records, and a count, all updated in place by the handlers.
module Memberlists {
  import opened Bytes
  import opened Common
  import opened Membership
  import opened Suspicions

  class NodeState {
    const name: string
    const addr: Addr
    var meta: seq<byte>
    var vsn: seq<byte>
    var incarnation: nat
    var status: Status
    var stateChange: int

    constructor (name: string, r: Record)
      ensures this.name == name && Snapshot() == r && stateChange == NEVER
    {
      this.name, addr := name, r.addr;
      meta, vsn, incarnation, status, stateChange := r.meta, r.vsn, r.inc, r.status, NEVER;
    }

    ghost function Snapshot(): Record
      reads this
    {
      Record(addr, meta, vsn, incarnation, status)
    }
  }

  // ----- In-place work on the slice -----

  method Swap(nodes: array<NodeState>, i: nat, j: nat)
    requires i < nodes.Length && j < nodes.Length
    modifies nodes
    ensures multiset(nodes[..]) == old(multiset(nodes[..]))
    ensures nodes[i] == old(nodes[j]) && nodes[j] == old(nodes[i])
    ensures forall k :: 0 <= k < nodes.Length && k != i && k != j ==> nodes[k] == old(nodes[k])
  {
    nodes[i], nodes[j] := nodes[j], nodes[i];
  }

  // All nodes that are not dead come before all dead ones, and the index of the first dead one is returned.
  // The step back after a swap is what keeps the node swapped in from being passed over.
  method MoveDeadNodes(nodes: array<NodeState>) returns (deadIdx: nat)
    modifies nodes
    ensures multiset(nodes[..]) == old(multiset(nodes[..]))
    ensures deadIdx <= nodes.Length
    ensures forall i :: 0 <= i < deadIdx ==> nodes[i].status != Dead
    ensures forall i :: deadIdx <= i < nodes.Length ==> nodes[i].status == Dead
  {
    var numDead, n, i := 0, nodes.Length, 0;
    while i < n - numDead
      invariant 0 <= i <= n - numDead && 0 <= numDead
      invariant multiset(nodes[..]) == old(multiset(nodes[..]))
      invariant forall k :: 0 <= k < i ==> nodes[k].status != Dead
      invariant forall k :: n - numDead <= k < n ==> nodes[k].status == Dead
      decreases n - numDead - i
    {
      if nodes[i].status == Dead {
        Swap(nodes, i, n - numDead - 1);
        numDead := numDead + 1;
        i := i - 1;
      }
      i := i + 1;
    }
    deadIdx := n - numDead;
  }

  method ShuffleNodes(nodes: array<NodeState>)
    modifies nodes
    ensures multiset(nodes[..]) == old(multiset(nodes[..]))
  {
    for i := 0 to nodes.Length
      invariant multiset(nodes[..]) == old(multiset(nodes[..]))
    {
      var j :| 0 <= j <= i;
      Swap(nodes, i, j);
    }
  }

  // ----- The list -----

  class Memberlist {
    const name: string
    var nodes: seq<NodeState>
    var nodeMap: map<string, NodeState>
    var numNodes: nat
    var incarnation: nat
    var leave: bool
    var events: seq<Event>   // notifications given to the delegate
    var queued: seq<Msg>     // broadcasts handed to the queue

    // Slice, map and count agree: the slice lists the records of the map, each once.
    ghost predicate Valid()
      reads this
    {
      && Lists(nodes, nodeMap)
      && numNodes == |nodes| == |nodeMap|
    }

    ghost function View(): Local
      reads this, nodeMap.Values
    {
      Local(name, incarnation, leave, Records(nodeMap), events, queued)
    }

    ghost function TimedView(): (s: Timed)
      reads this, nodeMap.Values
      ensures Stamped(s)
    {
      Timed(View(), Times(nodeMap))
    }

    constructor (name: string)
      ensures Valid() && View() == Initial(name)
    {
      this.name := name;
      nodes, nodeMap, numNodes, incarnation, leave, events, queued := [], map[], 0, 0, false, [], [];
    }

    method NextIncarnation() returns (inc: nat)
      modifies this`incarnation
      ensures inc == incarnation == old(incarnation) + 1
    {
      incarnation := incarnation + 1;
      inc := incarnation;
    }

    // The random offset: anywhere in the slice.
    method RandomOffset(n: nat) returns (offset: nat)
      ensures offset <= n && (n > 0 ==> offset < n)
    {
      if n == 0 {
        return 0;
      }
      offset :| 0 <= offset < n;
    }

    // A new record enters the map, goes to the end of the slice and swaps with one at a random offset.
    method Add(n: string, r: Record) returns (state: NodeState)
      modifies this`nodes, this`nodeMap, this`numNodes
      ensures fresh(state) && state.name == n && state.Snapshot() == r && state.stateChange == NEVER
      ensures nodeMap == old(nodeMap)[n := state] && numNodes == old(numNodes) + 1
      ensures multiset(nodes) == multiset(old(nodes) + [state])
    {
      state := new NodeState(n, r);
      nodeMap := nodeMap[n := state];
      var k := |nodes|;
      var offset := RandomOffset(k);
      nodes := nodes + [state];
      nodes := nodes[offset := nodes[k]][k := nodes[offset]];
      numNodes := numNodes + 1;
    }

    method InsertNode(n: string, r: Record)
      requires Valid() && n !in nodeMap
      modifies this`nodes, this`nodeMap, this`numNodes
      ensures Valid()
      ensures View() == old(View()).(records := old(View()).records[n := r])
      ensures n in nodeMap && fresh(nodeMap[n]) && nodeMap[n].stateChange == NEVER
      ensures nodeMap == old(nodeMap)[n := nodeMap[n]]
    {
      ghost var nodes0, map0 := nodes, nodeMap;
      var state := Add(n, r);
      RecordsInsert(map0, n, state);
      ListsInsert(nodes0, map0, state);
      ListsPermuted(nodes0 + [state], nodes, nodeMap);
    }

    // The next incarnation above an accusation.
    method RaiseAbove(accused: nat) returns (inc: nat)
      modifies this`incarnation
      ensures inc == incarnation == Refuting(old(incarnation), accused)
    {
      inc := NextIncarnation();
      while accused >= inc
        invariant inc == incarnation >= old(incarnation) + 1
        invariant inc > old(incarnation) + 1 ==> accused >= inc - 1
        decreases accused - inc
      {
        inc := NextIncarnation();
      }
    }

    method Refute(accused: nat)
      requires Valid() && name in nodeMap
      modifies this`incarnation, this`queued, (nodeMap[name] as NodeState)`incarnation
      ensures Valid() && View() == Membership.Refute(old(View()), accused)
    {
      var state := nodeMap[name];
      var inc := RaiseAbove(accused);
      state.incarnation := inc;
      queued := queued + [AliveMsg(inc, state.name, state.addr, state.meta, state.vsn)];
      assert Records(nodeMap) == old(Records(nodeMap))[name := state.Snapshot()];
    }

    method Notify(oldState: Status, oldMeta: seq<byte>, state: NodeState)
      modifies this`events
      ensures events == old(events) +
        if oldState == Dead then [Join(state.name)] else if oldMeta != state.meta then [Update(state.name)] else []
    {
      if oldState == Dead {
        events := events + [Join(state.name)];
      } else if oldMeta != state.meta {
        events := events + [Update(state.name)];
      }
    }

    // A newer alive message, or the member's own announcement, is taken over and passed on.
    method Adopt(a: Msg, state: NodeState, now: int)
      requires a.AliveMsg? && WellFormed(a)
      modifies this`queued, this`events, state
      ensures state.Snapshot() ==
        Record(state.addr, a.meta, if |a.vsn| > 0 then a.vsn[..6] else old(state.vsn), a.inc, Alive)
      ensures queued == old(queued) + [a]
      ensures events == old(events) + Notified(old(state.Snapshot()), state.Snapshot(), state.name)
      ensures state.stateChange == if old(state.status) == Alive then old(state.stateChange) else now
    {
      var oldState, oldMeta := state.status, state.meta;
      queued := queued + [a];
      if |a.vsn| > 0 {
        state.vsn := a.vsn[..6];
      }
      state.incarnation := a.inc;
      state.meta := a.meta;
      if state.status != Alive {
        state.status, state.stateChange := Alive, now;
      }
      Notify(oldState, oldMeta, state);
    }

    method RefuteAlive(inc: nat)
      requires Valid() && name in nodeMap
      modifies this`incarnation, this`queued, this`events, (nodeMap[name] as NodeState)`incarnation
      ensures Valid()
      ensures var l := old(View()); var t := Membership.Refute(l, inc);
        View() == t.(events := t.events + Notified(l.records[name], t.records[name], name))
    {
      var state := nodeMap[name];
      var oldState, oldMeta := state.status, state.meta;
      Refute(inc);
      Notify(oldState, oldMeta, state);
    }

    method AdoptKnown(a: Msg, now: int)
      requires Valid() && a.AliveMsg? && WellFormed(a) && a.node in nodeMap
      modifies this`queued, this`events, nodeMap[a.node]
      ensures Valid()
      ensures var l, r := old(View()), old(nodeMap[a.node].Snapshot());
        var t := Record(r.addr, a.meta, if |a.vsn| > 0 then a.vsn[..6] else r.vsn, a.inc, Alive);
        View() == l.(records := l.records[a.node := t], queued := l.queued + [a],
                     events := l.events + Notified(r, t, a.node))
      ensures StampsAt({old(nodeMap[a.node])}, now)
    {
      var state := nodeMap[a.node];
      Adopt(a, state, now);
      assert Records(nodeMap) == old(Records(nodeMap))[a.node := state.Snapshot()];
    }

    // What an alive message does once the member is known.
    method AliveKnown(a: Msg, bootstrap: bool, now: int)
      requires Valid() && a.AliveMsg? && WellFormed(a) && a.node in nodeMap && !(leave && a.node == name)
      modifies this`incarnation, this`queued, this`events, nodeMap[a.node]
      ensures Valid() && View() == OnAlive(old(View()), a, bootstrap)
      ensures StampsAt({old(nodeMap[a.node])}, now)
    {
      var state := nodeMap[a.node];
      if state.addr != a.addr {
        return;
      }
      var isLocalNode := state.name == name;
      if a.inc <= state.incarnation && !isLocalNode {
        return;
      }
      if a.inc < state.incarnation && isLocalNode {
        return;
      }
      if !bootstrap && isLocalNode {
        if a.inc == state.incarnation && a.meta == state.meta && a.vsn == state.vsn {
          return;
        }
        RefuteAlive(a.inc);
      } else {
        AdoptKnown(a, now);
      }
    }

    ghost function Entry(n: string): set<NodeState>
      reads this
    {
      if n in nodeMap then {nodeMap[n]} else {}
    }

    // A member never heard of enters the list.
    method Meet(a: Msg)
      requires Valid() && a.AliveMsg?
      modifies this`nodes, this`nodeMap, this`numNodes
      ensures Valid() && View() == Known(old(View()), a) && a.node in nodeMap
      ensures fresh(nodeMap.Values - old(nodeMap.Values))
      ensures Grows(old(nodeMap), nodeMap, a.node)
      ensures a.node !in old(nodeMap) ==>
        fresh(nodeMap[a.node]) && nodeMap[a.node].status == Dead && nodeMap[a.node].stateChange == NEVER
    {
      if a.node !in nodeMap {
        InsertNode(a.node, Record(a.addr, a.meta, [0, 0, 0, 0, 0, 0], 0, Dead));
        assert View().records[a.node].status == Dead;
      }
    }

    method AliveHeard(a: Msg, bootstrap: bool, now: int)
      requires Valid() && a.AliveMsg? && WellFormed(a) && !(leave && a.node == name)
      modifies this, Entry(a.node)
      ensures Valid() && fresh(nodeMap.Values - old(nodeMap.Values))
      ensures View() == OnAlive(old(View()), a, bootstrap)
      ensures Grows(old(nodeMap), nodeMap, a.node) && StampsAt(old(Entry(a.node)), now)
      ensures a.node in nodeMap && a.node !in old(nodeMap) ==>
        nodeMap[a.node].stateChange == if nodeMap[a.node].status == Dead then NEVER else now
    {
      KnownFirst(View(), a, bootstrap);
      Meet(a);
      AliveKnown(a, bootstrap, now);
    }

    method AliveNode(a: Msg, bootstrap: bool, now: int)
      requires Valid() && a.AliveMsg? && WellFormed(a)
      modifies this, nodeMap.Values
      ensures Valid() && fresh(nodeMap.Values - old(nodeMap.Values))
      ensures View() == OnAlive(old(View()), a, bootstrap)
      ensures Ticked(old(TimedView()), TimedView(), now)
    {
      if leave && a.node == name {
        return;
      }
      AliveHeard(a, bootstrap, now);
    }

    // An accusation is passed on and taken over.
    method Believe(m: Msg, state: NodeState, status: Status, now: int)
      modifies this`queued, this`events, state
      ensures queued == old(queued) + [m]
      ensures state.Snapshot() == old(state.Snapshot()).(inc := m.inc, status := status)
      ensures events == old(events) + if status == Dead then [Leave(state.name)] else []
      ensures state.stateChange == now
    {
      queued := queued + [m];
      state.incarnation := m.inc;
      state.status := status;
      state.stateChange := now;
      if status == Dead {
        events := events + [Leave(state.name)];
      }
    }

    method SuspectNode(s: Msg, now: int)
      requires Valid() && s.SuspectMsg?
      modifies this, Entry(s.node)
      ensures Valid() && nodeMap == old(nodeMap) && View() == OnSuspect(old(View()), s)
      ensures StampsAt(old(Entry(s.node)), now)
    {
      if s.node !in nodeMap {
        return;
      }
      var state := nodeMap[s.node];
      if s.inc < state.incarnation {
        return;
      }
      if state.status != Alive {
        return;
      }
      if state.name == name {
        Refute(s.inc);
        return;
      }
      Believe(s, state, Suspect, now);
      assert Records(nodeMap) == old(Records(nodeMap))[s.node := state.Snapshot()];
    }

    method DeadNode(d: Msg, now: int)
      requires Valid() && d.DeadMsg?
      modifies this, Entry(d.node)
      ensures Valid() && nodeMap == old(nodeMap) && View() == OnDead(old(View()), d)
      ensures StampsAt(old(Entry(d.node)), now)
    {
      if d.node !in nodeMap {
        return;
      }
      var state := nodeMap[d.node];
      if d.inc < state.incarnation {
        return;
      }
      if state.status == Dead {
        return;
      }
      if state.name == name && !leave {
        Refute(d.inc);
        return;
      }
      Believe(d, state, Dead, now);
      assert Records(nodeMap) == old(Records(nodeMap))[d.node := state.Snapshot()];
    }

    // Messages from the network.
    method HandleAlive(a: Msg, now: int)
      requires Valid() && a.AliveMsg? && WellFormed(a)
      modifies this, nodeMap.Values
      ensures Valid() && fresh(nodeMap.Values - old(nodeMap.Values))
      ensures TimedView() == TimedStep(old(TimedView()), Receive(a), now)
    {
      ghost var before := TimedView();
      AliveNode(a, false, now);
      TickedIsStep(before, TimedView(), Receive(a), now);
    }

    method HandleSuspect(s: Msg, now: int)
      requires Valid() && s.SuspectMsg?
      modifies this, nodeMap.Values
      ensures Valid() && fresh(nodeMap.Values - old(nodeMap.Values))
      ensures TimedView() == TimedStep(old(TimedView()), Receive(s), now)
    {
      ghost var before := TimedView();
      SuspectNode(s, now);
      TickedIsStep(before, TimedView(), Receive(s), now);
    }

    method HandleDead(d: Msg, now: int)
      requires Valid() && d.DeadMsg?
      modifies this, nodeMap.Values
      ensures Valid() && fresh(nodeMap.Values - old(nodeMap.Values))
      ensures TimedView() == TimedStep(old(TimedView()), Receive(d), now)
    {
      ghost var before := TimedView();
      DeadNode(d, now);
      TickedIsStep(before, TimedView(), Receive(d), now);
    }

    // The timer of a suspicion first looks whether the record is still the one that was suspected.
    method SuspicionHolds(n: string, changeTime: int) returns (timeout: bool)
      requires Valid()
      ensures timeout <==> Recognized(TimedView(), n, changeTime)
    {
      timeout := n in nodeMap && nodeMap[n].status == Suspect && nodeMap[n].stateChange == changeTime;
    }

    // It then declares the member dead, with the incarnation that the record has by now. The lock was released in
    // between: the record may have changed, and may even have been forgotten.
    method SuspectTimeout(state: NodeState, now: int)
      requires Valid()
      modifies this, nodeMap.Values
      ensures Valid() && nodeMap == old(nodeMap)
      ensures View() == OnDead(old(View()), DeadMsg(old(state.incarnation), state.name, name))
      ensures Ticked(old(TimedView()), TimedView(), now)
    {
      DeadNode(DeadMsg(state.incarnation, state.name, name), now);
    }

    // One record of a pushed state,
    method MergeRecord(n: string, r: Record, now: int)
      requires Valid() && WellFormed(Pushed(r, n, name))
      modifies this, nodeMap.Values
      ensures Valid() && fresh(nodeMap.Values - old(nodeMap.Values))
      ensures TimedView() == TimedStep(old(TimedView()), Receive(Pushed(r, n, name)), now)
    {
      match r.status {
        case Alive =>
          HandleAlive(AliveMsg(r.inc, n, r.addr, r.meta, r.vsn), now);
        case _ =>
          HandleSuspect(SuspectMsg(r.inc, n, name), now);
      }
    }

    // and all of them, each at its time.
    method MergeState(remote: seq<(string, Record)>, now: seq<int>)
      requires Valid() && |now| == |remote| && forall p :: p in remote ==> WellFormed(Pushed(p.1, p.0, name))
      modifies this, nodeMap.Values
      ensures Valid() && fresh(nodeMap.Values - old(nodeMap.Values))
      ensures TimedView() == TimedExec(old(TimedView()), Received(remote, name), now)
    {
      for i := 0 to |remote|
        invariant Valid() && fresh(nodeMap.Values - old(nodeMap.Values))
        invariant TimedExec(TimedView(), Received(remote[i..], name), now[i..]) ==
                  TimedExec(old(TimedView()), Received(remote, name), now)
      {
        assert remote[i] in remote;
        ReceivedFirst(TimedView(), remote, now, i, name);
        MergeRecord(remote[i].0, remote[i].1, now[i]);
      }
    }

    // The handler of the member's own announcement, at start and on an update, with an incarnation drawn before.
    method Bootstrap(inc: nat, addr: Addr, meta: seq<byte>, vsn: seq<byte>, now: int)
      requires Valid() && |vsn| == 6 && inc <= incarnation
      modifies this, nodeMap.Values
      ensures Valid() && fresh(nodeMap.Values - old(nodeMap.Values))
      ensures View() == Step(old(View()), Op.Bootstrap(inc, addr, meta, vsn))
      ensures Ticked(old(TimedView()), TimedView(), now)
    {
      AliveNode(AliveMsg(inc, name, addr, meta, vsn), true, now);
    }

    // Raising the counter and announcing, when nothing comes between.
    method Announce(addr: Addr, meta: seq<byte>, vsn: seq<byte>, now: int)
      requires Valid() && |vsn| == 6
      modifies this, nodeMap.Values
      ensures Valid() && fresh(nodeMap.Values - old(nodeMap.Values))
      ensures View() == Membership.Announce(old(View()), addr, meta, vsn)
    {
      AnnounceInSteps(View(), addr, meta, vsn);
      var inc := NextIncarnation();
      assert View() == Step(old(View()), Raise);
      Bootstrap(inc, addr, meta, vsn, now);
    }

    // Leaving is decided under the lock, once,
    method DecideToLeave() returns (known: bool)
      requires Valid()
      modifies this`leave
      ensures Valid() && View() == Step(old(View()), BeginLeave)
      ensures known <==> !old(leave) && name in View().records
    {
      known := !leave && name in nodeMap;
      leave := true;
    }

    // and the own death is announced after, with the incarnation that the record has by then.
    method Depart(now: int)
      requires Valid() && name in nodeMap
      modifies this, nodeMap.Values
      ensures Valid() && nodeMap == old(nodeMap)
      ensures View() == OnDead(old(View()), DeadMsg(old(View()).records[name].inc, name, ""))
      ensures Ticked(old(TimedView()), TimedView(), now)
    {
      DeadNode(DeadMsg(nodeMap[name].incarnation, name, ""), now);
    }

    // Both, when nothing comes between.
    method LeaveCluster(now: int)
      requires Valid()
      modifies this, nodeMap.Values
      ensures Valid() && nodeMap == old(nodeMap)
      ensures View() ==
        if old(leave) then old(View())
        else
          var l := old(View()).(leaving := true);
          if name in l.records then OnDead(l, DeadMsg(l.records[name].inc, name, "")) else l
      ensures !old(leave) ==> !Listed(View(), name)
      ensures !old(leave) && Listed(old(View()), name) ==>
        && events == old(events) + [Leave(name)]
        && queued == old(queued) + [DeadMsg(old(View()).records[name].inc, name, "")]
      ensures Ticked(old(TimedView()), TimedView(), now)
    {
      var known := DecideToLeave();
      if known {
        Depart(now);
      }
    }

    // The members that are not dead, each once.
    method Members() returns (ms: seq<NodeState>)
      requires Valid()
      ensures forall i, j :: 0 <= i < j < |ms| ==> ms[i] != ms[j]
      ensures forall b :: Listed(View(), b) <==> exists m :: m in ms && m.name == b
    {
      ms := [];
      for i := 0 to |nodes|
        invariant forall m :: m in ms <==> m in nodes[..i] && m.status != Dead
        invariant forall j, k :: 0 <= j < k < |ms| ==> ms[j] != ms[k]
      {
        assert nodes[..i + 1] == nodes[..i] + [nodes[i]];
        if nodes[i].status != Dead {
          assert nodes[i] !in nodes[..i];
          ms := ms + [nodes[i]];
        }
      }
      assert nodes[..|nodes|] == nodes;
      forall b
        ensures Listed(View(), b) <==> exists m :: m in ms && m.name == b
      {
        if Listed(View(), b) {
          assert nodeMap[b] in ms;
        }
      }
    }

    // The names from deadIdx on leave the map.
    method Deregister(moved: seq<NodeState>, deadIdx: nat)
      requires deadIdx <= |moved|
      modifies this`nodeMap
      ensures forall n :: n in nodeMap <==>
        n in old(nodeMap) && forall j :: deadIdx <= j < |moved| ==> moved[j].name != n
      ensures forall n :: n in nodeMap ==> nodeMap[n] == old(nodeMap)[n]
      ensures Records(old(nodeMap)) == old(Records(nodeMap))
    {
      for i := deadIdx to |moved|
        invariant forall n :: n in nodeMap <==> n in old(nodeMap) && forall j :: deadIdx <= j < i ==> moved[j].name != n
        invariant forall n :: n in nodeMap ==> nodeMap[n] == old(nodeMap)[n]
      {
        nodeMap := nodeMap - {moved[i].name};
      }
    }

    method Shuffle()
      requires Valid()
      modifies this`nodes
      ensures Valid()
    {
      ghost var nodes0 := nodes;
      var slice := new NodeState[|nodes|](i requires 0 <= i < |nodes| reads this => nodes[i]);
      assert slice[..] == nodes;
      ShuffleNodes(slice);
      nodes := slice[..];
      ListsPermuted(nodes0, nodes, nodeMap);
    }

    // The slice with its dead moved to the end.
    method Moved() returns (moved: seq<NodeState>, deadIdx: nat)
      ensures multiset(moved) == multiset(nodes) && deadIdx <= |moved|
      ensures forall i :: 0 <= i < deadIdx ==> moved[i].status != Dead
      ensures forall i :: deadIdx <= i < |moved| ==> moved[i].status == Dead
      ensures Records(nodeMap) == old(Records(nodeMap))
    {
      var slice := new NodeState[|nodes|](i requires 0 <= i < |nodes| reads this => nodes[i]);
      assert slice[..] == nodes;
      deadIdx := MoveDeadNodes(slice);
      moved := slice[..];
    }

    method CutOff(moved: seq<NodeState>, deadIdx: nat)
      requires deadIdx <= |moved|
      modifies this`nodes, this`numNodes
      ensures nodes == moved[..deadIdx] && numNodes == deadIdx
      ensures Records(nodeMap) == old(Records(nodeMap))
    {
      nodes := moved[..deadIdx];
      numNodes := deadIdx;
    }

    // The dead are moved to the end, forgotten and cut off.
    method CutOffDead()
      requires Valid()
      modifies this`nodes, this`nodeMap, this`numNodes
      ensures Valid() && nodeMap.Values <= old(nodeMap.Values)
      ensures Records(nodeMap) == LiveOnes(old(Records(nodeMap)))
      ensures forall n :: n in nodeMap ==> n in old(nodeMap) && nodeMap[n] == old(nodeMap)[n]
    {
      ghost var map0, records0 := nodeMap, Records(nodeMap);
      var moved, deadIdx := Moved();
      ListsPermuted(nodes, moved, map0);
      Deregister(moved, deadIdx);
      LiveRemain(moved, map0, deadIdx, nodeMap);
      RecordsOfLive(moved, map0, records0, deadIdx, nodeMap);
      CutOff(moved, deadIdx);
    }

    // What is left is shuffled.
    method ResetNodes()
      requires Valid()
      modifies this`nodes, this`nodeMap, this`numNodes
      ensures Valid() && nodeMap.Values <= old(nodeMap.Values)
      ensures View() == Reaped(old(View()))
      ensures forall now :: Ticked(old(TimedView()), TimedView(), now)
    {
      CutOffDead();
      Shuffle();
    }
  }

  lemma Apart(moved: seq<NodeState>, deadIdx: nat, x: NodeState)
    requires deadIdx <= |moved| && x in moved
    requires forall i :: 0 <= i < deadIdx ==> moved[i].status != Dead
    requires forall i :: deadIdx <= i < |moved| ==> moved[i].status == Dead
    ensures x in moved[..deadIdx] <==> x.status != Dead
  {
    var i :| 0 <= i < |moved| && moved[i] == x;
    if i < deadIdx {
      assert moved[..deadIdx][i] == x;
    }
  }

  ghost function Records(m: map<string, NodeState>): map<string, Record>
    reads m.Values
  {
    map n | n in m :: m[n].Snapshot()
  }

  ghost function Times(m: map<string, NodeState>): map<string, int>
    reads m.Values
  {
    map n | n in m :: m[n].stateChange
  }

  // At most one entry has been added.
  predicate Grows(m: map<string, NodeState>, m': map<string, NodeState>, n: string) {
    (forall k <- m' :: k != n ==> k in m && m'[k] == m[k]) && (forall k <- m :: k in m' && m'[k] == m[k])
  }

  // A changed status has been stamped, and nothing else; a record that has entered as dead has no stamp.
  twostate predicate StampsAt(entries: set<NodeState>, now: int)
    reads entries
  {
    forall x <- entries :: x.stateChange == if x.status == old(x.status) then old(x.stateChange) else now
  }

  lemma RecordsInsert(m: map<string, NodeState>, n: string, state: NodeState)
    ensures Records(m[n := state]) == Records(m)[n := state.Snapshot()]
    ensures Times(m[n := state]) == Times(m)[n := state.stateChange]
  {
    assert Records(m[n := state]).Keys == Records(m)[n := state.Snapshot()].Keys;
    assert Times(m[n := state]).Keys == Times(m)[n := state.stateChange].Keys;
  }

  // The records of a map, each once.
  ghost predicate Lists(nodes: seq<NodeState>, m: map<string, NodeState>) {
    && (forall i :: 0 <= i < |nodes| ==> nodes[i].name in m && m[nodes[i].name] == nodes[i])
    && (forall n :: n in m ==> m[n].name == n && m[n] in nodes)
    && NoDuplicates(nodes)
  }

  lemma {:induction false} ListsCount(nodes: seq<NodeState>, m: map<string, NodeState>)
    requires Lists(nodes, m)
    ensures |nodes| == |m|
    decreases |nodes|
  {
    if nodes == [] {
      assert m == map[];
    } else {
      var k := |nodes| - 1;
      var last, rest := nodes[k], nodes[..k];
      var less := m - {last.name};
      forall n | n in less
        ensures less[n].name == n && less[n] in rest
      {
        assert m[n] in nodes && m[n] != last;
      }
      ListsCount(rest, less);
      assert m == less[last.name := last];
    }
  }

  // Without the dead at the end of the slice, the rest lists the rest.
  lemma LiveRemain(moved: seq<NodeState>, map0: map<string, NodeState>, deadIdx: nat, m: map<string, NodeState>)
    requires Lists(moved, map0) && deadIdx <= |moved|
    requires forall n :: n in m <==> n in map0 && forall j :: deadIdx <= j < |moved| ==> moved[j].name != n
    requires forall n :: n in m ==> m[n] == map0[n]
    ensures Lists(moved[..deadIdx], m) && |m| == deadIdx
    ensures forall n :: n in m <==> n in map0 && map0[n] in moved[..deadIdx]
  {
    forall n | n in map0
      ensures n in m <==> map0[n] in moved[..deadIdx]
    {
      var i :| 0 <= i < |moved| && moved[i] == map0[n];
    }
    forall i | 0 <= i < deadIdx
      ensures moved[i].name in m && m[moved[i].name] == moved[i]
    {
      assert map0[moved[i].name] == moved[i];
    }
    ListsCount(moved[..deadIdx], m);
  }

  // When the cut separates the dead from the rest, the records that stay are those that are not dead.
  lemma RecordsOfLive(moved: seq<NodeState>, map0: map<string, NodeState>, records0: map<string, Record>, deadIdx: nat,
                      m: map<string, NodeState>)
    requires records0 == Records(map0)
    requires deadIdx <= |moved| && forall n :: n in map0 ==> map0[n] in moved
    requires forall n :: n in m <==> n in map0 && map0[n] in moved[..deadIdx]
    requires forall n :: n in m ==> m[n] == map0[n]
    requires forall i :: 0 <= i < deadIdx ==> moved[i].status != Dead
    requires forall i :: deadIdx <= i < |moved| ==> moved[i].status == Dead
    ensures Records(m) == LiveOnes(records0) && m.Values <= map0.Values
  {
    forall n | n in map0
      ensures n in m <==> map0[n].status != Dead
    {
      Apart(moved, deadIdx, map0[n]);
    }
  }

  lemma ListsInsert(nodes: seq<NodeState>, m: map<string, NodeState>, state: NodeState)
    requires Lists(nodes, m) && state.name !in m
    ensures Lists(nodes + [state], m[state.name := state])
  {
    assert state !in nodes;
  }

  lemma ListsPermuted(p: seq<NodeState>, q: seq<NodeState>, m: map<string, NodeState>)
    requires Lists(p, m) && multiset(p) == multiset(q)
    ensures Lists(q, m) && |q| == |p|
  {
    Permuted(p, q);
    forall i | 0 <= i < |q|
      ensures q[i].name in m && m[q[i].name] == q[i]
    {
      assert q[i] in p;
    }
  }

  lemma {:induction false} ReceivedFirst(s: Timed, remote: seq<(string, Record)>, now: seq<int>, i: nat, self: string)
    requires i < |remote| == |now| && Stamped(s) && forall p :: p in remote ==> WellFormed(Pushed(p.1, p.0, self))
    ensures TimedExec(s, Received(remote[i..], self), now[i..]) ==
      TimedExec(TimedStep(s, Receive(Pushed(remote[i].1, remote[i].0, self)), now[i]),
        Received(remote[i + 1..], self), now[i + 1..])
  {
    var ops := Received(remote[i..], self);
    assert ops[0] == Receive(Pushed(remote[i].1, remote[i].0, self)) && ops[1..] == Received(remote[i + 1..], self);
  }
}
