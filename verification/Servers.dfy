// One server: its table of counter cells that are updated in place, its members, and the operations that
// run under its lock. The table is keyed by owner and counter name together, where the program nests one
// map in another. Every operation is tied to what it does to the table of counters.
module Servers {
  import opened Common
  import opened Counters
  import opened Convergence
  import opened Rosters

  class Cell {
    var up: real
    var down: real
    var rev: nat

    constructor (c: Counter)
      ensures Snapshot() == c
    {
      up, down, rev := c.up, c.down, c.rev;
    }

    ghost function Snapshot(): Counter
      reads this
    {
      Counter(up, down, rev)
    }

    method Count(diff: real)
      modifies this
      ensures Snapshot() == Incremented(Some(old(Snapshot())), diff)
    {
      if diff > 0.0 {
        up := up + diff;
      } else {
        down := down - diff;
      }
    }

    method Assign(up: real, down: real, rev: nat)
      modifies this
      ensures Snapshot() == Counter(up, down, rev)
    {
      this.up, this.down, this.rev := up, down, rev;
    }

    // Up and Down to the maximum, whatever the revision.
    method Raise(c: Counter)
      modifies this
      ensures Snapshot() == Counter(Max(old(up), c.up), Max(old(down), c.down), old(rev))
    {
      if c.up > up {
        up := c.up;
      }
      if c.down > down {
        down := c.down;
      }
    }
  }

  class Server {
    const name: string
    var replicas: map<Key, Cell>
    var members: map<string, Member>
    var reconnects: set<string>
    var consistent: bool
    var announced: seq<(string, Counter)>  // the changes handed to the broadcast queue, in order

    // No two entries share a cell.
    ghost predicate Valid()
      reads this
    {
      forall k, k' :: k in replicas && k' in replicas && replicas[k] == replicas[k'] ==> k == k'
    }

    // The table of counters.
    ghost function View(): Replicas
      reads this, replicas.Values
    {
      map k | k in replicas :: replicas[k].Snapshot()
    }

    // What it counts on.
    function Members(): Roster
      reads this
    {
      Roster(members, reconnects, consistent)
    }

    constructor (name: string, now: int)
      ensures Valid() && View() == map[]
      ensures members == map[name := Member(true, now)] && announced == [] && consistent
      ensures this.name == name
    {
      this.name := name;
      replicas := map[];
      members := map[name := Member(true, now)];
      reconnects := {};
      consistent := true;
      announced := [];
    }

    // A new cell for a counter.
    method Enter(key: Key, c: Counter)
      requires Valid()
      modifies this`replicas
      ensures Valid() && fresh(replicas.Values - old(replicas.Values)) && key in replicas
      ensures View() == old(View())[key := c] && replicas[key].Snapshot() == c
    {
      var cell := new Cell(c);
      replicas := replicas[key := cell];
    }

    // The step that readChange and MergeRemoteState share.
    method MergeEntry(key: Key, c: Counter)
      requires Valid()
      modifies this`replicas, replicas.Values
      ensures Valid() && fresh(replicas.Values - old(replicas.Values))
      ensures View() == Apply(old(View()), Update(key, c))
    {
      if key !in replicas || c.rev > replicas[key].rev {
        Enter(key, c);
      } else {
        var oc := replicas[key];
        oc.Raise(c);
        assert View() == old(View())[key := oc.Snapshot()];
      }
    }

    // A change message; one about an unknown member is an error.
    method ReadChange(memberName: string, counter: string, c: Counter) returns (known: bool)
      requires Valid()
      modifies this`replicas, replicas.Values
      ensures Valid() && fresh(replicas.Values - old(replicas.Values))
      ensures known <==> memberName in members
      ensures View() == if known then Apply(old(View()), Update(Key(memberName, counter), c)) else old(View())
    {
      known := memberName in members;
      if known {
        MergeEntry(Key(memberName, counter), c);
      }
    }

    // The change is announced with the counter as it now is.
    method BroadcastChange(counter: string, c: Cell)
      modifies this`announced
      ensures announced == old(announced) + [(counter, c.Snapshot())]
    {
      announced := announced + [(counter, Counter(c.up, c.down, c.rev))];
    }

    method ReadReset(counter: string, seen: Counter)
      requires Valid()
      modifies this`announced, replicas.Values
      ensures Valid()
      ensures var k := Key(name, counter); var own := old(Lookup(View(), k));
        if Accepts(own, seen) then
          var c := AfterReset(own.value, seen);
          View() == old(View())[k := c] && announced == old(announced) + [(counter, c)]
        else
          View() == old(View()) && announced == old(announced)
    {
      var k := Key(name, counter);
      if k in replicas && seen.rev == replicas[k].rev {
        var oc := replicas[k];
        oc.up := oc.up - seen.up;
        oc.down := oc.down - seen.down;
        oc.rev := oc.rev + 1;
        BroadcastChange(counter, oc);
      }
    }

    // An own counter that there is counts and is announced.
    method CountOwn(k: Key, diff: real) returns (value: real)
      requires Valid() && k in replicas
      modifies this`announced, replicas[k]
      ensures Valid()
      ensures var c := Incremented(old(Lookup(View(), k)), diff);
        View() == old(View())[k := c] && announced == old(announced) + [(k.name, c)] && value == c.Value()
    {
      var c := replicas[k];
      c.Count(diff);
      assert View() == old(View())[k := c.Snapshot()];
      BroadcastChange(k.name, c);
      value := c.up - c.down;
    }

    method Inc(counter: string, diff: real) returns (value: real)
      requires Valid()
      modifies this`replicas, this`announced, replicas.Values
      ensures Valid() && fresh(replicas.Values - old(replicas.Values))
      ensures var k := Key(name, counter); var c := Incremented(old(Lookup(View(), k)), diff);
        View() == old(View())[k := c] && announced == old(announced) + [(counter, c)] && value == c.Value()
    {
      var k := Key(name, counter);
      if k !in replicas {
        Enter(k, Counter(0.0, 0.0, 0));
      }
      value := CountOwn(k, diff);
    }

    // The resets go out one by one, under the read lock; any failure makes the set fail.
    method SendResets(counter: string, live: seq<string>, failing: set<string>)
      returns (ok: bool, sent: seq<(string, Counter)>)
      ensures forall b, c :: (b, c) in sent <==>
        b in live && b != name && b !in failing && Lookup(View(), Key(b, counter)) == Some(c)
      ensures ok <==> forall b :: b in live && b != name && b in failing ==> Key(b, counter) !in View()
    {
      sent, ok := [], true;
      for i := 0 to |live|
        invariant forall b, c :: (b, c) in sent <==>
          b in live[..i] && b != name && b !in failing && Lookup(View(), Key(b, counter)) == Some(c)
        invariant ok <==> forall b :: b in live[..i] && b != name && b in failing ==> Key(b, counter) !in View()
      {
        assert live[..i + 1] == live[..i] + [live[i]];
        var node := live[i];
        if node == name {
          continue;
        }
        if Key(node, counter) !in replicas {
          continue;
        }
        var seen := replicas[Key(node, counter)];
        if node in failing {
          ok := false;
          continue;
        }
        sent := sent + [(node, Counter(seen.up, seen.down, seen.rev))];
      }
      assert live[..|live|] == live;
    }

    // The own counter starts a new revision at the value set.
    method FinishSet(counter: string, value: real) returns (previous: real)
      requires Valid()
      modifies this`replicas, this`announced, replicas.Values
      ensures Valid() && fresh(replicas.Values - old(replicas.Values))
      ensures var k := Key(name, counter); var c := AfterSet(old(Lookup(View(), k)), value);
        View() == old(View())[k := c] && announced == old(announced) + [(counter, c)]
          && previous == ValueIn(old(View()), k)
    {
      previous := 0.0;
      var up, down := 0.0, 0.0;
      if value > 0.0 {
        up := value;
      } else {
        down := -value;
      }
      var k := Key(name, counter);
      if k in replicas {
        var c := replicas[k];
        previous := c.up - c.down;
        c.Assign(up, down, c.rev + 1);
        assert View() == old(View())[k := c.Snapshot()];
      } else {
        Enter(k, Counter(up, down, 0));
      }
      BroadcastChange(counter, replicas[k]);
    }

    // `live` is what the member list answers and `failing` are the members that cannot be reached.
    method Set(counter: string, value: real, live: seq<string>, failing: set<string>)
      returns (previous: real, ok: bool, sent: seq<(string, Counter)>)
      requires Valid()
      modifies this`replicas, this`announced, replicas.Values
      ensures Valid() && fresh(replicas.Values - old(replicas.Values))
      ensures forall b, c :: (b, c) in sent <==>
        b in live && b != name && b !in failing && old(Lookup(View(), Key(b, counter))) == Some(c)
      ensures ok <==> forall b :: b in live && b != name && b in failing ==> Key(b, counter) !in old(View())
      ensures var k := Key(name, counter); var own := old(Lookup(View(), k));
        if ok then
          var c := AfterSet(own, value);
          View() == old(View())[k := c] && announced == old(announced) + [(counter, c)]
            && previous == ValueIn(old(View()), k)
        else
          View() == old(View()) && announced == old(announced) && previous == 0.0
    {
      previous := 0.0;
      ok, sent := SendResets(counter, live, failing);
      if ok {
        previous := FinishSet(counter, value);
      }
    }

    method Get(counter: string) returns (value: real, isConsistent: bool)
      ensures value == Reading(View(), counter) && isConsistent == consistent
    {
      value, isConsistent := 0.0, consistent;
      var todo := replicas.Keys;
      ghost var all := View();
      assert all - todo == map[];
      while todo != {}
        invariant todo <= replicas.Keys
        invariant value == Reading(all - todo, counter)
        decreases |todo|
      {
        var k :| k in todo;
        ghost var before := all - todo;
        todo := todo - {k};
        assert all - todo == before[k := all[k]];
        ReadingPut(before, k, all[k], counter);
        if k.name == counter {
          var c := replicas[k];
          value := value + c.up - c.down;
        }
      }
      assert all - {} == all;
    }

    // The first loop of a listing: one pass over all replicas.
    method Sums() returns (l: map<string, real>)
      ensures SumsOf(l, View())
    {
      l := map[];
      var todo := replicas.Keys;
      ghost var all := View();
      assert all - todo == map[];
      while todo != {}
        invariant todo <= replicas.Keys && SumsOf(l, all - todo)
        decreases |todo|
      {
        var k :| k in todo;
        SumsRound(l, all, todo, k);
        todo := todo - {k};
        var c := replicas[k];
        l := l[k.name := (if k.name in l then l[k.name] else 0.0) + (c.up - c.down)];
      }
      assert all - {} == all;
    }

    // All readings that are not zero.
    method List() returns (l: map<string, real>)
      ensures forall n :: n in l <==> Reading(View(), n) != 0.0
      ensures forall n :: n in l ==> l[n] == Reading(View(), n)
    {
      l := Sums();
      l := map n | n in l && l[n] != 0.0 :: l[n];
    }

    // The later time stamp decides; the server itself is active.
    method MergeMembers(theirs: map<string, Member>, now: int)
      modifies this`members
      ensures members == MergedMembers(old(members), theirs, name, now)
      ensures Members() == Heard(old(Members()), name, Pushed(theirs, now))
    {
      var todo := theirs.Keys;
      assert theirs - todo == map[];
      assert NewerMembers(members, map[]) == members;
      while todo != {}
        invariant todo <= theirs.Keys
        invariant members == NewerMembers(old(members), theirs - todo)
        decreases |todo|
      {
        var m :| m in todo;
        NewerStep(old(members), theirs, todo, m);
        if m !in members || theirs[m].when > members[m].when {
          members := members[m := theirs[m]];
        }
        todo := todo - {m};
      }
      assert theirs - {} == theirs;
      members := members[name := Member(true, now)];
    }

    method MergeReplicas(remote: Replicas)
      requires Valid()
      modifies this`replicas, replicas.Values
      ensures Valid() && fresh(replicas.Values - old(replicas.Values))
      ensures MergedWith(old(View()), OfKnown(remote, members.Keys), View())
    {
      var todo := remote.Keys;
      while todo != {}
        invariant Valid() && fresh(replicas.Values - old(replicas.Values))
        invariant todo <= remote.Keys
        invariant MergedWith(old(View()), OfKnown(remote - todo, members.Keys), View())
        decreases |todo|
      {
        var k :| k in todo;
        MergedStep(old(View()), remote, members.Keys, todo, k, View());
        todo := todo - {k};
        if k.owner !in members {
          continue;
        }
        MergeEntry(k, remote[k]);
      }
      assert remote - {} == remote;
    }

    // A state pushed by another server: its members first, then every counter of a known member.
    method MergeRemoteState(theirs: map<string, Member>, remote: Replicas, now: int)
      requires Valid()
      modifies this`replicas, this`members, replicas.Values
      ensures Valid() && fresh(replicas.Values - old(replicas.Values))
      ensures members == MergedMembers(old(members), theirs, name, now)
      ensures MergedWith(old(View()), OfKnown(remote, members.Keys), View())
    {
      MergeMembers(theirs, now);
      assert View() == old(View());
      MergeReplicas(remote);
    }

    method NotifyJoin(node: string, addr: string, now: int)
      modifies this`members, this`reconnects
      ensures Members() == Heard(old(Members()), name, Joined(node, addr, now))
    {
      members := members[node := Member(true, now)];
      reconnects := reconnects - {addr};
    }

    // A member that is leaving becomes inactive; one that is missing is to be reconnected. Meta data that cannot
    // be read are an error.
    method NotifyLeave(node: string, addr: string, leaving: Option<bool>, now: int)
      modifies this`members, this`reconnects
      ensures Members() == Heard(old(Members()), name, Left(node, addr, leaving, now))
    {
      if leaving.None? {
        return;
      }
      if !leaving.value {
        reconnects := reconnects + {addr};
      } else {
        members := members[node := Member(false, now)];
        reconnects := reconnects - {addr};
      }
    }

    // Consistent exactly when no active member is missing from the live ones.
    method UpdateConsistent(live: set<string>)
      modifies this`consistent
      ensures Members() == Heard(old(Members()), name, Looked(live))
      ensures consistent <==> forall m :: m in members && members[m].active ==> m in live
    {
      var todo := members.Keys;
      while todo != {}
        invariant todo <= members.Keys
        invariant forall m :: m in members && m !in todo && members[m].active ==> m in live
        decreases |todo|
      {
        var m :| m in todo;
        todo := todo - {m};
        if members[m].active && m !in live {
          consistent := false;
          return;
        }
      }
      consistent := true;
    }
  }

  lemma NewerStep(ours: map<string, Member>, theirs: map<string, Member>, todo: set<string>, m: string)
    requires m in todo && todo <= theirs.Keys
    ensures var now := NewerMembers(ours, theirs - todo);
      NewerMembers(ours, theirs - (todo - {m}))
        == if m !in now || theirs[m].when > now[m].when then now[m := theirs[m]] else now
  {
    var now, next := NewerMembers(ours, theirs - todo), NewerMembers(ours, theirs - (todo - {m}));
    assert forall x :: x != m ==> (x in next <==> x in now);
    assert forall x :: x != m && x in now ==> next[x] == now[x];
  }

  function OfKnown(remote: Replicas, known: set<string>): Replicas {
    map k | k in remote && k.owner in known :: remote[k]
  }

  // The merge of a whole table, key by key.
  ghost predicate MergedWith(before: Replicas, remote: Replicas, after: Replicas) {
    forall k :: Lookup(after, k) == if k in remote then Some(Merge(Lookup(before, k), remote[k])) else Lookup(before, k)
  }

  // The readings so far, those of 0 possibly left out.
  ghost predicate SumsOf(l: map<string, real>, seen: Replicas) {
    forall n :: Reading(seen, n) == if n in l then l[n] else 0.0
  }

  lemma SumsRound(l: map<string, real>, all: Replicas, todo: set<Key>, k: Key)
    requires k in todo && todo <= all.Keys && SumsOf(l, all - todo)
    ensures SumsOf(l[k.name := (if k.name in l then l[k.name] else 0.0) + all[k].Value()], all - (todo - {k}))
  {
    assert all - (todo - {k}) == (all - todo)[k := all[k]];
    SumsPut(l, all - todo, k, all[k]);
  }

  lemma SumsPut(l: map<string, real>, seen: Replicas, k: Key, c: Counter)
    requires SumsOf(l, seen) && k !in seen
    ensures SumsOf(l[k.name := (if k.name in l then l[k.name] else 0.0) + c.Value()], seen[k := c])
  {
    var more := l[k.name := (if k.name in l then l[k.name] else 0.0) + c.Value()];
    forall n
      ensures Reading(seen[k := c], n) == if n in more then more[n] else 0.0
    {
      ReadingPut(seen, k, c, n);
    }
  }

  lemma MergedStep(before: Replicas, remote: Replicas, known: set<string>, todo: set<Key>, k: Key, now: Replicas)
    requires MergedWith(before, OfKnown(remote - todo, known), now)
    requires k in todo && todo <= remote.Keys
    ensures MergedWith(before, OfKnown(remote - (todo - {k}), known),
                       if k.owner in known then Apply(now, Update(k, remote[k])) else now)
  {
    var less, more := OfKnown(remote - todo, known), OfKnown(remote - (todo - {k}), known);
    assert forall x :: x != k ==> (x in more <==> x in less);
    assert Lookup(now, k) == Lookup(before, k);
  }

  // Exactly the entries of known members come in, and what is held of them afterwards is at least as far.
  lemma PushedArrivesIff(before: Replicas, remote: Replicas, known: set<string>, after: Replicas, k: Key)
    requires MergedWith(before, OfKnown(remote, known), after)
    ensures k in after <==> k in before || (k in remote && k.owner in known)
    ensures k in remote && k.owner in known ==> Leq(remote[k], after[k]) && (k !in before ==> after[k] == remote[k])
    ensures k in before && k in after && !(k in remote && k.owner in known) ==> after[k] == before[k]
  {
    assert Lookup(after, k).Some? <==> k in after;
  }

  // Two servers that push their tables to each other, and know all members in them, end with the same table exactly
  // when neither had an older copy that exceeds the other's.
  lemma PushPullAgreesIff(a: Replicas, b: Replicas, known: set<string>, a': Replicas, b': Replicas)
    requires forall k :: k in a || k in b ==> k.owner in known
    requires MergedWith(a, OfKnown(b, known), a') && MergedWith(b, OfKnown(a, known), b')
    ensures a' == b' <==>
      forall k :: k in a && k in b ==> !StaleRaise(Some(a[k]), b[k]) && !StaleRaise(Some(b[k]), a[k])
  {
    forall k
      ensures k in a' <==> k in b'
      ensures Lookup(a', k) == Lookup(b', k) <==>
        (k in a && k in b ==> !StaleRaise(Some(a[k]), b[k]) && !StaleRaise(Some(b[k]), a[k]))
    {
      PushedArrivesIff(a, b, known, a', k);
      PushedArrivesIff(b, a, known, b', k);
    }
    if a' != b' {
      var k :| k in a' && a'[k] != b'[k];
      assert Lookup(a', k) != Lookup(b', k);
    }
  }

  // A push/pull is the delivery of its entries one by one, in any order.
  lemma {:induction false} MergeIsDeliveries(before: Replicas, remote: Replicas, after: Replicas, us: seq<Update>)
    requires MergedWith(before, remote, after)
    requires forall i, j :: 0 <= i < j < |us| ==> us[i].key != us[j].key
    requires forall u :: u in us ==> u.key in remote && u.c == remote[u.key]
    requires forall k :: k in remote ==> Update(k, remote[k]) in us
    ensures after == ApplyAll(before, us)
    decreases |us|
  {
    var all := ApplyAll(before, us);
    forall k
      ensures Lookup(all, k) == Lookup(after, k)
    {
      if us == [] {
      } else {
        var init, u := us[..|us| - 1], us[|us| - 1];
        var less := remote - {u.key};
        var mid := map x | x in before.Keys + less.Keys ::
          if x in less then Merge(Lookup(before, x), less[x]) else before[x];
        assert MergedWith(before, less, mid);
        forall x | x in less
          ensures Update(x, less[x]) in init
        {
          assert Update(x, remote[x]) in us;
        }
        forall w | w in init
          ensures w.key in less && w.c == less[w.key]
        {
          assert w in us;
        }
        MergeIsDeliveries(before, less, mid, init);
        assert u in us;
        assert Lookup(mid, u.key) == Lookup(before, u.key);
      }
    }
    forall k
      ensures k in all <==> k in after
      ensures k in all && k in after ==> all[k] == after[k]
    {
      assert Lookup(all, k) == Lookup(after, k);
    }
  }
}
