// Which members a server counts on: who is active, which addresses are to be reconnected, and whether the
// server calls itself consistent.
module Rosters {
  import opened Common

  datatype Member = Member(active: bool, when: int)

  datatype Roster = Roster(members: map<string, Member>, reconnects: set<string>, consistent: bool)

  // What a server hears about its members. A leave tells from the member's meta data whether it was leaving;
  // None where these cannot be read.
  datatype Notice =
    | Joined(node: string, addr: string, now: int)
    | Left(node: string, addr: string, leaving: Option<bool>, now: int)
    | Pushed(theirs: map<string, Member>, now: int)
    | Looked(live: set<string>)

  // The later time stamp decides.
  function NewerMembers(ours: map<string, Member>, theirs: map<string, Member>): map<string, Member> {
    map m | m in ours.Keys + theirs.Keys ::
      if m in theirs && (m !in ours || theirs[m].when > ours[m].when) then theirs[m] else ours[m]
  }

  function MergedMembers(ours: map<string, Member>, theirs: map<string, Member>, self: string, now: int)
    : map<string, Member>
  {
    NewerMembers(ours, theirs)[self := Member(true, now)]
  }

  predicate Active(members: map<string, Member>, x: string) { x in members && members[x].active }

  predicate AllLive(members: map<string, Member>, live: set<string>) {
    forall m :: m in members && members[m].active ==> m in live
  }

  function Heard(r: Roster, self: string, n: Notice): Roster {
    match n
    case Joined(node, addr, now) =>
      r.(members := r.members[node := Member(true, now)], reconnects := r.reconnects - {addr})
    case Left(node, addr, leaving, now) =>
      if leaving.None? then r
      else if !leaving.value then r.(reconnects := r.reconnects + {addr})
      else r.(members := r.members[node := Member(false, now)], reconnects := r.reconnects - {addr})
    case Pushed(theirs, now) => r.(members := MergedMembers(r.members, theirs, self, now))
    case Looked(live) => r.(consistent := AllLive(r.members, live))
  }

  function HeardAll(r: Roster, self: string, ns: seq<Notice>): Roster
    decreases |ns|
  {
    if ns == [] then r else HeardAll(Heard(r, self, ns[0]), self, ns[1..])
  }

  // ----- A missing member -----

  // What makes an active member inactive: that it left on purpose, or that another server knows so and since later.
  predicate Releases(r: Roster, self: string, n: Notice, x: string) {
    || (n.Left? && n.node == x && n.leaving == Some(true))
    || (n.Pushed? && x != self && x in n.theirs && !n.theirs[x].active
        && (x in r.members ==> n.theirs[x].when > r.members[x].when))
  }

  lemma StaysActiveIff(r: Roster, self: string, n: Notice, x: string)
    requires Active(r.members, x)
    ensures Active(Heard(r, self, n).members, x) <==> !Releases(r, self, n, x)
  {}

  // What makes a member that is not active, or was never heard of, active: that it joins, or that another server knows
  // so and since later. A server that hears a pushed state counts itself active.
  predicate Engages(r: Roster, self: string, n: Notice, x: string) {
    || (n.Joined? && n.node == x)
    || (n.Pushed? && (x == self || (x in n.theirs && n.theirs[x].active
                                    && (x in r.members ==> n.theirs[x].when > r.members[x].when))))
  }

  lemma BecomesActiveIff(r: Roster, self: string, n: Notice, x: string)
    requires !Active(r.members, x)
    ensures Active(Heard(r, self, n).members, x) <==> Engages(r, self, n, x)
  {}

  // Members become known by joining, leaving on purpose and being pushed, and are never forgotten; what is told about
  // them is of the time it was heard, or the latest that either side has.
  lemma MembersKnownIff(r: Roster, self: string, n: Notice, x: string)
    ensures x in Heard(r, self, n).members <==>
      || x in r.members
      || (n.Joined? && n.node == x)
      || (n.Left? && n.node == x && n.leaving == Some(true))
      || (n.Pushed? && (x == self || x in n.theirs))
    ensures x in Heard(r, self, n).members ==> Heard(r, self, n).members[x].when == TimeHeard(r, self, n, x)
  {}

  function TimeHeard(r: Roster, self: string, n: Notice, x: string): int {
    var ours := if x in r.members then r.members[x].when else 0;
    match n
    case Joined(node, _, now) => if node == x then now else ours
    case Left(node, _, leaving, now) => if node == x && leaving == Some(true) then now else ours
    case Pushed(theirs, now) =>
      if x == self then now
      else if x !in theirs then ours
      else if x in r.members && ours > theirs[x].when then ours
      else theirs[x].when
    case Looked(_) => ours
  }

  // Two servers that tell each other agree on every member that neither of them is, unless they have heard two things
  // at the same time.
  lemma ToldAgreeIff(ours: map<string, Member>, theirs: map<string, Member>, x: string)
    ensures var a, b := NewerMembers(ours, theirs), NewerMembers(theirs, ours);
      && (x in a <==> x in ours || x in theirs) && (x in b <==> x in a)
      && (x in a ==> (a[x] == b[x] <==>
            !(x in ours && x in theirs && ours[x].when == theirs[x].when && ours[x].active != theirs[x].active)))
  {}

  predicate NoneReleases(r: Roster, self: string, ns: seq<Notice>, x: string)
    decreases |ns|
  {
    ns == [] || (!Releases(r, self, ns[0], x) && NoneReleases(Heard(r, self, ns[0]), self, ns[1..], x))
  }

  // A server with an active member that is missing, and that nothing releases, is inconsistent from the first
  // look on, whatever it hears: reconnecting, the joins and leaves of others and pushed states make no difference.
  lemma {:induction false} MissingStaysInconsistent(r: Roster, self: string, ns: seq<Notice>, x: string)
    requires Active(r.members, x) && NoneReleases(r, self, ns, x)
    requires forall n :: n in ns && n.Looked? ==> x !in n.live
    requires !r.consistent || exists n :: n in ns && n.Looked?
    ensures !HeardAll(r, self, ns).consistent && Active(HeardAll(r, self, ns).members, x)
    decreases |ns|
  {
    if ns == [] {
    } else {
      var s := Heard(r, self, ns[0]);
      assert ns[0] in ns;
      StaysActiveIff(r, self, ns[0], x);
      if !ns[0].Looked? && r.consistent {
        var n :| n in ns && n.Looked?;
        assert n in ns[1..];
      }
      MissingStaysInconsistent(s, self, ns[1..], x);
    }
  }

  // The last look decides: the server is consistent exactly when all that were active then were live then.
  lemma {:induction false} LastLookDecides(r: Roster, self: string, before: seq<Notice>, live: set<string>,
                                           after: seq<Notice>)
    requires forall n :: n in after ==> !n.Looked?
    ensures HeardAll(r, self, before + ([Looked(live)] + after)).consistent
      <==> forall m :: Active(HeardAll(r, self, before).members, m) ==> m in live
  {
    var rest := [Looked(live)] + after;
    HeardAppend(r, self, before, rest);
    assert rest[1..] == after;
    var s := HeardAll(r, self, before);
    NoLook(Heard(s, self, Looked(live)), self, after);
    assert AllLive(s.members, live) <==> forall m :: Active(s.members, m) ==> m in live;
  }

  lemma {:induction false} HeardAppend(r: Roster, self: string, p: seq<Notice>, q: seq<Notice>)
    ensures HeardAll(r, self, p + q) == HeardAll(HeardAll(r, self, p), self, q)
    decreases |p|
  {
    if p == [] {
      assert p + q == q;
    } else {
      assert (p + q)[1..] == p[1..] + q;
      HeardAppend(Heard(r, self, p[0]), self, p[1..], q);
    }
  }

  lemma {:induction false} NoLook(r: Roster, self: string, ns: seq<Notice>)
    requires forall n :: n in ns ==> !n.Looked?
    ensures HeardAll(r, self, ns).consistent == r.consistent
    decreases |ns|
  {
    if ns == [] {
    } else {
      assert ns[0] in ns;
      NoLook(Heard(r, self, ns[0]), self, ns[1..]);
    }
  }

  // ----- Reconnecting -----

  // The last notice that settles what to do about an address.
  function LastAbout(ns: seq<Notice>, addr: string): Option<Notice>
    decreases |ns|
  {
    if ns == [] then None
    else
      var n := ns[|ns| - 1];
      if (n.Joined? && n.addr == addr) || (n.Left? && n.addr == addr && n.leaving.Some?) then Some(n)
      else LastAbout(ns[..|ns| - 1], addr)
  }

  // The addresses to reconnect are exactly those from which a member was last reported missing, and neither
  // joined nor left on purpose since.
  lemma {:induction false} ReconnectsIff(r: Roster, self: string, ns: seq<Notice>, addr: string)
    ensures addr in HeardAll(r, self, ns).reconnects <==>
      match LastAbout(ns, addr)
      case None => addr in r.reconnects
      case Some(n) => n.Left? && n.leaving == Some(false)
    decreases |ns|
  {
    if ns == [] {
    } else {
      var init, n := ns[..|ns| - 1], ns[|ns| - 1];
      assert ns == init + [n] && [n][1..] == [];
      HeardAppend(r, self, init, [n]);
      ReconnectsIff(r, self, init, addr);
    }
  }
}
