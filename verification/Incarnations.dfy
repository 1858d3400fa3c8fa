// The incarnation counter as it is: 32 bits wide.
module Incarnations {
  import Membership

  const LAST := 0xffff_ffff

  function Next(counter: nat): nat { (counter + 1) % 0x1_0000_0000 }

  // The counter after n steps.
  function After(counter: nat, n: nat): nat { (counter + n) % 0x1_0000_0000 }

  class IncarnationCounter {
    var incarnation: nat

    ghost predicate Valid()
      reads this
    {
      incarnation <= LAST
    }

    constructor ()
      ensures Valid() && incarnation == 0
    {
      incarnation := 0;
    }

    method NextIncarnation() returns (inc: nat)
      requires Valid()
      modifies this
      ensures Valid() && inc == incarnation == Next(old(incarnation))
    {
      incarnation := Next(incarnation);
      inc := incarnation;
    }

    // The loop of a refutation. Against the last incarnation of all it would not end.
    method RaiseAbove(accused: nat) returns (inc: nat)
      requires Valid() && accused < LAST
      modifies this
      ensures Valid() && inc == incarnation && inc > accused
      ensures inc == if Next(old(incarnation)) > accused then Next(old(incarnation)) else accused + 1
    {
      inc := NextIncarnation();
      while accused >= inc
        invariant Valid() && inc == incarnation
        invariant inc == Next(old(incarnation)) || (Next(old(incarnation)) <= accused && inc <= accused + 1)
        decreases accused - inc
      {
        inc := NextIncarnation();
      }
    }
  }

  // The counter ever exceeds an accusation exactly when the accusation is not the last incarnation.
  lemma RefutationEndsIff(counter: nat, accused: nat)
    requires counter <= LAST && accused <= LAST
    ensures (exists n :: n > 0 && After(counter, n) > accused) <==> accused != LAST
  {
    if accused < LAST {
      var n := accused + 1 + 0x1_0000_0000 - counter;
      assert After(counter, n) == accused + 1;
    }
  }

  // Below the last incarnation the 32-bit counter does what the unbounded one does, and climbs. At the last
  // one it falls back: then the unbounded counter is the wrong model.
  lemma BoundedIsUnboundedIff(counter: nat, accused: nat)
    requires counter <= LAST && accused < LAST
    ensures (if Next(counter) > accused then Next(counter) else accused + 1) == Membership.Refuting(counter, accused)
      <==> counter < LAST
  {}
}
