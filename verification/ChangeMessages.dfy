// The messages in which servers tell each other about counters, and the queue of changes.
module ChangeMessages {
  import opened Bytes
  import opened Common
  import opened BroadcastQueue

  const RESET_MESSAGE: byte := 0
  const CHANGE_MESSAGE: byte := 1
  const NEWLINE: byte := 10

  // A counter as it travels: Up and Down are the bit patterns of their floating-point numbers.
  datatype Triple = Triple(up: uint64, down: uint64, rev: uint32)

  // A message, taken apart.
  datatype Parsed =
    | Change(node: seq<byte>, name: seq<byte>, c: Triple)
    | Reset(name: seq<byte>, c: Triple)

  // ----- Writing -----

  function TripleBytes(c: Triple): (s: seq<byte>)
    ensures |s| == 20
  {
    LE(c.up, 8) + LE(c.down, 8) + LE(c.rev, 4)
  }

  function Line(s: seq<byte>): seq<byte> { s + [NEWLINE] }

  function ChangeBytes(node: seq<byte>, name: seq<byte>, c: Triple): seq<byte> {
    [CHANGE_MESSAGE] + (Line(node) + (Line(name) + TripleBytes(c)))
  }

  function ResetBytes(name: seq<byte>, c: Triple): seq<byte> {
    [RESET_MESSAGE] + (Line(name) + TripleBytes(c))
  }

  // ----- Reading -----

  // Up to the first newline, which is stripped off, and the rest.
  function ReadLine(bs: seq<byte>): Option<(seq<byte>, seq<byte>)>
    decreases |bs|
  {
    if bs == [] then None
    else if bs[0] == NEWLINE then Some(([], bs[1..]))
    else
      match ReadLine(bs[1..])
      case None => None
      case Some(r) => Some(([bs[0]] + r.0, r.1))
  }

  // What follows the triple is not looked at.
  function ReadTriple(bs: seq<byte>): Option<Triple> {
    if |bs| < 20 then None
    else
      NumLEBound(bs[..8]);
      NumLEBound(bs[8..16]);
      NumLEBound(bs[16..20]);
      SmallPowers();
      Some(Triple(NumLE(bs[..8]), NumLE(bs[8..16]), NumLE(bs[16..20])))
  }

  // None where the message is refused.
  function Parse(msg: seq<byte>): Option<Parsed> {
    if msg == [] then None
    else if msg[0] == RESET_MESSAGE then
      match ReadLine(msg[1..])
      case None => None
      case Some(n) =>
        match ReadTriple(n.1) {
          case None => None
          case Some(c) => Some(Reset(n.0, c))
        }
    else if msg[0] == CHANGE_MESSAGE then
      match ReadLine(msg[1..])
      case None => None
      case Some(m) =>
        match ReadLine(m.1) {
          case None => None
          case Some(n) =>
            match ReadTriple(n.1) {
              case None => None
              case Some(c) => Some(Change(m.0, n.0, c))
            }
        }
    else None
  }

  lemma {:induction false} NumLEBound(s: seq<byte>)
    ensures NumLE(s) < Pow256(|s|)
    decreases |s|
  {
    if s == [] {
    } else {
      NumLEBound(s[1..]);
    }
  }

  // ----- Writing and reading -----

  // A line comes back exactly when it holds no newline; otherwise something shorter does.
  lemma {:induction false} LineBack(s: seq<byte>, rest: seq<byte>)
    ensures var r := ReadLine(Line(s) + rest);
      && r.Some? && (NEWLINE !in s ==> r.value == (s, rest)) && (NEWLINE in s ==> |r.value.0| < |s|)
    decreases |s|
  {
    var bs := Line(s) + rest;
    if s == [] {
      assert bs[1..] == rest;
    } else {
      LineBack(s[1..], rest);
      assert bs[1..] == Line(s[1..]) + rest;
      assert s == [s[0]] + s[1..];
    }
  }

  lemma {:induction false} TripleBack(c: Triple, rest: seq<byte>)
    ensures ReadTriple(TripleBytes(c) + rest) == Some(c)
  {
    SmallPowers();
    NumLELE(c.up, 8);
    NumLELE(c.down, 8);
    NumLELE(c.rev, 4);
    Fields(LE(c.up, 8), LE(c.down, 8), LE(c.rev, 4), rest);
  }

  lemma {:induction false} Fields(x: seq<byte>, y: seq<byte>, z: seq<byte>, rest: seq<byte>)
    requires |x| == 8 && |y| == 8 && |z| == 4
    ensures var bs := x + y + z + rest; bs[..8] == x && bs[8..16] == y && bs[16..20] == z
  {}

  // A change is read as it was written exactly when neither name holds a newline.
  lemma {:induction false} ChangeRoundTripIff(node: seq<byte>, name: seq<byte>, c: Triple)
    ensures Parse(ChangeBytes(node, name, c)) == Some(Change(node, name, c)) <==> NEWLINE !in node && NEWLINE !in name
  {
    var afterNode := Line(name) + TripleBytes(c);
    LineBack(node, afterNode);
    LineBack(name, TripleBytes(c));
    TripleBack(c, []);
    assert TripleBytes(c) + [] == TripleBytes(c);
    assert ChangeBytes(node, name, c)[1..] == Line(node) + afterNode;
  }

  // It is read as a change to the triple d exactly when, besides, d is the one written.
  lemma {:induction false} ChangeReadsAsIff(node: seq<byte>, name: seq<byte>, c: Triple, d: Triple)
    ensures Parse(ChangeBytes(node, name, c)) == Some(Change(node, name, d)) <==>
      NEWLINE !in node && NEWLINE !in name && c == d
  {
    ChangeRoundTripIff(node, name, c);
    if Parse(ChangeBytes(node, name, c)) == Some(Change(node, name, d)) {
      var afterNode := Line(name) + TripleBytes(c);
      LineBack(node, afterNode);
      LineBack(name, TripleBytes(c));
      assert ChangeBytes(node, name, c)[1..] == Line(node) + afterNode;
    }
  }

  // Without its last bytes, or any more, a line is refused.
  lemma {:induction false} CutLine(s: seq<byte>, k: nat)
    requires NEWLINE !in s && k <= |s|
    ensures ReadLine(Line(s)[..k]) == None
    decreases |s|
  {
    if k == 0 {
    } else {
      assert Line(s)[..k][0] == s[0] && Line(s)[..k][1..] == Line(s[1..])[..k - 1];
      CutLine(s[1..], k - 1);
    }
  }

  // A cut falls into the line, or behind it.
  lemma {:induction false} CutFields(s: seq<byte>, more: seq<byte>, k: nat)
    requires NEWLINE !in s && k < |Line(s)| + |more|
    ensures k < |Line(s)| ==> ReadLine((Line(s) + more)[..k]) == None
    ensures k >= |Line(s)| ==> ReadLine((Line(s) + more)[..k]) == Some((s, more[..k - |Line(s)|]))
  {
    if k < |Line(s)| {
      CutLine(s, k);
      assert (Line(s) + more)[..k] == Line(s)[..k];
    } else {
      LineBack(s, more[..k - |Line(s)|]);
      assert (Line(s) + more)[..k] == Line(s) + more[..k - |Line(s)|];
    }
  }

  // Line by line: what refuses a message.
  lemma RefusedReset(msg: seq<byte>)
    requires msg != [] && msg[0] == RESET_MESSAGE
    requires var r := ReadLine(msg[1..]); r.None? || |r.value.1| < 20
    ensures Parse(msg) == None
  {}

  // There are not two lines and a triple.
  predicate EndsEarly(bs: seq<byte>) {
    match ReadLine(bs)
    case None => true
    case Some(m) =>
      match ReadLine(m.1)
      case None => true
      case Some(n) => |n.1| < 20
  }

  lemma RefusedChange(msg: seq<byte>)
    requires msg != [] && msg[0] == CHANGE_MESSAGE
    requires EndsEarly(msg[1..])
    ensures Parse(msg) == None
  {}

  // So is a reset,
  lemma {:induction false} CutResetIsRefused(name: seq<byte>, c: Triple, k: nat)
    requires NEWLINE !in name && k < |ResetBytes(name, c)|
    ensures Parse(ResetBytes(name, c)[..k]) == None
  {
    if k > 0 {
      var msg := ResetBytes(name, c)[..k];
      CutFields(name, TripleBytes(c), k - 1);
      assert msg[0] == ResetBytes(name, c)[0];
      assert msg[1..] == (Line(name) + TripleBytes(c))[..k - 1];
      RefusedReset(msg);
    }
  }

  lemma {:induction false} CutLines(node: seq<byte>, name: seq<byte>, c: Triple, k: nat)
    requires NEWLINE !in node && NEWLINE !in name && k < |Line(node) + (Line(name) + TripleBytes(c))|
    ensures EndsEarly((Line(node) + (Line(name) + TripleBytes(c)))[..k])
  {
    CutFields(node, Line(name) + TripleBytes(c), k);
    if k >= |Line(node)| {
      CutFields(name, TripleBytes(c), k - |Line(node)|);
    }
  }

  // and so is a change.
  lemma {:induction false} CutChangeIsRefused(node: seq<byte>, name: seq<byte>, c: Triple, k: nat)
    requires NEWLINE !in node && NEWLINE !in name && k < |ChangeBytes(node, name, c)|
    ensures Parse(ChangeBytes(node, name, c)[..k]) == None
  {
    if k > 0 {
      var msg := ChangeBytes(node, name, c)[..k];
      assert msg[0] == ChangeBytes(node, name, c)[0];
      assert msg[1..] == (Line(node) + (Line(name) + TripleBytes(c)))[..k - 1];
      CutLines(node, name, c, k - 1);
      RefusedChange(msg);
    }
  }

  lemma {:induction false} ResetRoundTripIff(name: seq<byte>, c: Triple)
    ensures Parse(ResetBytes(name, c)) == Some(Reset(name, c)) <==> NEWLINE !in name
  {
    LineBack(name, TripleBytes(c));
    TripleBack(c, []);
    assert TripleBytes(c) + [] == TripleBytes(c);
    assert ResetBytes(name, c)[1..] == Line(name) + TripleBytes(c);
  }

  // ----- The queue of changes -----

  method BroadcastChange(changes: TransmitLimitedQueue, node: seq<byte>, name: seq<byte>, c: Triple)
    requires changes.Valid()
    modifies changes
    ensures changes.Valid()
    ensures changes.bcQueue ==
      Without(old(changes.bcQueue), name) + [Entry(0, Broadcast(name, ChangeBytes(node, name, c)))]
  {
    var buffer := [CHANGE_MESSAGE];
    buffer := buffer + Line(node);
    buffer := buffer + Line(name);
    buffer := buffer + TripleBytes(c);
    Joined([CHANGE_MESSAGE], Line(node), Line(name), TripleBytes(c));
    changes.QueueBroadcast(Broadcast(name, buffer));
  }

  lemma {:induction false} Joined(w: seq<byte>, x: seq<byte>, y: seq<byte>, z: seq<byte>)
    ensures w + x + y + z == w + (x + (y + z))
  {}

  // A server's own counters, what it announced of them last, and its queue.
  datatype State = State(own: map<seq<byte>, Triple>, announced: map<seq<byte>, Triple>, q: seq<Entry>)

  // The transmit limit is that of the cluster's size at the call.
  datatype Op =
    | Store(name: seq<byte>, c: Triple)  // an increment, an accepted reset or the end of a set
    | Merge(name: seq<byte>, c: Triple)  // a push/pull leaves an own counter at c and announces nothing
    | Get(overhead: int, limit: int, transmitLimit: int)

  predicate Next(self: seq<byte>, s: State, op: Op, t: State) {
    match op
    case Store(name, c) =>
      t == State(s.own[name := c], s.announced[name := c],
                 Without(s.q, name) + [Entry(0, Broadcast(name, ChangeBytes(self, name, c)))])
    case Merge(name, c) => t == s.(own := s.own[name := c])
    case Get(overhead, limit, transmitLimit) =>
      t == s.(q := t.q) && Refilled(s.q, Greedy(s.q, overhead, limit, transmitLimit, 0), t.q)
  }

  predicate IsRun(self: seq<byte>, ss: seq<State>, ops: seq<Op>) {
    && |ss| == |ops| + 1 && ss[0] == State(map[], map[], [])
    && forall i :: 0 <= i < |ops| ==> Next(self, ss[i], ops[i], ss[i + 1])
  }

  // The message of an entry is that of the counter as it was announced last.
  predicate UpToDate(self: seq<byte>, announced: map<seq<byte>, Triple>, b: Broadcast) {
    b.subject in announced && b.msg == ChangeBytes(self, b.subject, announced[b.subject])
  }

  ghost predicate Current(self: seq<byte>, s: State) {
    && s.announced.Keys <= s.own.Keys
    && DistinctSubjects(s.q) && forall e :: e in s.q ==> UpToDate(self, s.announced, e.b)
  }

  lemma {:induction false} StoreKeepsCurrent(self: seq<byte>, s: State, name: seq<byte>, c: Triple, t: State)
    requires Current(self, s) && Next(self, s, Store(name, c), t)
    ensures Current(self, t)
  {
    NoneLeft(s.q, name);
    WithoutDistinct(s.q, name);
    NewLast(Without(s.q, name), [Entry(0, Broadcast(name, ChangeBytes(self, name, c)))]);
    forall e | e in t.q
      ensures UpToDate(self, t.announced, e.b)
    {
      assert e in Without(s.q, name) ==> UpToDate(self, s.announced, e.b);
    }
  }

  lemma {:induction false} WithoutDistinct(q: seq<Entry>, name: seq<byte>)
    requires DistinctSubjects(q)
    ensures DistinctSubjects(Without(q, name))
    decreases |q|
  {
    if q == [] {
    } else {
      WithoutDistinct(q[1..], name);
      NoneLeft(q[1..], name);
      var r := Without(q[1..], name);
      forall i | 0 <= i < |r|
        ensures r[i].b.subject != q[0].b.subject
      {
        assert r[i] in r;
      }
    }
  }

  lemma {:induction false} GetKeepsCurrent(self: seq<byte>, s: State, op: Op, t: State)
    requires Current(self, s) && op.Get? && Next(self, s, op, t)
    ensures Current(self, t)
  {
    var p := Greedy(s.q, op.overhead, op.limit, op.transmitLimit, 0);
    GreedyPicksOnce(s.q, op.overhead, op.limit, op.transmitLimit, 0);
    GreedyPicksFrom(s.q, op.overhead, op.limit, op.transmitLimit, 0);
    PermutedDistinct(p.kept, t.q);
    forall e | e in t.q
      ensures UpToDate(self, t.announced, e.b)
    {
      assert e in multiset(t.q);
      assert e in p.kept;
      var d :| d in s.q && d.b == e.b;
    }
  }

  lemma {:induction false} RunIsCurrent(self: seq<byte>, ss: seq<State>, ops: seq<Op>, i: nat)
    requires IsRun(self, ss, ops) && i < |ss|
    ensures Current(self, ss[i])
    decreases i
  {
    if i == 0 {
    } else {
      RunIsCurrent(self, ss, ops, i - 1);
      assert Next(self, ss[i - 1], ops[i - 1], ss[i]);
      match ops[i - 1]
      case Store(name, c) => StoreKeepsCurrent(self, ss[i - 1], name, c, ss[i]);
      case Merge(_, _) =>
      case Get(_, _, _) => GetKeepsCurrent(self, ss[i - 1], ops[i - 1], ss[i]);
    }
  }

  // In every state of every run: at most one message for each name, and whoever reads it gets this node, that
  // name and the counter as it is now, exactly when neither name holds a newline and the counter is as it was announced
  // last.
  lemma {:induction false} QueuedMessageIsCurrentIff(self: seq<byte>, ss: seq<State>, ops: seq<Op>, i: nat, e: Entry)
    requires IsRun(self, ss, ops) && i < |ss| && e in ss[i].q
    ensures forall d :: d in ss[i].q && d.b.subject == e.b.subject ==> d == e
    ensures e.b.subject in ss[i].announced && e.b.subject in ss[i].own
    ensures Parse(e.b.msg) == Some(Change(self, e.b.subject, ss[i].own[e.b.subject])) <==>
      NEWLINE !in self && NEWLINE !in e.b.subject && ss[i].own[e.b.subject] == ss[i].announced[e.b.subject]
  {
    RunIsCurrent(self, ss, ops, i);
    ChangeReadsAsIff(self, e.b.subject, ss[i].announced[e.b.subject], ss[i].own[e.b.subject]);
  }

  // Byte by byte.
  lemma SomeNumbers()
    ensures LE(1, 8) == [1, 0, 0, 0, 0, 0, 0, 0] && LE(2, 8) == [2, 0, 0, 0, 0, 0, 0, 0] && LE(256, 4) == [0, 1, 0, 0]
  {}

  lemma SomeBytes()
    ensures TripleBytes(Triple(1, 2, 256)) == [1, 0, 0, 0, 0, 0, 0, 0, 2, 0, 0, 0, 0, 0, 0, 0, 0, 1, 0, 0]
    ensures ChangeBytes([97], [98], Triple(1, 2, 256)) == [1, 97, 10, 98, 10] + TripleBytes(Triple(1, 2, 256))
    ensures ResetBytes([98], Triple(1, 2, 256)) == [0, 98, 10] + TripleBytes(Triple(1, 2, 256))
  {
    SomeNumbers();
  }
}
