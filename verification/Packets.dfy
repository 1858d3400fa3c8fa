// Gossip packets: two queues share one byte budget, and what goes on the wire fits one send buffer, plain or
// encrypted.
module Packets {
  import opened Common
  import opened Bytes
  import BroadcastQueue
  import Compound

  const UDP_SEND_BUF := 1400
  const COMPOUND_HEADER_OVERHEAD := 2
  const COMPOUND_OVERHEAD := 2
  const USER_MSG_OVERHEAD := 1
  const USER_MSG: byte := 8

  const VERSION_SIZE := 1
  const NONCE_SIZE := 12
  const TAG_SIZE := 16
  const BLOCK_SIZE := 16

  // ----- Sharing the budget -----

  // The bytes that messages take in a packet.
  function Size(msgs: seq<seq<byte>>, overhead: int): int
    decreases |msgs|
  {
    if msgs == [] then 0 else |msgs[0]| + overhead + Size(msgs[1..], overhead)
  }

  lemma {:induction false} SizeAppend(p: seq<seq<byte>>, q: seq<seq<byte>>, overhead: int)
    ensures Size(p + q, overhead) == Size(p, overhead) + Size(q, overhead)
    decreases |p|
  {
    if p == [] {
      assert p + q == q;
    } else {
      assert (p + q)[1..] == p[1..] + q;
      SizeAppend(p[1..], q, overhead);
    }
  }

  lemma {:induction false} SizeNotNegative(msgs: seq<seq<byte>>, overhead: int)
    requires overhead >= 0
    ensures Size(msgs, overhead) >= 0
    decreases |msgs|
  {
    if msgs == [] {
    } else {
      SizeNotNegative(msgs[1..], overhead);
    }
  }

  lemma {:induction false} SizeOfMessages(bs: seq<BroadcastQueue.Broadcast>, overhead: int)
    ensures Size(BroadcastQueue.Messages(bs), overhead) == BroadcastQueue.Framed(bs, overhead)
    decreases |bs|
  {
    if bs == [] {
    } else {
      assert BroadcastQueue.Messages(bs)[1..] == BroadcastQueue.Messages(bs[1..]);
      SizeOfMessages(bs[1..], overhead);
    }
  }

  // A user message goes out behind its type byte.
  function Tagged(msgs: seq<seq<byte>>): (ts: seq<seq<byte>>)
    ensures |ts| == |msgs|
  {
    seq(|msgs|, i requires 0 <= i < |msgs| => [USER_MSG] + msgs[i])
  }

  lemma {:induction false} SizeOfTagged(msgs: seq<seq<byte>>, overhead: int)
    ensures Size(Tagged(msgs), overhead) == Size(msgs, overhead + USER_MSG_OVERHEAD)
    decreases |msgs|
  {
    if msgs == [] {
    } else {
      assert Tagged(msgs)[1..] == Tagged(msgs[1..]);
      SizeOfTagged(msgs[1..], overhead);
    }
  }

  method BytesUsed(msgs: seq<seq<byte>>, overhead: int) returns (used: int)
    ensures used == Size(msgs, overhead)
  {
    used := 0;
    for i := 0 to |msgs|
      invariant used + Size(msgs[i..], overhead) == Size(msgs, overhead)
    {
      assert msgs[i..][1..] == msgs[i + 1..];
      used := used + (|msgs[i]| + overhead);
    }
  }

  method FrameUserMessages(msgs: seq<seq<byte>>) returns (framed: seq<seq<byte>>)
    ensures framed == Tagged(msgs)
  {
    framed := [];
    for i := 0 to |msgs|
      invariant framed == Tagged(msgs)[..i]
    {
      framed := framed + [[USER_MSG] + msgs[i]];
    }
  }

  function Picked(q: seq<BroadcastQueue.Entry>, overhead: int, limit: int, max: int): seq<seq<byte>> {
    BroadcastQueue.Messages(BroadcastQueue.Greedy(q, overhead, limit, max, 0).sent)
  }

  lemma {:induction false} PickedFits(q: seq<BroadcastQueue.Entry>, overhead: int, limit: int, max: int)
    ensures var ms := Picked(q, overhead, limit, max); ms == [] || Size(ms, overhead) <= limit
  {
    BroadcastQueue.GreedyFits(q, overhead, limit, max, 0);
    SizeOfMessages(BroadcastQueue.Greedy(q, overhead, limit, max, 0).sent, overhead);
  }

  // What a delegate adds to a packet: nothing where there is no room for one byte.
  function Added(first: seq<seq<byte>>, theirs: seq<BroadcastQueue.Entry>, overhead: int, limit: int, max: int)
    : seq<seq<byte>>
  {
    var avail, more := limit - Size(first, overhead), overhead + USER_MSG_OVERHEAD;
    if avail <= more then [] else Tagged(Picked(theirs, more, avail, max))
  }

  lemma {:induction false} AddedFits(first: seq<seq<byte>>, theirs: seq<BroadcastQueue.Entry>, overhead: int,
                                     limit: int, max: int)
    ensures var second := Added(first, theirs, overhead, limit, max);
      second == [] || Size(first + second, overhead) <= limit
  {
    var avail, more := limit - Size(first, overhead), overhead + USER_MSG_OVERHEAD;
    var second := Picked(theirs, more, avail, max);
    PickedFits(theirs, more, avail, max);
    SizeOfTagged(second, overhead);
    SizeAppend(first, Tagged(second), overhead);
  }

  // What both queues put into one packet: the member list's own messages first, then, in the room left, those
  // of the delegate.
  function Gathered(own: seq<BroadcastQueue.Entry>, delegate: Option<seq<BroadcastQueue.Entry>>,
                    overhead: int, limit: int, ownMax: int, delegateMax: int): seq<seq<byte>>
  {
    var first := Picked(own, overhead, limit, ownMax);
    first + if delegate.None? then [] else Added(first, delegate.value, overhead, limit, delegateMax)
  }

  lemma {:induction false} GatheredFits(own: seq<BroadcastQueue.Entry>, delegate: Option<seq<BroadcastQueue.Entry>>,
                     overhead: int, limit: int, ownMax: int, delegateMax: int)
    ensures var ms := Gathered(own, delegate, overhead, limit, ownMax, delegateMax);
      ms == [] || Size(ms, overhead) <= limit
  {
    var first := Picked(own, overhead, limit, ownMax);
    PickedFits(own, overhead, limit, ownMax);
    assert first + [] == first;
    if delegate.Some? {
      AddedFits(first, delegate.value, overhead, limit, delegateMax);
    }
  }

  // A message of the queue is picked, or there is no room left for it.
  lemma {:induction false} PickedFills(q: seq<BroadcastQueue.Entry>, overhead: int, limit: int, max: int,
                                       e: BroadcastQueue.Entry)
    requires overhead >= 0 && e in q
    ensures var ms := Picked(q, overhead, limit, max);
      e.b.msg in ms || Size(ms, overhead) + overhead + |e.b.msg| > limit
  {
    var p := BroadcastQueue.Greedy(q, overhead, limit, max, 0);
    BroadcastQueue.GreedyFits(q, overhead, limit, max, 0);
    BroadcastQueue.GreedyFills(q, overhead, limit, max, 0, e);
    SizeOfMessages(p.sent, overhead);
    if e.b in p.sent {
      var i :| 0 <= i < |p.sent| && p.sent[i] == e.b;
      assert BroadcastQueue.Messages(p.sent)[i] == e.b.msg;
    }
  }

  // Each queue has its messages in the packet as far as there is room: those of the member list as they are,
  predicate OwnServed(own: seq<BroadcastQueue.Entry>, toSend: seq<seq<byte>>, overhead: int, limit: int) {
    && (forall e :: e in own ==> e.b.msg in toSend || Size(toSend, overhead) + overhead + |e.b.msg| > limit)
    && (own != [] && overhead + |own[|own| - 1].b.msg| <= limit ==>
          toSend != [] && toSend[0] == own[|own| - 1].b.msg)
  }

  // those of the delegate, as far as they are not empty, behind the type byte.
  predicate DelegateServed(theirs: seq<BroadcastQueue.Entry>, toSend: seq<seq<byte>>, overhead: int, limit: int) {
    forall e :: e in theirs && e.b.msg != [] ==>
      [USER_MSG] + e.b.msg in toSend || Size(toSend, overhead) + overhead + USER_MSG_OVERHEAD + |e.b.msg| > limit
  }

  lemma {:induction false} DelegateIsServed(first: seq<seq<byte>>, theirs: seq<BroadcastQueue.Entry>, overhead: int,
                                            limit: int, max: int)
    requires overhead >= 0
    ensures DelegateServed(theirs, first + Added(first, theirs, overhead, limit, max), overhead, limit)
  {
    var avail, more := limit - Size(first, overhead), overhead + USER_MSG_OVERHEAD;
    if avail <= more {
      assert first + [] == first;
    } else {
      var second := Picked(theirs, more, avail, max);
      SizeOfTagged(second, overhead);
      SizeAppend(first, Tagged(second), overhead);
      forall e | e in theirs && e.b.msg != []
        ensures [USER_MSG] + e.b.msg in first + Tagged(second)
          || Size(first + Tagged(second), overhead) + overhead + USER_MSG_OVERHEAD + |e.b.msg| > limit
      {
        PickedFills(theirs, more, avail, max, e);
        if e.b.msg in second {
          var i :| 0 <= i < |second| && second[i] == e.b.msg;
          assert Tagged(second)[i] == [USER_MSG] + e.b.msg;
        }
      }
    }
  }

  // What follows the own messages does not take their room.
  lemma {:induction false} OwnIsServed(own: seq<BroadcastQueue.Entry>, overhead: int, limit: int, max: int,
                                       second: seq<seq<byte>>)
    requires overhead >= 0
    ensures OwnServed(own, Picked(own, overhead, limit, max) + second, overhead, limit)
  {
    var first := Picked(own, overhead, limit, max);
    SizeAppend(first, second, overhead);
    SizeNotNegative(second, overhead);
    forall e | e in own
      ensures e.b.msg in first + second || Size(first + second, overhead) + overhead + |e.b.msg| > limit
    {
      PickedFills(own, overhead, limit, max, e);
    }
    if own != [] {
      BroadcastQueue.NewestFirst(own, overhead, limit, max);
    }
  }

  lemma {:induction false} GatheredServes(own: seq<BroadcastQueue.Entry>, delegate: Option<seq<BroadcastQueue.Entry>>,
                                          overhead: int, limit: int, ownMax: int, delegateMax: int)
    requires overhead >= 0
    ensures var toSend := Gathered(own, delegate, overhead, limit, ownMax, delegateMax);
      && OwnServed(own, toSend, overhead, limit)
      && (delegate.Some? ==> DelegateServed(delegate.value, toSend, overhead, limit))
  {
    var first := Picked(own, overhead, limit, ownMax);
    if delegate.None? {
      OwnIsServed(own, overhead, limit, ownMax, []);
    } else {
      OwnIsServed(own, overhead, limit, ownMax, Added(first, delegate.value, overhead, limit, delegateMax));
      DelegateIsServed(first, delegate.value, overhead, limit, delegateMax);
    }
  }

  method Take(q: BroadcastQueue.TransmitLimitedQueue, overhead: int, limit: int, max: int) returns (ms: seq<seq<byte>>)
    requires q.Valid()
    modifies q
    ensures q.Valid() && ms == Picked(old(q.bcQueue), overhead, limit, max)
    ensures BroadcastQueue.Refilled(old(q.bcQueue),
      BroadcastQueue.Greedy(old(q.bcQueue), overhead, limit, max, 0), q.bcQueue)
  {
    ghost var sent;
    ms, sent := q.GetBroadcasts(overhead, limit, max);
  }

  // In the room that the messages of the member list leave.
  method AddUserMessages(first: seq<seq<byte>>, delegate: BroadcastQueue.TransmitLimitedQueue, overhead: int,
                         limit: int, max: int)
    returns (second: seq<seq<byte>>)
    requires delegate.Valid()
    modifies delegate
    ensures delegate.Valid() && second == Added(first, old(delegate.bcQueue), overhead, limit, max)
  {
    var bytesUsed := BytesUsed(first, overhead);
    var avail := limit - bytesUsed;
    second := [];
    if avail > overhead + USER_MSG_OVERHEAD {
      var userMsgs := Take(delegate, overhead + USER_MSG_OVERHEAD, avail, max);
      second := FrameUserMessages(userMsgs);
    }
  }

  method GatherBroadcasts(own: BroadcastQueue.TransmitLimitedQueue, delegate: BroadcastQueue.TransmitLimitedQueue?,
                          overhead: int, limit: int, ownMax: int, delegateMax: int)
    returns (toSend: seq<seq<byte>>)
    requires own.Valid() && (delegate != null ==> delegate != own && delegate.Valid())
    modifies own, delegate
    ensures own.Valid() && (delegate != null ==> delegate.Valid())
    ensures toSend == Gathered(old(own.bcQueue), if delegate == null then None else Some(old(delegate.bcQueue)),
                               overhead, limit, ownMax, delegateMax)
    ensures toSend == [] || Size(toSend, overhead) <= limit
    ensures overhead >= 0 ==>
      && OwnServed(old(own.bcQueue), toSend, overhead, limit)
      && (delegate != null ==> DelegateServed(old(delegate.bcQueue), toSend, overhead, limit))
    ensures BroadcastQueue.Refilled(old(own.bcQueue),
      BroadcastQueue.Greedy(old(own.bcQueue), overhead, limit, ownMax, 0), own.bcQueue)
  {
    ghost var mine := own.bcQueue;
    ghost var theirs := if delegate == null then None else Some(delegate.bcQueue);
    toSend := Take(own, overhead, limit, ownMax);
    if delegate != null {
      var userMsgs := AddUserMessages(toSend, delegate, overhead, limit, delegateMax);
      toSend := toSend + userMsgs;
    }
    assert toSend + [] == toSend;
    assert toSend == Gathered(mine, theirs, overhead, limit, ownMax, delegateMax);
    GatheredFits(mine, theirs, overhead, limit, ownMax, delegateMax);
    if overhead >= 0 {
      GatheredServes(mine, theirs, overhead, limit, ownMax, delegateMax);
    }
  }

  // ----- Padding and encryption, lengths only -----

  datatype Version = V0 | V1

  function EncryptOverhead(v: Version): nat {
    match v
    case V0 => 45
    case V1 => 29
  }

  function EncryptedLength(v: Version, n: nat): nat {
    match v
    case V1 => VERSION_SIZE + NONCE_SIZE + n + TAG_SIZE
    case V0 => VERSION_SIZE + NONCE_SIZE + n + (BLOCK_SIZE - n % BLOCK_SIZE) + TAG_SIZE
  }

  // The padding of PKCS#7 (section 6.3 of RFC 5652), leaving `ignore` bytes in front out of account.
  function Padded(buf: seq<byte>, ignore: nat, blockSize: nat): seq<byte>
    requires ignore <= |buf| && 0 < blockSize < 256
  {
    var more := blockSize - (|buf| - ignore) % blockSize;
    buf + seq(more, _ => more)
  }

  method Pkcs7Encode(buf: seq<byte>, ignore: nat, blockSize: nat) returns (r: seq<byte>)
    requires ignore <= |buf| && 0 < blockSize < 256
    ensures r == Padded(buf, ignore, blockSize)
  {
    var n := |buf| - ignore;
    var more := blockSize - n % blockSize;
    r := buf;
    for i := 0 to more
      invariant r == buf + seq(i, _ => more)
    {
      r := r + [more];
    }
  }

  // An empty buffer, and padding longer than the buffer, stop the program.
  function Unpadded(buf: seq<byte>): Option<seq<byte>> {
    if buf == [] || buf[|buf| - 1] > |buf| then None else Some(buf[..|buf| - buf[|buf| - 1]])
  }

  // Unpadding undoes padding, for every message, and padding fills the last block.
  lemma PaddingRoundTrip(prefix: seq<byte>, msg: seq<byte>, blockSize: nat)
    requires 0 < blockSize < 256
    ensures var r := Padded(prefix + msg, |prefix|, blockSize);
      && Unpadded(r[|prefix|..]) == Some(msg)
      && (|r| - |prefix|) % blockSize == 0
      && |msg| < |r| - |prefix| <= |msg| + blockSize
  {
    var r := Padded(prefix + msg, |prefix|, blockSize);
    var more := blockSize - |msg| % blockSize;
    var pad: seq<byte> := seq(more, _ => more);
    assert r[|prefix|..] == msg + pad;
    assert (msg + pad)[|msg + pad| - 1] == more;
    assert (msg + pad)[..|msg|] == msg;
    assert |r| - |prefix| == |msg| + (blockSize - |msg| % blockSize);
    BlockFilled(|msg|, blockSize);
  }

  lemma BlockFilled(n: nat, b: nat)
    requires b > 0
    ensures (n + (b - n % b)) % b == 0
  {
    var q := n / b;
    assert n == q * b + n % b;
    assert q * b + b == (q + 1) * b;
    ModUnique(n + (b - n % b), b, q + 1, 0);
  }

  // What encryptPayload appends: the version, the nonce, the message (padded in version 0) and the tag.
  function Sealed(v: Version, msg: seq<byte>): nat {
    var plain := if v == V0 then |Padded(msg, 0, BLOCK_SIZE)| else |msg|;
    VERSION_SIZE + NONCE_SIZE + plain + TAG_SIZE
  }

  // The length reserved for a sealed message is its length, and at most the stated overhead more than plain.
  lemma SealedLength(v: Version, msg: seq<byte>)
    ensures Sealed(v, msg) == EncryptedLength(v, |msg|) <= |msg| + EncryptOverhead(v)
  {}

  // ----- The packet -----

  function BytesAvailable(encryption: Option<Version>): int {
    UDP_SEND_BUF - COMPOUND_HEADER_OVERHEAD - match encryption case None => 0 case Some(v) => EncryptOverhead(v)
  }

  // What rawSendMsgUDP hands on to encryption.
  function Shorter(plain: seq<byte>, compressed: Option<seq<byte>>): seq<byte> {
    if compressed.Some? && |compressed.value| < |plain| then compressed.value else plain
  }

  // What rawSendMsgUDP writes: compression is used only when it is shorter.
  function WireLength(plain: seq<byte>, compressed: Option<seq<byte>>, encryption: Option<Version>): nat {
    var msg := Shorter(plain, compressed);
    match encryption case None => |msg| case Some(v) => Sealed(v, msg)
  }

  lemma {:induction false} FramedSize(msgs: seq<seq<byte>>)
    ensures |Compound.Framed(msgs)| + 1 == COMPOUND_HEADER_OVERHEAD + Size(msgs, COMPOUND_OVERHEAD)
    decreases |msgs|
  {
    if msgs == [] {
    } else {
      var init, last := msgs[..|msgs| - 1], msgs[|msgs| - 1];
      FramedSize(init);
      assert msgs == init + [last];
      SizeAppend(init, [last], COMPOUND_OVERHEAD);
      assert Size([last], COMPOUND_OVERHEAD) == |last| + COMPOUND_OVERHEAD + Size([last][1..], COMPOUND_OVERHEAD);
    }
  }

  // Messages within the budget make a packet within the send buffer, compressed or not, encrypted or not.
  lemma {:induction false} GossipFits(msgs: seq<seq<byte>>, compressed: Option<seq<byte>>, encryption: Option<Version>)
    requires Size(msgs, COMPOUND_OVERHEAD) <= BytesAvailable(encryption)
    ensures WireLength([Compound.COMPOUND_MSG] + Compound.Framed(msgs), compressed, encryption) <= UDP_SEND_BUF
  {
    FramedSize(msgs);
    var plain := [Compound.COMPOUND_MSG] + Compound.Framed(msgs);
    if encryption.Some? {
      SealedLength(encryption.value, Shorter(plain, compressed));
    }
  }

  // One gossip round: gather, frame, send.
  method Gossip(own: BroadcastQueue.TransmitLimitedQueue, delegate: BroadcastQueue.TransmitLimitedQueue?,
                ownMax: int, delegateMax: int, encryption: Option<Version>, compressed: Option<seq<byte>>)
    returns (msgs: seq<seq<byte>>, packet: seq<byte>)
    requires own.Valid() && (delegate != null ==> delegate != own && delegate.Valid())
    modifies own, delegate
    ensures own.Valid() && (delegate != null ==> delegate.Valid())
    ensures msgs != [] ==> packet == [Compound.COMPOUND_MSG] + Compound.Framed(msgs)
    ensures OwnServed(old(own.bcQueue), msgs, COMPOUND_OVERHEAD, BytesAvailable(encryption))
    ensures delegate != null ==>
      DelegateServed(old(delegate.bcQueue), msgs, COMPOUND_OVERHEAD, BytesAvailable(encryption))
    ensures msgs != [] ==> WireLength(packet, compressed, encryption) <= UDP_SEND_BUF
    ensures msgs != [] && (forall m :: m in msgs ==> |m| >= 9) ==>
      |msgs| <= 127 && Compound.Decode(packet[1..]) == Compound.Parts(0, msgs)
  {
    packet := [];
    var bytesAvail := UDP_SEND_BUF - COMPOUND_HEADER_OVERHEAD;
    if encryption.Some? {
      bytesAvail := bytesAvail - EncryptOverhead(encryption.value);
    }
    msgs := GatherBroadcasts(own, delegate, COMPOUND_OVERHEAD, bytesAvail, ownMax, delegateMax);
    if |msgs| == 0 {
      return;
    }
    packet := Compound.MakeCompoundMessage(msgs);
    GossipFits(msgs, compressed, encryption);
    if forall m :: m in msgs ==> |m| >= 9 {
      PartsBound(msgs);
      assert packet[1..] == Compound.Framed(msgs);
      forall m | m in msgs
        ensures |m| <= 65535
      {
        OneOf(msgs, m);
      }
      Compound.RoundTripIff(msgs);
    }
  }

  lemma {:induction false} OneOf(msgs: seq<seq<byte>>, m: seq<byte>)
    requires m in msgs
    ensures |m| <= Size(msgs, COMPOUND_OVERHEAD)
    decreases |msgs|
  {
    SizeNotNegative(msgs[1..], COMPOUND_OVERHEAD);
    if m != msgs[0] {
      OneOf(msgs[1..], m);
    }
  }

  // Messages of at least nine bytes are at most 127 to a packet, so the doubled count fits its byte.
  lemma {:induction false} PartsBound(msgs: seq<seq<byte>>)
    requires forall m :: m in msgs ==> |m| >= 9
    requires Size(msgs, COMPOUND_OVERHEAD) <= BytesAvailable(None)
    ensures |msgs| <= 127
  {
    ElevenEach(msgs);
  }

  lemma {:induction false} ElevenEach(msgs: seq<seq<byte>>)
    requires forall m :: m in msgs ==> |m| >= 9
    ensures Size(msgs, COMPOUND_OVERHEAD) >= 11 * |msgs|
    decreases |msgs|
  {
    if msgs == [] {
    } else {
      assert msgs[0] in msgs;
      ElevenEach(msgs[1..]);
    }
  }

  // A direct message takes other messages along only in the room it leaves, but its own entry in the length
  // table is not reserved: the packet can be two bytes over, whether or not it is compressed or encrypted.
  // Uncompressed, it stays within the buffer exactly when that entry has found room, or when the padding of
  // version 0 was reserved in full and not all of it was needed, which is always so.
  lemma {:induction false} PiggybackOverrun(msg: seq<byte>, extra: seq<seq<byte>>, compressed: Option<seq<byte>>,
                                            encryption: Option<Version>)
    requires extra != [] && Size(extra, COMPOUND_OVERHEAD) <= BytesAvailable(encryption) - |msg|
    ensures var plain := [Compound.COMPOUND_MSG] + Compound.Framed([msg] + extra);
      var n := WireLength(plain, compressed, encryption);
      && n <= UDP_SEND_BUF + 2
      && (Shorter(plain, compressed) == plain ==>
        (n <= UDP_SEND_BUF <==>
          (encryption == Some(V0)
          || Size(extra, COMPOUND_OVERHEAD) <= BytesAvailable(encryption) - |msg| - COMPOUND_OVERHEAD)))
  {
    FramedSize([msg] + extra);
    assert ([msg] + extra)[1..] == extra;
    var plain := [Compound.COMPOUND_MSG] + Compound.Framed([msg] + extra);
    if encryption.Some? {
      SealedLength(encryption.value, Shorter(plain, compressed));
    }
  }

  // So a message of 10 bytes with one of 1386 beside it, which fills the room left to the byte, is sent as 1402.
  lemma {:induction false} PiggybackOverruns(msg: seq<byte>, m: seq<byte>)
    requires |msg| == 10 && |m| == 1386
    ensures Size([m], COMPOUND_OVERHEAD) == BytesAvailable(None) - |msg|
    ensures WireLength([Compound.COMPOUND_MSG] + Compound.Framed([msg, m]), None, None) == 1402 == UDP_SEND_BUF + 2
  {
    FramedSize([msg, m]);
    assert [msg, m][1..] == [m];
    assert [m][1..] == [];
  }
}
