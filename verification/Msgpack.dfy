// Integers and container lengths in the MessagePack format.
module Msgpack {
  import opened Bytes
  import opened ByteStreams
  import opened Common
  import opened Shifts
  import opened TwosComplement

  const MP_NIL: byte := 0xc0
  const MP_UINT8: byte := 0xcc
  const MP_UINT16: byte := 0xcd
  const MP_UINT32: byte := 0xce
  const MP_UINT64: byte := 0xcf
  const MP_INT8: byte := 0xd0
  const MP_INT16: byte := 0xd1
  const MP_INT32: byte := 0xd2
  const MP_INT64: byte := 0xd3

  // ----- Integers, as they are written -----

  function UintBytes(u: nat): seq<byte>
    requires IsUint64(u)
  {
    if u <= 0x7f then [u]
    else if u <= 0xff then [MP_UINT8, u]
    else if u <= 0xffff then [MP_UINT16] + BE(u, 2)
    else if u <= 0xffff_ffff then [MP_UINT32] + BE(u, 4)
    else [MP_UINT64] + BE(u, 8)
  }

  function IntBytes(i: int): seq<byte>
    requires IsInt64(i)
  {
    if i >= 0 then UintBytes(i)
    else if i >= -32 then [i % 256]
    else
      SmallPowers();
      if i >= -0x80 then [MP_INT8] + SignedBE(i, 1)
      else if i >= -0x8000 then [MP_INT16] + SignedBE(i, 2)
      else if i >= -0x8000_0000 then [MP_INT32] + SignedBE(i, 4)
      else [MP_INT64] + SignedBE(i, 8)
  }

  // ----- Integers, as they are read -----

  // The value behind a descriptor byte, before any check of its size.
  function RawInt(bd: byte, bs: seq<byte>): Result<(int, seq<byte>)> {
    if MP_UINT8 <= bd <= MP_UINT32 then
      var r :- TakeNum(bs, Width(bd - MP_UINT8)); Ok((r.0, r.1))
    else if bd == MP_UINT64 then
      var r :- TakeNum(bs, 8); Ok((Wrapped(r.0, 8), r.1))
    else if MP_INT8 <= bd <= MP_INT64 then
      var r :- TakeNum(bs, Width(bd - MP_INT8)); Ok((Wrapped(r.0, Width(bd - MP_INT8)), r.1))
    else if bd <= 0x7f then Ok((bd, bs))
    else if bd >= 0xe0 then Ok((bd - 256, bs))
    else Err(BadDescriptor)
  }

  function RawUint(bd: byte, bs: seq<byte>): Result<(nat, seq<byte>)> {
    if MP_UINT8 <= bd <= MP_UINT64 then TakeNum(bs, Width(bd - MP_UINT8))
    else if MP_INT8 <= bd <= MP_INT64 then
      var r :- TakeNum(bs, Width(bd - MP_INT8));
      var i := Wrapped(r.0, Width(bd - MP_INT8));
      if i >= 0 then Ok((i, r.1)) else Err(Negative)
    else if bd <= 0x7f then Ok((bd, bs))
    else if bd >= 0xe0 then Err(Negative)
    else Err(BadDescriptor)
  }

  function ReadInt(bd: byte, bs: seq<byte>, bits: nat): Result<(int, seq<byte>)> {
    var r :- RawInt(bd, bs);
    if bits > 0 && r.0 != TruncInt(r.0, bits) then Err(Overflow) else Ok(r)
  }

  function ReadUint(bd: byte, bs: seq<byte>, bits: nat): Result<(nat, seq<byte>)> {
    var r :- RawUint(bd, bs);
    if bits > 0 && r.0 != TruncUint(r.0, bits) then Err(Overflow) else Ok(r)
  }

  // ----- Writing and reading one integer -----

  lemma {:induction false} UintBack(u: nat, rest: seq<byte>)
    requires IsUint64(u)
    ensures var t := UintBytes(u) + rest; |t| > 0 && RawUint(t[0], t[1..]) == Ok((u, rest))
    // read as a signed number, the upper half comes out negative
    ensures var t := UintBytes(u) + rest; RawInt(t[0], t[1..]) == Ok((Wrapped(u, 8), rest))
  {
    SmallPowers();
    if u <= 0x7f {
      Behind(u, [], rest);
      assert [u] + [] == [u] && [] + rest == rest;
    } else if u <= 0xff {
      SpelledOut(MP_UINT8, u, 1, rest);
      assert [MP_UINT8] + BE(u, 1) == [MP_UINT8, u];
    } else if u <= 0xffff {
      SpelledOut(MP_UINT16, u, 2, rest);
    } else if u <= 0xffff_ffff {
      SpelledOut(MP_UINT32, u, 4, rest);
    } else {
      SpelledOut(MP_UINT64, u, 8, rest);
    }
  }

  lemma {:induction false} SpelledOut(bd: byte, v: nat, w: nat, rest: seq<byte>)
    requires v < Pow256(w)
    ensures var t := [bd] + BE(v, w) + rest; t[0] == bd && TakeNum(t[1..], w) == Ok((v, rest))
  {
    Behind(bd, BE(v, w), rest);
    TakeNumBack(v, w, rest);
  }

  lemma {:induction false} IntBack(i: int, rest: seq<byte>)
    requires IsInt64(i)
    ensures var t := IntBytes(i) + rest; |t| > 0 && RawInt(t[0], t[1..]) == Ok((i, rest))
    ensures var t := IntBytes(i) + rest; RawUint(t[0], t[1..]) == if i >= 0 then Ok((i, rest)) else Err(Negative)
  {
    if i >= 0 {
      UintBack(i, rest);
    } else if i >= -32 {
      Behind(i % 256, [], rest);
      assert [i % 256] + [] == [i % 256] && [] + rest == rest;
    } else {
      SmallPowers();
      var k := if i >= -0x80 then 0 else if i >= -0x8000 then 1 else if i >= -0x8000_0000 then 2 else 3;
      NegativeBack(i, k, rest);
    }
  }

  // The two's complement of one, two, four or eight bytes.
  lemma {:induction false} NegativeBack(i: int, k: nat, rest: seq<byte>)
    requires k < 4 && i < 0 && InBytes(i, Width(k))
    ensures var t := [MP_INT8 + k] + SignedBE(i, Width(k)) + rest;
      RawInt(t[0], t[1..]) == Ok((i, rest)) && RawUint(t[0], t[1..]) == Err(Negative)
  {
    SpelledOut(MP_INT8 + k, i + Pow256(Width(k)), Width(k), rest);
  }

  // An integer of any 64 bits comes back when it fits the bits asked for, and is an overflow when it does not.
  lemma {:induction false} IntRoundTripIff(i: int, bits: nat, rest: seq<byte>)
    requires IsInt64(i) && bits <= 64
    ensures var t := IntBytes(i) + rest;
      |t| > 0 && ReadInt(t[0], t[1..], bits) ==
      if bits == 0 || 0 <= 2 * i + Pow2(bits) < 2 * Pow2(bits) then Ok((i, rest)) else Err(Overflow)
  {
    IntBack(i, rest);
    if bits > 0 {
      IntTestIff(i, bits);
    }
  }

  lemma {:induction false} UintRoundTripIff(u: nat, bits: nat, rest: seq<byte>)
    requires IsUint64(u) && bits <= 64
    ensures var t := UintBytes(u) + rest;
      |t| > 0 && ReadUint(t[0], t[1..], bits) ==
      if bits == 0 || u < Pow2(bits) then Ok((u, rest)) else Err(Overflow)
  {
    UintBack(u, rest);
    if bits > 0 {
      UintTestIff(u, bits);
    }
  }

  // Byte by byte.
  lemma SomeBytes()
    ensures UintBytes(300) == [0xcd, 1, 44] && IntBytes(-200) == [0xd1, 0xff, 0x38] && IntBytes(-1) == [0xff]
    ensures LenBytes(STR, 31, true) == [0xbf] && LenBytes(STR, 40, true) == [0xd9, 40]
    ensures LenBytes(STR, 40, false) == [0xda, 0, 40] && LenBytes(LIST, 300, true) == [0xdc, 1, 44]
  {}

  // An integer need not be spelled as it is written here: any width that holds it is read, by both readings.
  lemma {:induction false} AnyWidthUint(u: nat, k: nat, rest: seq<byte>)
    requires k < 4 && u < Pow256(Width(k))
    ensures var t := [MP_UINT8 + k] + BE(u, Width(k)) + rest;
      RawUint(t[0], t[1..]) == Ok((u, rest))
      && RawInt(t[0], t[1..]) == Ok((if k == 3 then Wrapped(u, 8) else u, rest))
  {
    SpelledOut(MP_UINT8 + k, u, Width(k), rest);
  }

  lemma {:induction false} AnyWidthInt(i: int, k: nat, rest: seq<byte>)
    requires k < 4 && InBytes(i, Width(k))
    ensures var t := [MP_INT8 + k] + SignedBE(i, Width(k)) + rest;
      RawInt(t[0], t[1..]) == Ok((i, rest))
      && RawUint(t[0], t[1..]) == if i >= 0 then Ok((i, rest)) else Err(Negative)
  {
    if i < 0 {
      NegativeBack(i, k, rest);
    } else {
      SpelledOut(MP_INT8 + k, i, Width(k), rest);
    }
  }

  // How many bytes belong to the descriptor of an integer.
  function BodyLength(bd: byte): Option<nat> {
    if bd <= 0x7f || bd >= 0xe0 then Some(0)
    else if MP_UINT8 <= bd <= MP_INT64 then Some(Width((bd - MP_UINT8) % 4))
    else None
  }

  // An integer is read exactly behind one of these descriptors, when its bytes are there, and no more are consumed.
  lemma {:induction false} IntIsReadIff(bd: byte, bs: seq<byte>)
    ensures RawInt(bd, bs).Ok? <==> BodyLength(bd).Some? && BodyLength(bd).value <= |bs|
    ensures RawInt(bd, bs).Ok? ==> RawInt(bd, bs).value.1 == bs[BodyLength(bd).value..]
    ensures BodyLength(bd).None? ==> RawInt(bd, bs) == Err(BadDescriptor) && RawUint(bd, bs) == Err(BadDescriptor)
    ensures RawUint(bd, bs).Ok? ==> RawInt(bd, bs).Ok? && RawUint(bd, bs).value.1 == RawInt(bd, bs).value.1
  {
    if BodyLength(bd).Some? && BodyLength(bd).value > 0 {
      TakesIff(bs, BodyLength(bd).value);
    }
  }

  // What can be read from a descriptor and n bytes.
  predicate Reach(i: int, n: nat) {
    if n == 0 then -32 <= i <= 0x7f
    else if n == 1 then -0x80 <= i <= 0xff
    else if n <= 3 then -0x8000 <= i <= 0xffff
    else if n <= 7 then -0x8000_0000 <= i <= 0xffff_ffff
    else true
  }

  lemma {:induction false} ReadWithinReach(bd: byte, bs: seq<byte>)
    requires RawInt(bd, bs).Ok? && RawInt(bd, bs).value.1 == []
    ensures Reach(RawInt(bd, bs).value.0, |bs|)
  {
    SmallPowers();
    NumBound(bs);
    assert bs[..|bs|] == bs;
  }

  lemma {:induction false} WrittenWithinReach(i: int, n: nat)
    requires IsInt64(i) && Reach(i, n)
    ensures |IntBytes(i)| <= 1 + n
  {}

  // No bytes that are read as the same number are fewer.
  lemma {:induction false} IntBytesShortest(i: int, bd: byte, bs: seq<byte>)
    requires IsInt64(i) && RawInt(bd, bs) == Ok((i, []))
    ensures |IntBytes(i)| <= 1 + |bs|
  {
    ReadWithinReach(bd, bs);
    WrittenWithinReach(i, |bs|);
  }

  lemma {:induction false} UintBytesShortest(u: nat, bd: byte, bs: seq<byte>)
    requires IsUint64(u) && RawUint(bd, bs) == Ok((u, []))
    ensures |UintBytes(u)| <= 1 + |bs|
  {
    SmallPowers();
    NumBound(bs);
    assert bs[..|bs|] == bs;
  }

  // ----- Container lengths -----

  datatype ContainerType = ContainerType(fixCutoff: nat, bFixMin: byte, b8: byte, b16: byte, b32: byte,
                                         hasFixMin: bool, has8: bool, has8Always: bool)

  const STR := ContainerType(32, 0xa0, 0xd9, 0xda, 0xdb, true, true, false)
  const BIN := ContainerType(0, 0, 0xc4, 0xc5, 0xc6, false, true, true)
  const LIST := ContainerType(16, 0x90, 0, 0xdc, 0xdd, true, false, false)
  const MAP := ContainerType(16, 0x80, 0, 0xde, 0xdf, true, false, false)

  predicate IsContainer(ct: ContainerType) { ct == STR || ct == BIN || ct == LIST || ct == MAP }

  function LenBytes(ct: ContainerType, l: nat, writeExt: bool): (s: seq<byte>)
    requires IsContainer(ct)
  {
    if ct.hasFixMin && l < ct.fixCutoff then [ct.bFixMin + l]
    else if ct.has8 && l < 256 && (ct.has8Always || writeExt) then [ct.b8, l]
    else if l < 65536 then [ct.b16] + BE(l, 2)
    else [ct.b32] + BE(l, 4)
  }

  // Every bit of the mask is set.
  predicate HasBits(b: byte, mask: byte) {
    && (mask / 128 == 1 ==> b / 128 == 1)
    && (mask / 64 % 2 == 1 ==> b / 64 % 2 == 1)
    && (mask / 32 % 2 == 1 ==> b / 32 % 2 == 1)
    && (mask / 16 % 2 == 1 ==> b / 16 % 2 == 1)
    && (mask / 8 % 2 == 1 ==> b / 8 % 2 == 1)
    && (mask / 4 % 2 == 1 ==> b / 4 % 2 == 1)
    && (mask / 2 % 2 == 1 ==> b / 2 % 2 == 1)
    && (mask % 2 == 1 ==> b % 2 == 1)
  }

  // -1 stands for nil. When the mask is contained in the descriptor, taking it away is the exclusive or.
  function ReadLen(ct: ContainerType, bd: byte, bs: seq<byte>): Result<(int, seq<byte>)> {
    if bd == MP_NIL then Ok((-1, bs))
    else if bd == ct.b8 then var r :- TakeNum(bs, 1); Ok((r.0, r.1))
    else if bd == ct.b16 then var r :- TakeNum(bs, 2); Ok((r.0, r.1))
    else if bd == ct.b32 then var r :- TakeNum(bs, 4); Ok((r.0, r.1))
    else if HasBits(bd, ct.bFixMin) then Ok((bd - ct.bFixMin, bs))
    else Err(BadDescriptor)
  }

  lemma {:induction false} LongLenBack(ct: ContainerType, l: nat, rest: seq<byte>)
    requires IsContainer(ct)
    ensures var t := [ct.b32] + BE(l, 4) + rest;
      |t| > 0 && ReadLen(ct, t[0], t[1..]) == Ok((l % 0x1_0000_0000, rest))
  {
    SmallPowers();
    Behind(ct.b32, BE(l, 4), rest);
    TakeBack(BE(l, 4), rest);
    BELow(l, 4);
  }

  // A length comes back modulo 2^32: the length itself exactly when it is below.
  lemma {:induction false} LenRoundTrip(ct: ContainerType, l: nat, writeExt: bool, rest: seq<byte>)
    requires IsContainer(ct)
    ensures var t := LenBytes(ct, l, writeExt) + rest;
      |t| > 0 && ReadLen(ct, t[0], t[1..]) == Ok((l % 0x1_0000_0000, rest))
  {
    SmallPowers();
    if ct.hasFixMin && l < ct.fixCutoff {
      Behind(ct.bFixMin + l, [], rest);
      assert [ct.bFixMin + l] + [] == [ct.bFixMin + l] && [] + rest == rest;
    } else if ct.has8 && l < 256 && (ct.has8Always || writeExt) {
      SpelledOut(ct.b8, l, 1, rest);
      assert [ct.b8] + BE(l, 1) == [ct.b8, l];
    } else if l < 65536 {
      SpelledOut(ct.b16, l, 2, rest);
    } else {
      LongLenBack(ct, l, rest);
    }
  }

  // No header of the kind is shorter: none with a length in the descriptor, none of 8 bits unless those are held back
  // for old readers, none of 16 bits.
  lemma {:induction false} LenIsShortest(ct: ContainerType, l: nat, writeExt: bool, bd: byte, bs: seq<byte>)
    requires IsContainer(ct) && ReadLen(ct, bd, bs) == Ok((l, []))
    requires bd !in {ct.b8, ct.b16, ct.b32} ==> ct.hasFixMin && l < ct.fixCutoff
    requires bd == ct.b8 ==> ct.has8 && (ct.has8Always || writeExt)
    ensures |LenBytes(ct, l, writeExt)| <= 1 + |bs|
  {
    SmallPowers();
    NumBound(bs);
    assert bs[..|bs|] == bs;
  }

  // nil is read as a length of -1. Of the descriptors that hold a short length, those of other kinds are taken too when
  // they have the bits: the length that comes out is then not below the cutoff.
  lemma {:induction false} FixLengthIff(ct: ContainerType, bd: byte, bs: seq<byte>)
    requires ct in {STR, LIST, MAP}
    ensures ReadLen(ct, MP_NIL, bs) == Ok((-1, bs))
    ensures bd !in {MP_NIL, ct.b8, ct.b16, ct.b32} && ReadLen(ct, bd, bs).Ok? ==>
      ReadLen(ct, bd, bs) == Ok((bd - ct.bFixMin, bs))
      && (bd - ct.bFixMin < ct.fixCutoff <==> ct.bFixMin <= bd < ct.bFixMin + ct.fixCutoff)
    ensures ct.bFixMin <= bd < ct.bFixMin + ct.fixCutoff && bd != ct.b8 ==> ReadLen(ct, bd, bs).Ok?
  {}

  // A byte string has no short lengths, and so takes every descriptor but the four as one.
  lemma AnyDescriptorIsALength(bd: byte, bs: seq<byte>)
    requires bd !in {MP_NIL, BIN.b8, BIN.b16, BIN.b32}
    ensures ReadLen(BIN, bd, bs) == Ok((bd, bs))
  {}

  // ----- Runs -----

  datatype Item = Int(i: int) | Uint(u: nat) | Length(ct: ContainerType, l: nat)

  predicate Writable(x: Item) {
    match x
    case Int(i) => IsInt64(i)
    case Uint(u) => IsUint64(u)
    case Length(ct, l) => IsContainer(ct) && l < 0x1_0000_0000
  }

  function ItemBytes(x: Item, writeExt: bool): seq<byte>
    requires Writable(x)
  {
    match x
    case Int(i) => IntBytes(i)
    case Uint(u) => UintBytes(u)
    case Length(ct, l) => LenBytes(ct, l, writeExt)
  }

  // Reads what is expected to be of the kind of x.
  function ReadItem(x: Item, bs: seq<byte>): Result<(Item, seq<byte>)> {
    if bs == [] then Err(EndOfData)
    else
      match x
      case Int(_) => var r :- ReadInt(bs[0], bs[1..], 0); Ok((Int(r.0), r.1))
      case Uint(_) => var r :- ReadUint(bs[0], bs[1..], 0); Ok((Uint(r.0), r.1))
      case Length(ct, _) =>
        var r :- ReadLen(ct, bs[0], bs[1..]);
        if r.0 < 0 then Err(BadDescriptor) else Ok((Length(ct, r.0), r.1))
  }

  predicate AllWritable(xs: seq<Item>) { forall x :: x in xs ==> Writable(x) }

  function RunBytes(xs: seq<Item>, writeExt: bool): seq<byte>
    requires AllWritable(xs)
    decreases |xs|
  {
    if xs == [] then [] else assert xs[0] in xs; ItemBytes(xs[0], writeExt) + RunBytes(xs[1..], writeExt)
  }

  function ReadRun(kinds: seq<Item>, bs: seq<byte>): Result<(seq<Item>, seq<byte>)>
    decreases |kinds|
  {
    if kinds == [] then Ok(([], bs))
    else
      var x :- ReadItem(kinds[0], bs);
      var r :- ReadRun(kinds[1..], x.1);
      Ok(([x.0] + r.0, r.1))
  }

  predicate SameKinds(xs: seq<Item>, kinds: seq<Item>) {
    |xs| == |kinds| && forall k :: 0 <= k < |xs| ==> SameKind(xs[k], kinds[k])
  }

  predicate SameKind(x: Item, y: Item) {
    match x
    case Int(_) => y.Int?
    case Uint(_) => y.Uint?
    case Length(ct, _) => y.Length? && y.ct == ct
  }

  lemma {:induction false} ItemRoundTrip(x: Item, kind: Item, writeExt: bool, rest: seq<byte>)
    requires Writable(x) && SameKind(x, kind)
    ensures ReadItem(kind, ItemBytes(x, writeExt) + rest) == Ok((x, rest))
  {
    match x
    case Int(i) => IntBack(i, rest);
    case Uint(u) => UintBack(u, rest);
    case Length(ct, l) => LenRoundTrip(ct, l, writeExt, rest);
  }

  // Any run of integers and lengths is read back, to the byte.
  lemma {:induction false} RunRoundTrip(xs: seq<Item>, kinds: seq<Item>, writeExt: bool, rest: seq<byte>)
    requires AllWritable(xs) && SameKinds(xs, kinds)
    ensures ReadRun(kinds, RunBytes(xs, writeExt) + rest) == Ok((xs, rest))
    decreases |xs|
  {
    if xs == [] {
      assert [] + rest == rest;
    } else {
      var x, more := xs[0], RunBytes(xs[1..], writeExt) + rest;
      assert x in xs;
      Reassociate(ItemBytes(x, writeExt), RunBytes(xs[1..], writeExt), rest);
      ItemRoundTrip(x, kinds[0], writeExt, more);
      RunRoundTrip(xs[1..], kinds[1..], writeExt, rest);
      ReadFirst(kinds, RunBytes(xs, writeExt) + rest, x, more, xs[1..], rest);
      assert xs == [x] + xs[1..];
    }
  }

  lemma {:induction false} ReadFirst(kinds: seq<Item>, bs: seq<byte>, x: Item, more: seq<byte>, xs: seq<Item>,
                                     rest: seq<byte>)
    requires kinds != [] && ReadItem(kinds[0], bs) == Ok((x, more)) && ReadRun(kinds[1..], more) == Ok((xs, rest))
    ensures ReadRun(kinds, bs) == Ok(([x] + xs, rest))
  {}

  // ----- The drivers -----

  class MsgpackEncDriver {
    const w: BytesEncWriter
    const writeExt: bool

    constructor (w: BytesEncWriter, writeExt: bool)
      ensures this.w == w && this.writeExt == writeExt
    {
      this.w, this.writeExt := w, writeExt;
    }

    // A descriptor byte and the low bytes of a number.
    method Spell(bd: byte, v: nat, width: nat)
      requires w.Valid()
      modifies w, w.b
      ensures w.Valid() && (w.b == old(w.b) || fresh(w.b))
      ensures w.Contents() == old(w.Contents()) + ([bd] + BE(v, width))
    {
      w.Writen1(bd);
      w.WriteUint(v, width);
      assert w.Contents() == old(w.Contents()) + [bd] + BE(v, width);
    }

    method EncodeUint(u: nat)
      requires w.Valid() && IsUint64(u)
      modifies w, w.b
      ensures w.Valid() && (w.b == old(w.b) || fresh(w.b)) && w.Contents() == old(w.Contents()) + UintBytes(u)
    {
      if u <= 0x7f {
        w.Writen1(u);
      } else if u <= 0xff {
        w.Writen2(MP_UINT8, u);
      } else if u <= 0xffff {
        Spell(MP_UINT16, u, 2);
      } else if u <= 0xffff_ffff {
        Spell(MP_UINT32, u, 4);
      } else {
        Spell(MP_UINT64, u, 8);
      }
    }

    // The conversion of a negative number to an unsigned one adds a power of two.
    method SpellNegative(bd: byte, i: int, width: nat)
      requires w.Valid() && i < 0 && InBytes(i, width)
      modifies w, w.b
      ensures w.Valid() && (w.b == old(w.b) || fresh(w.b))
      ensures w.Contents() == old(w.Contents()) + ([bd] + SignedBE(i, width))
    {
      Spell(bd, i + Pow256(width), width);
    }

    method EncodeInt(i: int)
      requires w.Valid() && IsInt64(i)
      modifies w, w.b
      ensures w.Valid() && (w.b == old(w.b) || fresh(w.b)) && w.Contents() == old(w.Contents()) + IntBytes(i)
    {
      SmallPowers();
      if i >= 0 {
        EncodeUint(i);
      } else if i >= -32 {
        w.Writen1(i + 0x100);
      } else if i >= -0x80 {
        SpellNegative(MP_INT8, i, 1);
      } else if i >= -0x8000 {
        SpellNegative(MP_INT16, i, 2);
      } else if i >= -0x8000_0000 {
        SpellNegative(MP_INT32, i, 4);
      } else {
        SpellNegative(MP_INT64, i, 8);
      }
    }

    method WriteContainerLen(ct: ContainerType, l: nat)
      requires w.Valid() && IsContainer(ct)
      modifies w, w.b
      ensures w.Valid() && (w.b == old(w.b) || fresh(w.b))
      ensures w.Contents() == old(w.Contents()) + LenBytes(ct, l, writeExt)
    {
      if ct.hasFixMin && l < ct.fixCutoff {
        w.Writen1(ct.bFixMin + l);
      } else if ct.has8 && l < 256 && (ct.has8Always || writeExt) {
        w.Writen2(ct.b8, l);
      } else if l < 65536 {
        Spell(ct.b16, l, 2);
      } else {
        Spell(ct.b32, l, 4);
      }
    }
  }

  class MsgpackDecDriver {
    const r: BytesDecReader
    var bd: byte
    var bdRead: bool

    constructor (r: BytesDecReader)
      ensures this.r == r && !bdRead
    {
      this.r, bd, bdRead := r, 0, false;
    }

    method InitReadNext() returns (res: Result<byte>)
      requires r.Valid()
      modifies this, r
      ensures r.Valid()
      ensures if old(bdRead) then res == Ok(old(bd)) && bd == old(bd) && bdRead && r.Rest() == old(r.Rest())
        else if old(r.Rest()) == [] then res == Err(EndOfData) && r.Rest() == [] && !bdRead
        else res == Ok(bd) && [bd] + r.Rest() == old(r.Rest()) && bdRead
    {
      if bdRead {
        return Ok(bd);
      }
      var b :- r.Readn(1);
      bd := b[0];
      bdRead := true;
      res := Ok(bd);
    }

    method RawInteger() returns (res: Result<int>)
      requires r.Valid()
      modifies r
      ensures r.Valid()
      ensures var t := RawInt(bd, old(r.Rest()));
        if t.Ok? then res == Ok(t.value.0) && r.Rest() == t.value.1 else res == Err(t.error)
    {
      if MP_UINT8 <= bd <= MP_UINT32 {
        var u :- r.ReadUint(Width(bd - MP_UINT8));
        return Ok(u);
      }
      if bd == MP_UINT64 {
        var u :- r.ReadUint(8);
        return Ok(Wrapped(u, 8));
      }
      if MP_INT8 <= bd <= MP_INT64 {
        var u :- r.ReadUint(Width(bd - MP_INT8));
        return Ok(Wrapped(u, Width(bd - MP_INT8)));
      }
      if bd <= 0x7f {
        return Ok(bd);
      }
      if bd >= 0xe0 {
        return Ok(bd - 256);
      }
      return Err(BadDescriptor);
    }

    method DecodeInt(bitsize: nat) returns (res: Result<int>)
      requires r.Valid() && bdRead && bitsize < 256
      modifies this, r
      ensures r.Valid() && bd == old(bd)
      ensures var t := ReadInt(bd, old(r.Rest()), bitsize);
        if t.Ok? then res == Ok(t.value.0) && r.Rest() == t.value.1 && !bdRead else res == Err(t.error)
    {
      var i :- RawInteger();
      if bitsize > 0 && i != TruncInt(i, bitsize) {
        return Err(Overflow);
      }
      bdRead := false;
      res := Ok(i);
    }

    method RawUnsigned() returns (res: Result<nat>)
      requires r.Valid()
      modifies r
      ensures r.Valid()
      ensures var t := RawUint(bd, old(r.Rest()));
        if t.Ok? then res == Ok(t.value.0) && r.Rest() == t.value.1 else res == Err(t.error)
    {
      if MP_UINT8 <= bd <= MP_UINT64 {
        res := r.ReadUint(Width(bd - MP_UINT8));
        return;
      }
      if MP_INT8 <= bd <= MP_INT64 {
        var u :- r.ReadUint(Width(bd - MP_INT8));
        var i := Wrapped(u, Width(bd - MP_INT8));
        if i >= 0 {
          return Ok(i);
        }
        return Err(Negative);
      }
      if bd <= 0x7f {
        return Ok(bd);
      }
      return Err(if bd >= 0xe0 then Negative else BadDescriptor);
    }

    method DecodeUint(bitsize: nat) returns (res: Result<nat>)
      requires r.Valid() && bdRead && bitsize < 256
      modifies this, r
      ensures r.Valid() && bd == old(bd)
      ensures var t := ReadUint(bd, old(r.Rest()), bitsize);
        if t.Ok? then res == Ok(t.value.0) && r.Rest() == t.value.1 && !bdRead else res == Err(t.error)
    {
      var u :- RawUnsigned();
      if bitsize > 0 && u != TruncUint(u, bitsize) {
        return Err(Overflow);
      }
      bdRead := false;
      res := Ok(u);
    }

    method ReadContainerLen(ct: ContainerType) returns (res: Result<int>)
      requires r.Valid() && bdRead
      modifies this, r
      ensures r.Valid() && bd == old(bd)
      ensures var t := ReadLen(ct, bd, old(r.Rest()));
        if t.Ok? then res == Ok(t.value.0) && r.Rest() == t.value.1 && !bdRead else res == Err(t.error)
    {
      var clen: int;
      if bd == MP_NIL {
        clen := -1;
      } else if bd == ct.b8 {
        clen :- r.ReadUint(1);
      } else if bd == ct.b16 {
        clen :- r.ReadUint(2);
      } else if bd == ct.b32 {
        clen :- r.ReadUint(4);
      } else if HasBits(bd, ct.bFixMin) {
        clen := bd - ct.bFixMin;
      } else {
        return Err(BadDescriptor);
      }
      bdRead := false;
      res := Ok(clen);
    }
  }

  // ----- A run through one buffer and one cursor -----

  method WriteItem(e: MsgpackEncDriver, x: Item)
    requires e.w.Valid() && Writable(x)
    modifies e.w, e.w.b
    ensures e.w.Valid() && (e.w.b == old(e.w.b) || fresh(e.w.b))
    ensures e.w.Contents() == old(e.w.Contents()) + ItemBytes(x, e.writeExt)
  {
    match x
    case Int(i) => e.EncodeInt(i);
    case Uint(u) => e.EncodeUint(u);
    case Length(ct, l) => e.WriteContainerLen(ct, l);
  }

  method WriteRun(e: MsgpackEncDriver, xs: seq<Item>)
    requires e.w.Valid() && AllWritable(xs)
    modifies e.w, e.w.b
    ensures e.w.Valid() && (e.w.b == old(e.w.b) || fresh(e.w.b))
    ensures e.w.Contents() == old(e.w.Contents()) + RunBytes(xs, e.writeExt)
  {
    ghost var all := e.w.Contents() + RunBytes(xs, e.writeExt);
    for i := 0 to |xs|
      invariant e.w.Valid() && (e.w.b == old(e.w.b) || fresh(e.w.b))
      invariant e.w.Contents() + RunBytes(xs[i..], e.writeExt) == all
    {
      assert xs[i] in xs && xs[i..][0] == xs[i] && xs[i..][1..] == xs[i + 1..];
      Reassociate(e.w.Contents(), ItemBytes(xs[i], e.writeExt), RunBytes(xs[i + 1..], e.writeExt));
      WriteItem(e, xs[i]);
    }
    assert xs[|xs|..] == [] && e.w.Contents() + [] == e.w.Contents();
  }

  method ReadOne(d: MsgpackDecDriver, kind: Item) returns (res: Result<Item>)
    requires d.r.Valid() && !d.bdRead
    modifies d, d.r
    ensures d.r.Valid()
    ensures var t := ReadItem(kind, old(d.r.Rest()));
      if t.Ok? then res == Ok(t.value.0) && d.r.Rest() == t.value.1 && !d.bdRead else res == Err(t.error)
  {
    ghost var bs := d.r.Rest();
    var bd :- d.InitReadNext();
    assert bs[0] == bd && bs[1..] == d.r.Rest();
    match kind
    case Int(_) =>
      var i :- d.DecodeInt(0);
      res := Ok(Int(i));
    case Uint(_) =>
      var u :- d.DecodeUint(0);
      res := Ok(Uint(u));
    case Length(ct, _) =>
      var l :- d.ReadContainerLen(ct);
      res := if l < 0 then Err(BadDescriptor) else Ok(Length(ct, l));
  }

  function Prefixed(xs: seq<Item>, r: Result<(seq<Item>, seq<byte>)>): Result<(seq<Item>, seq<byte>)> {
    if r.Ok? then Ok((xs + r.value.0, r.value.1)) else r
  }

  lemma {:induction false} ReadOneMore(kinds: seq<Item>, xs: seq<Item>, bs: seq<byte>)
    requires kinds != []
    ensures Prefixed(xs, ReadRun(kinds, bs)) ==
      var x := ReadItem(kinds[0], bs);
      if x.Ok? then Prefixed(xs + [x.value.0], ReadRun(kinds[1..], x.value.1)) else Err(x.error)
  {
    var x := ReadItem(kinds[0], bs);
    if x.Ok? {
      var r := ReadRun(kinds[1..], x.value.1);
      if r.Ok? {
        Reassociate(xs, [x.value.0], r.value.0);
      }
    }
  }

  method ReadAll(d: MsgpackDecDriver, kinds: seq<Item>) returns (res: Result<seq<Item>>)
    requires d.r.Valid() && !d.bdRead
    modifies d, d.r
    ensures d.r.Valid()
    ensures var t := ReadRun(kinds, old(d.r.Rest()));
      if t.Ok? then res == Ok(t.value.0) && d.r.Rest() == t.value.1 && !d.bdRead else res == Err(t.error)
  {
    var xs := [];
    ghost var whole := ReadRun(kinds, d.r.Rest());
    assert whole == Prefixed(xs, ReadRun(kinds[0..], d.r.Rest())) by {
      assert kinds[0..] == kinds;
      if whole.Ok? {
        assert [] + whole.value.0 == whole.value.0;
      }
    }
    for i := 0 to |kinds|
      invariant d.r.Valid() && !d.bdRead
      invariant whole == Prefixed(xs, ReadRun(kinds[i..], d.r.Rest()))
    {
      assert kinds[i..][1..] == kinds[i + 1..];
      ReadOneMore(kinds[i..], xs, d.r.Rest());
      var x :- ReadOne(d, kinds[i]);
      xs := xs + [x];
    }
    assert kinds[|kinds|..] == [] && xs + [] == xs;
    res := Ok(xs);
  }

  method EncodeRun(xs: seq<Item>, writeExt: bool, capacity: nat) returns (data: seq<byte>)
    requires AllWritable(xs)
    ensures data == RunBytes(xs, writeExt)
  {
    var w := new BytesEncWriter(capacity);
    var e := new MsgpackEncDriver(w, writeExt);
    WriteRun(e, xs);
    data := w.b[..w.c];
  }

  method DecodeRun(data: seq<byte>, kinds: seq<Item>) returns (res: Result<seq<Item>>)
    ensures var t := ReadRun(kinds, data); res == if t.Ok? then Ok(t.value.0) else Err(t.error)
  {
    var r := new BytesDecReader(data);
    var d := new MsgpackDecDriver(r);
    res := ReadAll(d, kinds);
  }

  // Whatever run of integers and lengths goes through one growing buffer, however small it starts, comes out of
  // one cursor over it.
  method Transfer(xs: seq<Item>, kinds: seq<Item>, writeExt: bool, capacity: nat) returns (res: Result<seq<Item>>)
    requires AllWritable(xs) && SameKinds(xs, kinds)
    ensures res == Ok(xs)
  {
    var data := EncodeRun(xs, writeExt, capacity);
    RunRoundTrip(xs, kinds, writeExt, []);
    assert data + [] == data;
    res := DecodeRun(data, kinds);
  }
}
