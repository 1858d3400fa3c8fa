// Integers and lengths in the binc format.
module Binc {
  import opened Bytes
  import opened ByteStreams
  import opened Shifts
  import opened TwosComplement

  // Descriptor bytes: the kind in the upper four bits.
  const SP_ZERO: byte := 0x07
  const SP_NEG_ONE: byte := 0x08
  const POS_INT: byte := 0x10
  const NEG_INT: byte := 0x20
  const STRING: byte := 0x40
  const BYTE_ARRAY: byte := 0x50
  const SMALL_INT: byte := 0x90
  const SYMBOL: byte := 0xb0

  // ----- Writing -----

  function PrunedBytes(bd: byte, pos: bool, v: nat, lim: nat): seq<byte>
    requires bd <= 0xf0 && 1 <= lim <= 8
  {
    PruningKeepsValue(BE(v, lim), pos);
    var p := Pruned(BE(v, lim), pos);
    [bd + |p| - 1] + p
  }

  function MagnitudeBytes(bd: byte, pos: bool, v: nat): seq<byte>
    requires bd <= 0xf0 && IsUint64(v)
  {
    if v == 0 then [SP_ZERO]
    else if pos && v <= 16 then [SMALL_INT + v - 1]
    else if v <= 0xff then [bd, v]
    else if v <= 0xffff then [bd + 1] + BE(v, 2)
    else if v <= 0xffff_ffff then PrunedBytes(bd, pos, v, 4)
    else PrunedBytes(bd, pos, v, 8)
  }

  function IntBytes(v: int): seq<byte>
    requires IsInt64(v)
  {
    if v >= 0 then MagnitudeBytes(POS_INT, true, v)
    else if v == -1 then [SP_NEG_ONE]
    else MagnitudeBytes(NEG_INT, false, -v)
  }

  function LenBytes(bd: byte, l: nat): seq<byte>
    requires bd <= 0xf0 && IsUint64(l)
  {
    if l < 12 then [bd + l + 4]
    else if l <= 0xff then [bd, l]
    else if l <= 0xffff then [bd + 1] + BE(l, 2)
    else if l <= 0xffff_ffff then [bd + 2] + BE(l, 4)
    else [bd + 3] + BE(l, 8)
  }

  // ----- Reading -----

  // The lower four bits of the descriptor tell the number of bytes, less one.
  function ReadUint(vs: nat, bs: seq<byte>): Result<(nat, seq<byte>)> {
    if vs <= 7 then TakeNum(bs, vs + 1) else Err(BadDescriptor)
  }

  function ReadLen(vs: nat, bs: seq<byte>): Result<(nat, seq<byte>)>
    requires vs < 16
  {
    if vs <= 3 then ReadUint(vs, bs) else Ok((vs - 4, bs))
  }

  // The unsigned and the signed reading of an integer, and whether it is negative.
  datatype Integer = Integer(ui: nat, i: int, neg: bool)

  // The negation of a 64-bit number wraps at the smallest one.
  function Negated(i: int): int { if i == -0x8000_0000_0000_0000 then i else -i }

  function ReadIntAny(bd: byte, bs: seq<byte>): Result<(Integer, seq<byte>)> {
    var vd, vs := bd - bd % 16, bd % 16;
    if vd == POS_INT then
      var r :- ReadUint(vs, bs); Ok((Integer(r.0, Wrapped(r.0, 8), false), r.1))
    else if vd == NEG_INT then
      var r :- ReadUint(vs, bs); Ok((Integer(r.0, Negated(Wrapped(r.0, 8)), true), r.1))
    else if vd == SMALL_INT then Ok((Integer(vs + 1, vs + 1, false), bs))
    else if bd == SP_ZERO then Ok((Integer(0, 0, false), bs))
    else if bd == SP_NEG_ONE then Ok((Integer(1, -1, true), bs))
    else Err(BadDescriptor)
  }

  function ReadInt(bd: byte, bs: seq<byte>, bits: nat): Result<(int, seq<byte>)> {
    var r :- ReadIntAny(bd, bs);
    if bits > 0 && r.0.i != 0 && r.0.i != TruncInt(r.0.i, bits) then Err(Overflow) else Ok((r.0.i, r.1))
  }

  function ReadUnsigned(bd: byte, bs: seq<byte>, bits: nat): Result<(nat, seq<byte>)> {
    var r :- ReadIntAny(bd, bs);
    if r.0.neg then Err(Negative)
    else if bits > 0 && r.0.ui != 0 && r.0.ui != TruncUint(r.0.ui, bits) then Err(Overflow)
    else Ok((r.0.ui, r.1))
  }

  // ----- Writing and reading -----

  // What the descriptor byte is followed by is read as a number again.
  lemma {:induction false} NumberBack(bd: byte, p: seq<byte>, rest: seq<byte>)
    requires 1 <= |p| <= 8
    ensures var t := [bd] + p + rest; t[0] == bd && ReadUint(|p| - 1, t[1..]) == Ok((Num(p), rest))
  {
    Behind(bd, p, rest);
    TakeBack(p, rest);
  }

  lemma {:induction false} Nibbles(high: nat, low: nat)
    requires high % 16 == 0 && low < 16
    ensures (high + low) % 16 == low && high + low - (high + low) % 16 == high
  {}

  lemma {:induction false} PositiveRead(p: seq<byte>, rest: seq<byte>)
    requires 1 <= |p| <= 8
    ensures var t := [POS_INT + |p| - 1] + p + rest;
      ReadIntAny(t[0], t[1..]) == Ok((Integer(Num(p), Wrapped(Num(p), 8), false), rest))
  {
    Nibbles(POS_INT, |p| - 1);
    NumberBack(POS_INT + |p| - 1, p, rest);
  }

  lemma {:induction false} NegativeRead(p: seq<byte>, rest: seq<byte>)
    requires 1 <= |p| <= 8
    ensures var t := [NEG_INT + |p| - 1] + p + rest;
      ReadIntAny(t[0], t[1..]) == Ok((Integer(Num(p), Negated(Wrapped(Num(p), 8)), true), rest))
  {
    Nibbles(NEG_INT, |p| - 1);
    NumberBack(NEG_INT + |p| - 1, p, rest);
  }

  // The bytes that a magnitude of more than 16 (or a negative one) is followed by.
  function Body(pos: bool, v: nat): (p: seq<byte>)
    requires v > 0 && IsUint64(v)
    ensures 1 <= |p| <= 8
  {
    if v <= 0xff then [v]
    else if v <= 0xffff then BE(v, 2)
    else if v <= 0xffff_ffff then
      PruningKeepsValue(BE(v, 4), pos);
      Pruned(BE(v, 4), pos)
    else
      PruningKeepsValue(BE(v, 8), pos);
      Pruned(BE(v, 8), pos)
  }

  lemma {:induction false} MagnitudeIs(bd: byte, pos: bool, v: nat)
    requires bd <= 0xf0 && v > 0 && IsUint64(v) && !(pos && v <= 16)
    ensures MagnitudeBytes(bd, pos, v) == [bd + |Body(pos, v)| - 1] + Body(pos, v)
  {}

  // Pruning leading zero bytes keeps the magnitude,
  lemma {:induction false} PositiveBody(v: nat)
    requires v > 0 && IsUint64(v)
    ensures Num(Body(true, v)) == v
  {
    SmallPowers();
    if v <= 0xff {
      NumFront([v]);
    } else if v <= 0xffff {
      NumBE(v, 2);
    } else {
      var w := if v <= 0xffff_ffff then 4 else 8;
      NumBE(v, w);
      PruningZeros(BE(v, w));
    }
  }

  lemma {:induction false} PruningZeros(s: seq<byte>)
    ensures Num(Pruned(s, true)) == Num(s)
    decreases |s|
  {
    if Prunable(s, true) {
      PruningZeros(s[1..]);
      NumFront(s);
    }
  }

  // pruning leading 0xff bytes of a magnitude does not.
  lemma {:induction false} PruningOnes(s: seq<byte>)
    ensures Num(Pruned(s, false)) == Num(s) <==> !Prunable(s, false)
    ensures Num(Pruned(s, false)) <= Num(s)
    decreases |s|
  {
    if Prunable(s, false) {
      PruningOnes(s[1..]);
      NumFront(s);
      AtLeast(s[0], Pow256(|s| - 1));
    }
  }

  predicate Damaged(m: nat) { 0xff80_0000 <= m <= 0xffff_ffff }

  lemma {:induction false} NegativeBody(m: nat)
    requires 0 < m <= 0x8000_0000_0000_0000
    ensures Num(Body(false, m)) == m <==> !Damaged(m)
    ensures Num(Body(false, m)) <= m
  {
    SmallPowers();
    if m <= 0xff {
      NumFront([m]);
    } else if m <= 0xffff {
      NumBE(m, 2);
    } else {
      var w := if m <= 0xffff_ffff then 4 else 8;
      NumBE(m, w);
      PruningOnes(BE(m, w));
      TopBytes(m, w);
    }
  }

  lemma {:induction false} TopBytes(m: nat, w: nat)
    requires (w == 4 && m <= 0xffff_ffff) || (w == 8 && m <= 0x8000_0000_0000_0000)
    ensures Prunable(BE(m, w), false) <==> w == 4 && m >= 0xff80_0000
  {
    SmallPowers();
    BEAt(m, w, 0);
    BEAt(m, w, 1);
  }

  // The pruned body keeps one byte more than needed at most.
  lemma {:induction false} BodyIsShort(v: nat, w: nat, p: seq<byte>)
    requires 1 <= w && v < Pow256(w) && Num(p) == v && (2 * v >= Pow256(w) ==> |p| >= w)
    ensures |Pruned(BE(v, w), true)| <= |p| + 1
  {
    PruningKeepsValue(BE(v, w), true);
    if 2 * v < Pow256(w) {
      NumBE(v, w);
      TopBit(BE(v, w));
      NumFront([0] + p);
      assert ([0] + p)[1..] == p;
      PruningIsShortest(BE(v, w), [0] + p);
    }
  }

  // An unsigned number takes at most one byte more than any bytes that spell it, and no more up to 65535.
  lemma {:induction false} MagnitudeIsShort(v: nat, p: seq<byte>)
    requires IsUint64(v) && Num(p) == v
    ensures |MagnitudeBytes(POS_INT, true, v)| <= |p| + if v <= 0xffff then 1 else 2
  {
    SmallPowers();
    NumBound(p);
    AtLeastBytes(v, |p|);
    if v > 0xffff {
      BodyIsShort(v, if v <= 0xffff_ffff then 4 else 8, p);
    }
  }

  lemma {:induction false} AtLeastBytes(v: nat, n: nat)
    requires v < Pow256(n)
    ensures (v > 0 ==> n >= 1) && (v > 0xff ==> n >= 2) && (2 * v >= Pow256(4) ==> n >= 4)
    ensures 2 * v >= Pow256(8) ==> n >= 8
  {
    SmallPowers();
    if n < 8 {
      PowGrows(n, 7);
      if n < 4 {
        PowGrows(n, 3);
      }
    }
  }

  // Every unsigned 64-bit number comes back.
  lemma {:induction false} UintRoundTrip(v: nat, rest: seq<byte>)
    requires IsUint64(v)
    ensures var t := MagnitudeBytes(POS_INT, true, v) + rest;
      |t| > 0 && ReadUnsigned(t[0], t[1..], 0) == Ok((v, rest))
    ensures var t := MagnitudeBytes(POS_INT, true, v) + rest; ReadInt(t[0], t[1..], 0) == Ok((Wrapped(v, 8), rest))
  {
    if v <= 16 {
      var bd: byte := if v == 0 then SP_ZERO else SMALL_INT + v - 1;
      Single(bd, rest);
      Unwrapped(v);
    } else {
      MagnitudeIs(POS_INT, true, v);
      PositiveBody(v);
      PositiveRead(Body(true, v), rest);
    }
  }

  // A signed 64-bit number comes back exactly when it is not among those whose magnitude starts with bytes
  // that pruning takes for a sign.
  lemma {:induction false} IntRoundTripIff(v: int, rest: seq<byte>)
    requires IsInt64(v)
    ensures var t := IntBytes(v) + rest;
      |t| > 0 && (ReadInt(t[0], t[1..], 0) == Ok((v, rest)) <==> !(-0xffff_ffff <= v <= -0xff80_0000))
    // The bytes of another one are read to their end, as a different number.
    ensures var t := IntBytes(v) + rest; var r := ReadInt(t[0], t[1..], 0); r.Ok? && r.value.1 == rest
  {
    if v >= 0 {
      UintRoundTrip(v, rest);
      Unwrapped(v);
    } else if v == -1 {
      Single(SP_NEG_ONE, rest);
    } else {
      MagnitudeIs(NEG_INT, false, -v);
      NegativeRead(Body(false, -v), rest);
      NegativeBody(-v);
      Unwrapped(Num(Body(false, -v)));
    }
  }

  // Asked for fewer bits, a number is an overflow exactly when it does not fit them.
  lemma {:induction false} IntFitsIff(bd: byte, bs: seq<byte>, bits: nat)
    requires 1 <= bits <= 64 && ReadInt(bd, bs, 0).Ok?
    ensures var r := ReadInt(bd, bs, 0);
      ReadInt(bd, bs, bits) == if 0 <= 2 * r.value.0 + Pow2(bits) < 2 * Pow2(bits) then r else Err(Overflow)
  {
    IntTestIff(ReadInt(bd, bs, 0).value.0, bits);
  }

  lemma {:induction false} UintFitsIff(bd: byte, bs: seq<byte>, bits: nat)
    requires 1 <= bits <= 64 && ReadUnsigned(bd, bs, 0).Ok?
    ensures var r := ReadUnsigned(bd, bs, 0);
      ReadUnsigned(bd, bs, bits) == if r.value.0 < Pow2(bits) then r else Err(Overflow)
  {
    UintTestIff(ReadUnsigned(bd, bs, 0).value.0, bits);
  }

  // A number that was written as negative is none without a sign.
  lemma {:induction false} NegativeIsNoUint(v: int, rest: seq<byte>, bits: nat)
    requires IsInt64(v) && v < 0
    ensures var t := IntBytes(v) + rest; |t| > 0 && ReadUnsigned(t[0], t[1..], bits) == Err(Negative)
  {
    if v == -1 {
      Single(SP_NEG_ONE, rest);
    } else {
      MagnitudeIs(NEG_INT, false, -v);
      NegativeRead(Body(false, -v), rest);
    }
  }

  lemma {:induction false} Unwrapped(u: nat)
    requires u <= 0x8000_0000_0000_0000
    ensures u < 0x8000_0000_0000_0000 ==> Wrapped(u, 8) == u
    ensures Negated(Wrapped(u, 8)) + u == 0
  {
    SmallPowers();
  }

  lemma {:induction false} ShortLenBack(bd: byte, l: nat, rest: seq<byte>)
    requires bd <= 0xf0 && bd % 16 == 0 && l <= 0xffff
    ensures var t := LenBytes(bd, l) + rest;
      |t| > 0 && t[0] - t[0] % 16 == bd && ReadLen(t[0] % 16, t[1..]) == Ok((l, rest))
  {
    if l < 12 {
      Single(bd + l + 4, rest);
      Nibbles(bd, l + 4);
    } else if l <= 0xff {
      NumberBack(bd, [l], rest);
      NumFront([l]);
      Nibbles(bd, 0);
      assert [bd] + [l] == [bd, l];
    } else {
      SmallPowers();
      NumberBack(bd + 1, BE(l, 2), rest);
      Nibbles(bd, 1);
      NumBE(l, 2);
    }
  }

  // A length comes back exactly when it needs no more than two bytes: four are written where three are read,
  // and eight where four are.
  lemma {:induction false} LenRoundTripIff(bd: byte, l: nat, rest: seq<byte>)
    requires bd <= 0xf0 && bd % 16 == 0 && IsUint64(l)
    ensures var t := LenBytes(bd, l) + rest;
      |t| > 0 && t[0] - t[0] % 16 == bd && (ReadLen(t[0] % 16, t[1..]) == Ok((l, rest)) <==> l <= 0xffff)
  {
    if l <= 0xffff {
      ShortLenBack(bd, l, rest);
    } else {
      var vs := if l <= 0xffff_ffff then 2 else 3;
      var p := BE(l, if vs == 2 then 4 else 8);
      Behind(bd + vs, p, rest);
      TooFewRead(p, rest, vs + 1);
    }
  }

  // Reading fewer bytes than were written leaves some in front of the rest.
  lemma {:induction false} TooFewRead(p: seq<byte>, rest: seq<byte>, n: nat)
    requires 0 < n < |p|
    ensures var r := TakeNum(p + rest, n); r.Ok? && |r.value.1| > |rest|
  {}

  // Byte by byte.
  lemma SomeBytes()
    ensures IntBytes(0) == [0x07] && IntBytes(-1) == [0x08] && IntBytes(16) == [0x9f] && IntBytes(-300) == [0x21, 1, 44]
    ensures IntBytes(70000) == [0x12, 1, 0x11, 0x70] && LenBytes(STRING, 300) == [0x41, 1, 44]
  {
    var s := BE(70000, 4);
    assert s == [0, 1, 0x11, 0x70] && s[1..] == [1, 0x11, 0x70];
  }
}
