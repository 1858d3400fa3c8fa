// The packed time format: a descriptor byte, then the seconds, the nanoseconds and the zone offset, each only
// if it is not zero (or not UTC), and none longer than needed.
module TimeCodec {
  import opened Bytes
  import opened Common
  import opened TwosComplement

  // A zone that is UTC itself is told apart from a zone whose offset is 0 seconds.
  datatype Zone = UTC | Offset(seconds: int)
  datatype Time = Time(secs: int, nsecs: nat, zone: Zone)

  // What a time.Time always meets.
  predicate IsTime(t: Time) { InBytes(t.secs, 8) && t.nsecs < 1_000_000_000 }

  // Division that truncates toward zero.
  function Quo(a: int, b: int): int
    requires b > 0
  {
    if a >= 0 then a / b else -(-a / b)
  }

  // ----- The bytes of a time -----

  function SecBytes(secs: int): (s: seq<byte>)
    requires InBytes(secs, 8)
    ensures secs != 0 ==> 1 <= |s| <= 8
  {
    if secs == 0 then []
    else
      PruningKeepsValue(SignedBE(secs, 8), secs >= 0);
      Pruned(SignedBE(secs, 8), secs >= 0)
  }

  function NsecBytes(nsecs: nat): (s: seq<byte>)
    ensures nsecs != 0 ==> 1 <= |s| <= 4
  {
    if nsecs == 0 then []
    else
      PruningKeepsValue(BE(nsecs, 4), true);
      Pruned(BE(nsecs, 4), true)
  }

  // The whole minutes of the offset as 16 bits, with the two top bits cleared.
  function ZoneBytes(zone: Zone): seq<byte> {
    match zone
    case UTC => []
    case Offset(seconds) =>
      var z := Quo(seconds, 60) % 65536;
      [z / 256 % 64, z % 256]
  }

  function Descriptor(s: seq<byte>, n: seq<byte>, z: seq<byte>): byte
    requires |s| <= 8 && |n| <= 4
  {
    (if s != [] then 128 + 4 * (|s| - 1) else 0) + (if n != [] then 64 + (|n| - 1) else 0) + (if z != [] then 32 else 0)
  }

  function TimeBytes(t: Time): seq<byte>
    requires IsTime(t)
  {
    var s, n, z := SecBytes(t.secs), NsecBytes(t.nsecs), ZoneBytes(t.zone);
    [Descriptor(s, n, z)] + (s + n + z)
  }

  // Copies to position i and answers the next position.
  method Put(bs: array<byte>, i: nat, src: seq<byte>) returns (next: nat)
    requires 1 <= i && i + |src| <= bs.Length
    modifies bs
    ensures next == i + |src| && bs[1..next] == old(bs[1..i]) + src
  {
    Copy(bs, i, src);
    next := i + |src|;
    assert bs[1..i] == old(bs[1..i]) && bs[1..next] == bs[1..i] + bs[i..next];
  }

  method PutSeconds(bs: array<byte>, secs: int) returns (bd: byte, i: nat)
    requires bs.Length == 16 && InBytes(secs, 8)
    modifies bs
    ensures i == 1 + |SecBytes(secs)|
    ensures bs[1..i] == SecBytes(secs) && bd == Descriptor(SecBytes(secs), [], [])
  {
    bd, i := 0, 1;
    if secs != 0 {
      bd := bd + 128;
      var btmp := SignedBE(secs, 8);
      var f := PruneSignExt(btmp, secs >= 0);
      bd := bd + 4 * (7 - f);
      i := Put(bs, i, btmp[f..]);
    }
  }

  method PutNanoseconds(bs: array<byte>, nsecs: nat, i: nat) returns (bits: byte, next: nat)
    requires bs.Length == 16 && 1 <= i <= 9
    modifies bs
    ensures next == i + |NsecBytes(nsecs)|
    ensures bs[1..next] == old(bs[1..i]) + NsecBytes(nsecs) && bits == Descriptor([], NsecBytes(nsecs), [])
  {
    bits, next := 0, i;
    if nsecs != 0 {
      bits := bits + 64;
      var btmp := BE(nsecs, 4);
      var f := PruneSignExt(btmp, true);
      bits := bits + (3 - f);
      next := Put(bs, i, btmp[f..]);
    }
  }

  method PutZone(bs: array<byte>, zone: Zone, i: nat) returns (bits: byte, next: nat)
    requires bs.Length == 16 && 1 <= i <= 13
    modifies bs
    ensures next == i + |ZoneBytes(zone)|
    ensures bs[1..next] == old(bs[1..i]) + ZoneBytes(zone) && bits == Descriptor([], [], ZoneBytes(zone))
  {
    bits, next := 0, i;
    if zone.Offset? {
      bits := 32;
      var z := Quo(zone.seconds, 60) % 65536;
      next := Put(bs, i, [z / 256 % 64, z % 256]);
    }
  }

  method EncodeTime(t: Time) returns (r: seq<byte>)
    requires IsTime(t)
    ensures r == TimeBytes(t) && |r| <= 15
  {
    var bs := new byte[16](_ => 0);
    var bd, i := PutSeconds(bs, t.secs);
    var nsecBits, zoneBits;
    nsecBits, i := PutNanoseconds(bs, t.nsecs, i);
    zoneBits, i := PutZone(bs, t.zone, i);
    DescriptorAdds(SecBytes(t.secs), NsecBytes(t.nsecs), ZoneBytes(t.zone));
    r := Close(bs, bd + nsecBits + zoneBits, i);
  }

  lemma DescriptorAdds(s: seq<byte>, n: seq<byte>, z: seq<byte>)
    requires |s| <= 8 && |n| <= 4
    ensures Descriptor(s, [], []) + Descriptor([], n, []) + Descriptor([], [], z) == Descriptor(s, n, z)
  {}

  method Close(bs: array<byte>, bd: byte, i: nat) returns (r: seq<byte>)
    requires 1 <= i <= bs.Length
    modifies bs
    ensures r == [bd] + old(bs[1..i])
  {
    bs[0] := bd;
    r := bs[..i];
  }

  // ----- Reading a time -----

  // The offset that two zone bytes stand for: the top two bits are replaced by copies of bit 13.
  function ZoneOf(b0: byte, b1: byte): Zone {
    var tz := 256 * b0 + b1;
    var minutes := if tz / 8192 % 2 == 0 then tz % 16384 else tz % 16384 - 16384;
    if minutes == 0 then UTC else Offset(60 * minutes)
  }

  // None where the bytes end too early, which stops the program.
  function Decoded(bs: seq<byte>): Option<Time> {
    if bs == [] then None
    else
      var bd := bs[0];
      var i := 1 + if bd / 128 == 1 then bd / 4 % 8 + 1 else 0;
      var j := i + if bd / 64 % 2 == 1 then bd % 4 + 1 else 0;
      if |bs| < j + (if bd / 32 % 2 == 1 then 2 else 0) then None
      else Some(Time(Signed(bs[1..i]), Num(bs[i..j]), if bd / 32 % 2 == 1 then ZoneOf(bs[j], bs[j + 1]) else UTC))
  }

  // The bytes at the end of eight, the rest filled with the sign.
  method ReadSigned(piece: seq<byte>) returns (v: int)
    requires 1 <= |piece| <= 8
    ensures v == Signed(piece)
  {
    var n := |piece|;
    var btmp := new byte[8](_ => 0);
    Copy(btmp, 8 - n, piece);
    if piece[0] >= 128 {
      Copy(btmp, 0, seq(8 - n, _ => 255));
    }
    FilledUp(btmp[..], piece);
    v := Wrapped(Num(btmp[..]), 8);
  }

  lemma {:induction false} FilledUp(s: seq<byte>, piece: seq<byte>)
    requires 1 <= |piece| <= 8 == |s| && s[8 - |piece|..] == piece
    requires forall i :: 0 <= i < 8 - |piece| ==> s[i] == Fill(piece[0])
    ensures Wrapped(Num(s), 8) == Signed(piece)
  {
    assert s == seq(8 - |piece|, _ => Fill(piece[0])) + piece;
    SignExtension(piece, 8 - |piece|);
    TopBit(s);
  }

  method ReadUnsigned(piece: seq<byte>) returns (v: nat)
    requires 1 <= |piece| <= 4
    ensures v == Num(piece)
  {
    var n := |piece|;
    var btmp := new byte[4](_ => 0);
    Copy(btmp, 4 - n, piece);
    assert btmp[..] == btmp[..4 - n] + btmp[4 - n..4];
    assert btmp[..] == seq(4 - n, _ => 0) + piece;
    LeadingZeros(4 - n, piece);
    v := Num(btmp[..]);
  }

  method DecodeTime(bs: seq<byte>) returns (r: Option<Time>)
    ensures r == Decoded(bs)
  {
    if |bs| < 1 {
      return None;
    }
    var bd := bs[0];
    var tsec, tnsec: nat, i := 0, 0, 1;
    if bd / 128 == 1 {
      var n := bd / 4 % 8 + 1;
      if |bs| < i + n {
        return None;
      }
      tsec := ReadSigned(bs[i..i + n]);
      i := i + n;
    }
    if bd / 64 % 2 == 1 {
      var n := bd % 4 + 1;
      if |bs| < i + n {
        return None;
      }
      tnsec := ReadUnsigned(bs[i..i + n]);
      i := i + n;
    }
    if bd / 32 % 2 == 0 {
      return Some(Time(tsec, tnsec, UTC));
    }
    if |bs| < i + 2 {
      return None;
    }
    r := Some(Time(tsec, tnsec, ZoneOf(bs[i], bs[i + 1])));
  }

  // ----- Writing and reading -----

  // What is left of a zone: whole minutes, as a 14-bit signed number, and no distinction between UTC and 0.
  function Kept(zone: Zone): Zone {
    match zone
    case UTC => UTC
    case Offset(seconds) =>
      var m := Quo(seconds, 60) % 16384;
      var minutes := if m >= 8192 then m - 16384 else m;
      if minutes == 0 then UTC else Offset(60 * minutes)
  }

  lemma {:induction false} SecondsBack(secs: int)
    requires InBytes(secs, 8)
    ensures Signed(SecBytes(secs)) == secs
  {
    SignedRoundTrip(secs, 8);
    PruningKeepsValue(SignedBE(secs, 8), secs >= 0);
  }

  lemma {:induction false} NanosecondsBack(nsecs: nat)
    requires nsecs < 1_000_000_000
    ensures Num(NsecBytes(nsecs)) == nsecs
  {
    assert Pow256(4) == 0x1_0000_0000 by {
      assert Pow256(1) == 256 && Pow256(2) == 65536 && Pow256(3) == 0x100_0000;
    }
    NumBE(nsecs, 4);
    TopBit(BE(nsecs, 4));
    PruningKeepsValue(BE(nsecs, 4), true);
  }

  lemma {:induction false} ZoneBack(seconds: int)
    ensures var z := ZoneBytes(Offset(seconds)); ZoneOf(z[0], z[1]) == Kept(Offset(seconds))
  {
    var m := Quo(seconds, 60);
    var z := m % 65536;
    LowBits(m);
    assert ZoneBytes(Offset(seconds)) == [z / 256 % 64, z % 256];
  }

  // The top two bits do not matter for the lower 14.
  lemma {:induction false} LowBits(m: int)
    ensures var z := m % 65536; 256 * (z / 256 % 64) + z % 256 == m % 16384
  {
    var z := m % 65536;
    var q := m / 65536;
    assert z == 16384 * (z / 16384) + z % 16384;
    ModUnique(m, 16384, 4 * q + z / 16384, z % 16384);
  }

  lemma {:induction false} DescriptorFields(s: seq<byte>, n: seq<byte>, z: seq<byte>)
    requires |s| <= 8 && |n| <= 4
    ensures var bd := Descriptor(s, n, z);
      && (bd / 128 == 1 <==> s != []) && (s != [] ==> bd / 4 % 8 + 1 == |s|)
      && (bd / 64 % 2 == 1 <==> n != []) && (n != [] ==> bd % 4 + 1 == |n|)
      && (bd / 32 % 2 == 1 <==> z != [])
  {}

  lemma {:induction false} Slices(d: byte, s: seq<byte>, n: seq<byte>, z: seq<byte>)
    ensures var bs := [d] + (s + n + z); var i := 1 + |s|; var j := i + |n|;
      && bs[1..i] == s && bs[i..j] == n && bs[j..] == z
  {
    var bs := [d] + (s + n + z);
    assert bs == [d] + s + n + z;
  }

  // Decoding undoes encoding up to what is kept of the zone, for every time.
  lemma {:induction false} TimeRoundTrip(t: Time)
    requires IsTime(t)
    ensures Decoded(TimeBytes(t)) == Some(t.(zone := Kept(t.zone)))
  {
    var s, n, z := SecBytes(t.secs), NsecBytes(t.nsecs), ZoneBytes(t.zone);
    SecondsBack(t.secs);
    NanosecondsBack(t.nsecs);
    PartsBack(s, n, z);
    if t.zone.Offset? {
      ZoneBack(t.zone.seconds);
    }
  }

  lemma {:induction false} PartsBack(s: seq<byte>, n: seq<byte>, z: seq<byte>)
    requires |s| <= 8 && |n| <= 4 && (z == [] || |z| == 2)
    ensures Decoded([Descriptor(s, n, z)] + (s + n + z)) ==
      Some(Time(Signed(s), Num(n), if z == [] then UTC else ZoneOf(z[0], z[1])))
  {
    var bs := [Descriptor(s, n, z)] + (s + n + z);
    var j := 1 + |s| + |n|;
    DescriptorFields(s, n, z);
    Slices(bs[0], s, n, z);
    assert |bs| == j + |z|;
    if z != [] {
      assert bs[j..][0] == z[0] && bs[j..][1] == z[1];
    }
  }

  // Nothing is longer than needed: no fewer bytes are read as the same seconds,
  lemma {:induction false} SecondsAreShortest(secs: int, s: seq<byte>)
    requires InBytes(secs, 8) && Signed(s) == secs
    ensures |SecBytes(secs)| <= |s|
  {
    if secs != 0 {
      SignedRoundTrip(secs, 8);
      PruningIsShortest(SignedBE(secs, 8), s);
    }
  }

  // and fewer than one byte less as the same nanoseconds, which are pruned like a signed number and read like an
  // unsigned one.
  lemma {:induction false} NanosecondsAreShort(nsecs: nat, n: seq<byte>)
    requires nsecs < 1_000_000_000 && Num(n) == nsecs
    ensures |NsecBytes(nsecs)| <= |n| + 1
  {
    if nsecs != 0 {
      assert Pow256(4) == 0x1_0000_0000 by {
        assert Pow256(1) == 256 && Pow256(2) == 65536 && Pow256(3) == 0x100_0000;
      }
      var t := [0] + n;
      NumFront(t);
      assert t[1..] == n;
      NumBE(nsecs, 4);
      TopBit(BE(nsecs, 4));
      PruningIsShortest(BE(nsecs, 4), t);
    }
  }

  lemma {:induction false} PiecesAreShort(t: Time, s: seq<byte>, n: seq<byte>, z: nat)
    requires IsTime(t) && Signed(s) == t.secs && Num(n) == t.nsecs && (t.zone.Offset? ==> z >= 2)
    ensures |TimeBytes(t)| <= 2 + |s| + |n| + z
  {
    SecondsAreShortest(t.secs, s);
    NanosecondsAreShort(t.nsecs, n);
  }

  // So a time is at most one byte longer than any bytes that are read as it.
  lemma {:induction false} TimeIsShort(t: Time, bs: seq<byte>)
    requires IsTime(t) && Decoded(bs) == Some(t)
    ensures |TimeBytes(t)| <= |bs| + 1
  {
    var bd := bs[0];
    var i := 1 + if bd / 128 == 1 then bd / 4 % 8 + 1 else 0;
    var j := i + if bd / 64 % 2 == 1 then bd % 4 + 1 else 0;
    PiecesAreShort(t, bs[1..i], bs[i..j], |bs| - j);
  }

  // How many bytes the descriptor announces, itself included.
  function Announced(bd: byte): nat {
    1 + (if bd / 128 == 1 then bd / 4 % 8 + 1 else 0) + (if bd / 64 % 2 == 1 then bd % 4 + 1 else 0)
    + (if bd / 32 % 2 == 1 then 2 else 0)
  }

  // A time is read exactly when these are there, and bytes that follow do not matter.
  lemma {:induction false} TimeIsReadIff(bs: seq<byte>, rest: seq<byte>)
    ensures Decoded(bs).Some? <==> bs != [] && |bs| >= Announced(bs[0])
    ensures Decoded(bs).Some? ==> Decoded(bs + rest) == Decoded(bs)
  {
    if Decoded(bs).Some? {
      var bd := bs[0];
      var i := 1 + if bd / 128 == 1 then bd / 4 % 8 + 1 else 0;
      var j := i + if bd / 64 % 2 == 1 then bd % 4 + 1 else 0;
      assert (bs + rest)[1..i] == bs[1..i] && (bs + rest)[i..j] == bs[i..j];
    }
  }

  // So none comes back with bytes missing.
  lemma {:induction false} CutTimeIsRefused(t: Time, k: nat)
    requires IsTime(t) && k < |TimeBytes(t)|
    ensures Decoded(TimeBytes(t)[..k]) == None
  {
    DescriptorFields(SecBytes(t.secs), NsecBytes(t.nsecs), ZoneBytes(t.zone));
    TimeIsReadIff(TimeBytes(t)[..k], []);
  }

  // The time comes back as it was exactly when its zone is UTC, or has an offset of whole minutes, not zero,
  // that fits 14 bits.
  lemma {:induction false} TimeRoundTripIff(t: Time)
    requires IsTime(t)
    ensures Decoded(TimeBytes(t)) == Some(t) <==>
      t.zone.UTC? || exists m :: t.zone == Offset(60 * m) && m != 0 && -8192 <= m <= 8191
  {
    TimeRoundTrip(t);
    if t.zone.Offset? {
      KeptIff(t.zone.seconds);
    }
  }

  lemma {:induction false} KeptIff(seconds: int)
    ensures Kept(Offset(seconds)) == Offset(seconds) <==>
      exists m :: Offset(seconds) == Offset(60 * m) && m != 0 && -8192 <= m <= 8191
  {
    if Kept(Offset(seconds)) == Offset(seconds) {
      var m := Quo(seconds, 60) % 16384;
      var minutes := if m >= 8192 then m - 16384 else m;
      assert Offset(seconds) == Offset(60 * minutes);
    }
    forall m | seconds == 60 * m && m != 0 && -8192 <= m <= 8191
      ensures Kept(Offset(seconds)) == Offset(seconds)
    {
      assert Quo(seconds, 60) == m;
      assert m % 16384 == if m < 0 then m + 16384 else m;
    }
  }

  // Byte by byte.
  lemma SomePieces()
    ensures SecBytes(1) == [1] && NsecBytes(1) == [1] && ZoneBytes(Offset(-3600)) == [0x3f, 0xc4]
  {
    assert SignedBE(1, 8) == [0, 0, 0, 0, 0, 0, 0, 1] && BE(1, 4) == [0, 0, 0, 1];
    OneLeft([0, 0, 0, 0, 0, 0, 0, 1], 7);
    OneLeft([0, 0, 0, 1], 3);
    assert Quo(-3600, 60) == -60;
  }

  lemma SomeBytes()
    ensures TimeBytes(Time(1, 0, UTC)) == [0x80, 1] && TimeBytes(Time(0, 1, Offset(-3600))) == [0x60, 1, 0x3f, 0xc4]
  {
    SomePieces();
  }

  lemma {:induction false} OneLeft(s: seq<byte>, k: nat)
    requires |s| == k + 1 && s[k] < 128 && forall i :: 0 <= i < k ==> s[i] == 0
    ensures Pruned(s, true) == [s[k]]
    decreases k
  {
    if k == 0 {
    } else {
      OneLeft(s[1..], k - 1);
    }
  }
}
