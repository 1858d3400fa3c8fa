// Big-endian two's complement numbers, and the pruning of leading bytes that sign extension restores.
module TwosComplement {
  import opened Bytes

  // The number that the bytes spell in two's complement.
  function Signed(s: seq<byte>): int {
    if s != [] && s[0] >= 128 then Num(s) - Pow256(|s|) else Num(s)
  }

  // The numbers that w bytes can hold.
  predicate InBytes(v: int, w: nat) { 0 <= 2 * v + Pow256(w) < 2 * Pow256(w) }

  // The w bytes of a signed number.
  function SignedBE(v: int, w: nat): (s: seq<byte>)
    requires v + Pow256(w) >= 0
    ensures |s| == w
  {
    BE(if v < 0 then v + Pow256(w) else v, w)
  }

  // What the conversion of a w-byte unsigned number to a signed one does.
  function Wrapped(u: int, w: nat): int {
    if 2 * u >= Pow256(w) then u - Pow256(w) else u
  }

  lemma {:induction false} NumFront(s: seq<byte>)
    requires s != []
    ensures Num(s) == s[0] * Pow256(|s| - 1) + Num(s[1..])
  {
    assert s == [s[0]] + s[1..];
    NumAppend([s[0]], s[1..]);
    assert Num([s[0]]) == s[0] by {
      assert [s[0]][..0] == [];
    }
  }

  // The top bit tells the upper half.
  lemma {:induction false} TopBit(s: seq<byte>)
    requires s != []
    ensures s[0] >= 128 <==> 2 * Num(s) >= Pow256(|s|)
    ensures Signed(s) == Wrapped(Num(s), |s|)
  {
    NumFront(s);
    NumBound(s[1..]);
    HalfSplit(s[0], Pow256(|s| - 1), Num(s[1..]));
  }

  lemma {:induction false} HalfSplit(a: nat, p: nat, r: nat)
    requires a < 256 && r < p
    ensures a >= 128 <==> 2 * (a * p + r) >= 256 * p
  {
    if a >= 128 {
      TimesMonotone(128, a, p);
    } else {
      TimesMonotone(a, 127, p);
    }
  }

  lemma {:induction false} TimesMonotone(a: nat, b: nat, p: nat)
    requires a <= b
    ensures a * p <= b * p
  {}

  lemma {:induction false} SignedRange(s: seq<byte>)
    requires s != []
    ensures InBytes(Signed(s), |s|)
  {
    TopBit(s);
    NumBound(s);
  }

  // Writing and reading back.
  lemma {:induction false} SignedRoundTrip(v: int, w: nat)
    requires w > 0 && InBytes(v, w)
    ensures Signed(SignedBE(v, w)) == v
  {
    NumBE(if v < 0 then v + Pow256(w) else v, w);
    TopBit(SignedBE(v, w));
  }

  // A leading byte that repeats the sign of the next one may go.
  lemma {:induction false} DropSign(s: seq<byte>)
    requires |s| >= 2 && ((s[0] == 0 && s[1] < 128) || (s[0] == 255 && s[1] >= 128))
    ensures Signed(s[1..]) == Signed(s)
  {
    NumFront(s);
  }

  function Fill(top: byte): byte { if top >= 128 then 255 else 0 }

  // Sign extension does not change the number.
  lemma {:induction false} SignExtension(s: seq<byte>, k: nat)
    requires s != []
    ensures Signed(seq(k, _ => Fill(s[0])) + s) == Signed(s)
    decreases k
  {
    var f := Fill(s[0]);
    var t := seq(k, _ => f) + s;
    if k == 0 {
      assert t == s;
    } else {
      SignExtension(s, k - 1);
      assert t[1..] == seq(k - 1, _ => f) + s;
      DropSign(t);
    }
  }

  // Nor do leading zeros change an unsigned number.
  lemma {:induction false} LeadingZeros(k: nat, s: seq<byte>)
    ensures Num(seq(k, _ => 0) + s) == Num(s)
    decreases k
  {
    var t := seq(k, _ => 0) + s;
    if k == 0 {
      assert t == s;
    } else {
      LeadingZeros(k - 1, s);
      assert t[1..] == seq(k - 1, _ => 0) + s;
      NumFront(t);
    }
  }

  // ----- Pruning -----

  predicate Prunable(s: seq<byte>, pos: bool) {
    |s| >= 2 && if pos then s[0] == 0 && s[1] < 128 else s[0] == 255 && s[1] >= 128
  }

  function Pruned(s: seq<byte>, pos: bool): (r: seq<byte>)
    decreases |s|
  {
    if Prunable(s, pos) then Pruned(s[1..], pos) else s
  }

  method PruneSignExt(v: seq<byte>, pos: bool) returns (n: nat)
    ensures n <= |v| && (v != [] ==> n < |v|)
    ensures v[n..] == Pruned(v, pos)
  {
    n := 0;
    if |v| < 2 {
    } else if pos && v[0] == 0 {
      while v[n] == 0 && n + 1 < |v| && v[n + 1] < 128
        invariant n < |v| && Pruned(v[n..], pos) == Pruned(v, pos)
      {
        assert v[n..][1..] == v[n + 1..];
        n := n + 1;
      }
    } else if !pos && v[0] == 255 {
      while v[n] == 255 && n + 1 < |v| && v[n + 1] >= 128
        invariant n < |v| && Pruned(v[n..], pos) == Pruned(v, pos)
      {
        assert v[n..][1..] == v[n + 1..];
        n := n + 1;
      }
    }
  }

  // Only bytes are pruned that sign extension restores,
  lemma {:induction false} PruningKeepsValue(s: seq<byte>, pos: bool)
    requires s != []
    ensures Signed(Pruned(s, pos)) == Signed(s)
    ensures 1 <= |Pruned(s, pos)| <= |s| && Pruned(s, pos) == s[|s| - |Pruned(s, pos)|..]
    ensures pos && s[0] < 128 ==> Pruned(s, pos)[0] < 128 && Num(Pruned(s, pos)) == Num(s)
    decreases |s|
  {
    if Prunable(s, pos) {
      DropSign(s);
      PruningKeepsValue(s[1..], pos);
      NumFront(s);
    }
  }

  // and all of them: no shorter number of bytes can hold the value.
  lemma {:induction false} PruningIsShortest(s: seq<byte>, t: seq<byte>)
    requires s != [] && t != [] && Signed(t) == Signed(s)
    ensures |Pruned(s, Signed(s) >= 0)| <= |t|
  {
    var pos := Signed(s) >= 0;
    var r := Pruned(s, pos);
    PruningKeepsValue(s, pos);
    if |t| < |r| {
      NotPrunable(s, pos);
      SignedRange(t);
      TooWide(r, |t|);
    }
  }

  lemma {:induction false} NotPrunable(s: seq<byte>, pos: bool)
    ensures !Prunable(Pruned(s, pos), pos)
    decreases |s|
  {
    if Prunable(s, pos) {
      NotPrunable(s[1..], pos);
    }
  }

  lemma {:induction false} PowGrows(a: nat, b: nat)
    requires a <= b
    ensures Pow256(a) <= Pow256(b)
    decreases b
  {
    if a < b {
      PowGrows(a, b - 1);
    }
  }

  lemma {:induction false} TooWide(r: seq<byte>, w: nat)
    requires 1 <= w < |r| && !Prunable(r, Signed(r) >= 0)
    ensures !InBytes(Signed(r), w)
  {
    var n := |r|;
    PowGrows(w, n - 1);
    NumFront(r);
    NumFront(r[1..]);
    NumBound(r[1..]);
    NumBound(r[1..][1..]);
    TopBit(r);
    TopBit(r[1..]);
    NumBound(r);
    Outside(r[0], Num(r[1..]), Pow256(n - 1), Signed(r), r[1]);
  }

  lemma {:induction false} Outside(a: byte, rest: nat, p: nat, v: int, b: byte)
    requires p > rest && (b >= 128 <==> 2 * rest >= p)
    requires v == if a >= 128 then a * p + rest - 256 * p else a * p + rest
    requires !(v >= 0 && a == 0 && b < 128) && !(v < 0 && a == 255 && b >= 128)
    ensures 2 * v + p < 0 || 2 * v >= p
  {
    if a >= 128 {
      assert v == rest - (256 - a) * p;
      if a < 255 {
        AtLeast(256 - a - 1, p);
        assert (256 - a) * p == (256 - a - 1) * p + p;
      }
    } else if a > 0 {
      AtLeast(a, p);
    }
  }
}
