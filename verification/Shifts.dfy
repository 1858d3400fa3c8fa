// The test by which decoders find out that a 64-bit number does not fit fewer bits: shift the upper bits out,
// shift back, and compare.
module Shifts {
  import opened Bytes
  import opened TwosComplement

  function Pow2(n: nat): (p: nat)
    ensures p > 0
    decreases n
  {
    if n == 0 then 1 else 2 * Pow2(n - 1)
  }

  // The number congruent to i modulo q that lies around 0.
  function Centred(i: int, q: nat): int
    requires q > 0
  {
    if 2 * (i % q) >= q then i % q - q else i % q
  }

  // Shifts of 64-bit numbers; the shift distance is itself a number of eight bits.
  function Distance(bits: nat): nat { (64 - bits) % 256 }

  function TruncUint(u: nat, bits: nat): int {
    var k := Distance(bits);
    if k >= 64 then 0 else u * Pow2(k) % Pow2(64) / Pow2(k)
  }

  function TruncInt(i: int, bits: nat): int {
    var k := Distance(bits);
    if k >= 64 then 0 else Centred(i * Pow2(k), Pow2(64)) / Pow2(k)
  }

  lemma {:induction false} Pow2Splits(a: nat, b: nat)
    ensures Pow2(a + b) == Pow2(a) * Pow2(b)
    decreases a
  {
    if a == 0 {
    } else {
      Pow2Splits(a - 1, b);
      Assoc(Pow2(a - 1), Pow2(b));
    }
  }

  lemma {:induction false} Assoc(a: nat, b: nat)
    ensures 2 * (a * b) == (2 * a) * b
  {}

  // Scaling a number up modulo p * q keeps it modulo q.
  lemma {:induction false} ScaledMod(x: int, p: nat, q: nat)
    requires p > 0 && q > 0 && p * q > 0
    ensures x * p % (p * q) == x % q * p
  {
    var a, r := x / q, x % q;
    assert x == a * q + r;
    calc {
      x * p;
      (a * q + r) * p;
      { MulOut(a, q, r, p); }
      a * (p * q) + r * p;
    }
    assert 0 <= r * p < p * q by { ScaledBelow(r, q, p); }
    ModUnique(x * p, p * q, a, r * p);
  }

  lemma {:induction false} MulOut(a: int, q: int, r: int, p: int)
    ensures (a * q + r) * p == a * (p * q) + r * p
  {
    assert (a * q) * p == a * (q * p);
  }

  lemma {:induction false} ScaledBelow(r: nat, q: nat, p: nat)
    requires r < q && p > 0
    ensures 0 <= r * p < p * q
  {
    assert (q - r) * p >= p by { AtLeast(q - r, p); }
  }

  lemma {:induction false} DivScaled(y: int, p: nat)
    requires p > 0
    ensures y * p / p == y
  {
    ModUnique(y * p, p, y, 0);
  }

  // The shift test fails exactly on what does not fit the bits.
  lemma {:induction false} UintTestIff(u: nat, bits: nat)
    requires 1 <= bits <= 64
    ensures u == TruncUint(u, bits) <==> u < Pow2(bits)
  {
    var q := Pow2(bits);
    Truncs(u, bits, Pow2(64 - bits), q);
    if u < q {
      ModUnique(u, q, 0, u);
    }
  }

  // Both shifts together keep the low bits.
  lemma {:induction false} Truncs(i: int, bits: nat, p: nat, q: nat)
    requires 1 <= bits <= 64 && p == Pow2(64 - bits) && q == Pow2(bits)
    ensures TruncInt(i, bits) == Centred(i, q)
    ensures i >= 0 ==> TruncUint(i, bits) == i % q
  {
    assert Distance(bits) == 64 - bits;
    Pow2Splits(64 - bits, bits);
    CentredScaled(i, p, q);
    ScaledMod(i, p, q);
    DivScaled(i % q, p);
  }

  lemma {:induction false} IntTestIff(i: int, bits: nat)
    requires 1 <= bits <= 64
    ensures i == TruncInt(i, bits) <==> 0 <= 2 * i + Pow2(bits) < 2 * Pow2(bits)
  {
    Truncs(i, bits, Pow2(64 - bits), Pow2(bits));
    CentredIff(i, Pow2(bits));
  }

  lemma {:induction false} CentredIff(i: int, q: nat)
    requires q > 0
    ensures i == Centred(i, q) <==> 0 <= 2 * i + q < 2 * q
  {
    if 0 <= 2 * i + q < 2 * q {
      ModUnique(i, q, if i < 0 then -1 else 0, if i < 0 then i + q else i);
    }
  }

  lemma {:induction false} CentredScaled(i: int, p: nat, q: nat)
    requires p > 0 && q > 0 && p * q > 0
    ensures Centred(i * p, p * q) / p == Centred(i, q)
  {
    ScaledMod(i, p, q);
    UpperHalf(i % q, p, q);
    assert (i % q - q) * p == i % q * p - p * q;
    DivScaled(Centred(i, q), p);
  }

  lemma {:induction false} UpperHalf(r: nat, p: nat, q: nat)
    requires p > 0
    ensures 2 * (r * p) >= p * q <==> 2 * r >= q
  {
    if 2 * r >= q {
      TimesMonotone(q, 2 * r, p);
    } else {
      AtLeast(q - 2 * r, p);
      assert (q - 2 * r) * p == p * q - 2 * (r * p);
    }
  }
}
