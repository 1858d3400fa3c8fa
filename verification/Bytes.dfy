// Byte strings and the numbers they hold.
module Bytes {
  type byte = x: int | 0 <= x < 256
  type uint16 = x: int | 0 <= x < 0x1_0000
  type uint32 = x: int | 0 <= x < 0x1_0000_0000
  type uint64 = x: int | 0 <= x < 0x1_0000_0000_0000_0000

  function Pow256(n: nat): (p: nat)
    ensures p > 0
    decreases n
  {
    if n == 0 then 1 else 256 * Pow256(n - 1)
  }

  // The low w bytes of v, most significant first.
  function BE(v: nat, w: nat): (s: seq<byte>)
    ensures |s| == w
    decreases w
  {
    if w == 0 then [] else BE(v / 256, w - 1) + [v % 256]
  }

  // The number that the bytes spell, most significant first.
  function Num(s: seq<byte>): nat
    decreases |s|
  {
    if s == [] then 0 else Num(s[..|s| - 1]) * 256 + s[|s| - 1]
  }

  // The low w bytes of v, least significant first.
  function LE(v: nat, w: nat): (s: seq<byte>)
    ensures |s| == w
    decreases w
  {
    if w == 0 then [] else [v % 256] + LE(v / 256, w - 1)
  }

  function NumLE(s: seq<byte>): nat
    decreases |s|
  {
    if s == [] then 0 else s[0] + 256 * NumLE(s[1..])
  }

  lemma {:induction false} NumBE(v: nat, w: nat)
    requires v < Pow256(w)
    ensures Num(BE(v, w)) == v
    decreases w
  {
    if w == 0 {
    } else {
      NumBE(v / 256, w - 1);
      var s := BE(v / 256, w - 1);
      assert (s + [v % 256])[..w - 1] == s;
    }
  }

  lemma {:induction false} NumLELE(v: nat, w: nat)
    requires v < Pow256(w)
    ensures NumLE(LE(v, w)) == v
    decreases w
  {
    if w == 0 {
    } else {
      NumLELE(v / 256, w - 1);
      assert LE(v, w)[1..] == LE(v / 256, w - 1);
    }
  }

  lemma {:induction false} NumBound(s: seq<byte>)
    ensures Num(s) < Pow256(|s|)
    decreases |s|
  {
    if s == [] {
    } else {
      NumBound(s[..|s| - 1]);
    }
  }

  lemma {:induction false} BENum(s: seq<byte>)
    ensures BE(Num(s), |s|) == s
    decreases |s|
  {
    if s == [] {
    } else {
      BENum(s[..|s| - 1]);
      assert s == s[..|s| - 1] + [s[|s| - 1]];
    }
  }

  lemma {:induction false} NumAppend(s: seq<byte>, t: seq<byte>)
    ensures Num(s + t) == Num(s) * Pow256(|t|) + Num(t)
    decreases |t|
  {
    if t == [] {
      assert s + t == s;
    } else {
      var u := t[..|t| - 1];
      assert (s + t)[..|s + t| - 1] == s + u;
      NumAppend(s, u);
      calc {
        Num(s + t);
        (Num(s) * Pow256(|u|) + Num(u)) * 256 + t[|t| - 1];
        { Regroup(Num(s), Pow256(|u|)); }
        Num(s) * Pow256(|t|) + Num(u) * 256 + t[|t| - 1];
      }
    }
  }

  lemma Regroup(a: nat, b: nat)
    ensures (a * b) * 256 == a * (256 * b)
  {}

  // Only the low w bytes count.
  lemma {:induction false} BELow(v: nat, w: nat)
    ensures Num(BE(v, w)) == v % Pow256(w)
    decreases w
  {
    if w == 0 {
    } else {
      BELow(v / 256, w - 1);
      var s := BE(v / 256, w - 1);
      assert (s + [v % 256])[..w - 1] == s;
      ModSplit(v, Pow256(w - 1));
    }
  }

  lemma ModSplit(v: nat, p: nat)
    requires p > 0
    ensures v % (256 * p) == (v / 256 % p) * 256 + v % 256
  {
    var q, r := v / 256, v % 256;
    var a, b := q / p, q % p;
    assert v == 256 * (a * p + b) + r;
    assert v == a * (256 * p) + (256 * b + r) by { Regroup(a, p); }
    assert 0 <= 256 * b + r < 256 * p;
    ModUnique(v, 256 * p, a, 256 * b + r);
  }

  lemma ModUnique(v: int, m: int, a: int, r: int)
    requires m > 0 && 0 <= r < m && v == a * m + r
    ensures v % m == r && v / m == a
  {
    var a', r' := v / m, v % m;
    assert v == a' * m + r';
    assert (a - a') * m == r' - r && (a' - a) * m == r - r';
    if a > a' {
      AtLeast(a - a', m);
    } else if a < a' {
      AtLeast(a' - a, m);
    }
  }

  lemma AtLeast(k: int, m: int)
    requires k >= 1 && m > 0
    ensures k * m >= m
  {}

  // Each byte on its own.
  lemma {:induction false} BEAt(v: nat, w: nat, i: nat)
    requires i < w
    ensures BE(v, w)[i] == v / Pow256(w - 1 - i) % 256
    decreases w
  {
    if i < w - 1 {
      BEAt(v / 256, w - 1, i);
      DivTwice(v, Pow256(w - 2 - i));
    } else {
      assert v / 1 == v;
    }
  }

  lemma {:induction false} DivTwice(v: nat, p: nat)
    requires p > 0
    ensures v / 256 / p == v / (256 * p)
  {
    var q, r := v / 256, v % 256;
    var a, b := q / p, q % p;
    assert v == 256 * (a * p + b) + r;
    Regroup(a, p);
    ModUnique(v, 256 * p, a, 256 * b + r);
  }

  lemma {:induction false} SmallPowers()
    ensures Pow256(1) == 0x100 && Pow256(2) == 0x1_0000 && Pow256(3) == 0x100_0000 && Pow256(4) == 0x1_0000_0000
    ensures Pow256(5) == 0x100_0000_0000 && Pow256(6) == 0x1_0000_0000_0000
    ensures Pow256(7) == 0x100_0000_0000_0000 && Pow256(8) == 0x1_0000_0000_0000_0000
  {
    assert Pow256(2) == 256 * Pow256(1);
    assert Pow256(4) == 256 * Pow256(3);
    assert Pow256(6) == 256 * Pow256(5);
  }

  // Go's copy into a buffer.
  method Copy(dst: array<byte>, at: nat, src: seq<byte>)
    requires at + |src| <= dst.Length
    modifies dst
    ensures dst[at..at + |src|] == src
    ensures forall k :: 0 <= k < at || at + |src| <= k < dst.Length ==> dst[k] == old(dst[k])
  {
    for k := 0 to |src|
      invariant dst[at..at + k] == src[..k]
      invariant forall j :: 0 <= j < at || at + k <= j < dst.Length ==> dst[j] == old(dst[j])
    {
      dst[at + k] := src[k];
    }
  }
}
