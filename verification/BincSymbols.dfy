// Strings as symbols: the first time a string is written it gets a number, later only the number is written.
// Writer and reader each keep a table of the numbers.
module BincSymbols {
  import opened Bytes
  import opened ByteStreams
  import opened Common
  import opened TwosComplement
  import Binc

  // The writer's table and the counter from which the numbers, of 16 bits, are taken.
  datatype Enc = Enc(m: map<seq<byte>, uint16>, s: uint32)

  // The reader's table.
  type Dec = map<nat, seq<byte>>

  const START := Enc(map[], 0)

  // ----- Writing -----

  function NextNumber(e: Enc): uint16 { (e.s + 1) % 0x1_0000_0000 % 0x1_0000 }

  // How the length is spelled: in one, two, four or eight bytes.
  function LenPrec(l: nat): nat {
    if l <= 0xff then 0 else if l <= 0xffff then 1 else if l <= 0xffff_ffff then 2 else 3
  }

  function Head(bits: nat, ui: nat): seq<byte>
    requires bits < 8 && ui < 0x1_0000
  {
    if ui <= 0xff then [Binc.SYMBOL + bits, ui] else [Binc.SYMBOL + 8 + bits] + BE(ui, 2)
  }

  function SymbolBytes(e: Enc, v: seq<byte>): seq<byte>
  {
    if |v| < 2 then [Binc.STRING + 4 + |v|] + v
    else if v in e.m then Head(0, e.m[v])
    else Head(4 + LenPrec(|v|), NextNumber(e)) + BE(|v|, Width(LenPrec(|v|))) + v
  }

  function Written(e: Enc, v: seq<byte>): Enc {
    if |v| < 2 || v in e.m then e else Enc(e.m[v := NextNumber(e)], (e.s + 1) % 0x1_0000_0000)
  }

  // ----- Reading -----

  datatype Symbol = Symbol(text: seq<byte>, table: Dec, rest: seq<byte>)

  // The text behind a length; a length that is negative as a signed number counts as none.
  function ReadText(bs: seq<byte>, width: nat): Result<(seq<byte>, seq<byte>)>
    requires 1 <= width <= 8
  {
    var l :- TakeNum(bs, width);
    var n := Wrapped(l.0, 8);
    Take(l.1, if n < 0 then 0 else n)
  }

  // What follows a descriptor byte.
  function StringOf(d: Dec, bd: nat, bs: seq<byte>): Result<Symbol> {
    var vd, vs := bd - bd % 16, bd % 16;
    if vd == Binc.STRING || vd == Binc.BYTE_ARRAY then
      var l :- Binc.ReadLen(vs, bs);
      var t :- Take(l.1, l.0);
      Ok(Symbol(t.0, d, t.1))
    else if vd == Binc.SYMBOL then
      var n :- TakeNum(bs, if vs / 8 == 0 then 1 else 2);
      if vs / 4 % 2 == 0 then Ok(Symbol(if n.0 in d then d[n.0] else [], d, n.1))
      else
        var t :- ReadText(n.1, Width(vs % 4));
        Ok(Symbol(t.0, d[n.0 := t.0], t.1))
    else Err(BadDescriptor)
  }

  function ReadString(d: Dec, bs: seq<byte>): Result<Symbol> {
    var h :- TakeNum(bs, 1);
    StringOf(d, h.0, h.1)
  }

  // ----- One string -----

  // What Go's lengths allow.
  predicate IsString(v: seq<byte>) { |v| < 0x8000_0000_0000_0000 }

  lemma {:induction false} HeadBack(bits: nat, ui: nat, rest: seq<byte>)
    requires bits < 8 && ui < 0x1_0000
    ensures var h := TakeNum(Head(bits, ui) + rest, 1);
      && h.Ok? && h.value.0 / 16 == 11 && h.value.0 % 8 == bits
      && TakeNum(h.value.1, if h.value.0 % 16 / 8 == 0 then 1 else 2) == Ok((ui, rest))
  {
    SmallPowers();
    if ui <= 0xff {
      var b: byte := Binc.SYMBOL + bits;
      HeadTail(b, [ui], rest);
      TakeBack([ui], rest);
      NumFront([ui]);
      assert [b] + [ui] == [b, ui];
    } else {
      HeadTail(Binc.SYMBOL + 8 + bits, BE(ui, 2), rest);
      TakeNumBack(ui, 2, rest);
    }
  }

  lemma {:induction false} HeadTail(b: byte, body: seq<byte>, rest: seq<byte>)
    ensures TakeNum([b] + body + rest, 1) == Ok((b, body + rest))
  {
    assert [b] + body + rest == [b] + (body + rest);
    TakeBack([b], body + rest);
    NumFront([b]);
  }

  lemma {:induction false} TextBack(v: seq<byte>, rest: seq<byte>)
    requires IsString(v)
    ensures ReadText(BE(|v|, Width(LenPrec(|v|))) + (v + rest), Width(LenPrec(|v|))) == Ok((v, rest))
  {
    SmallPowers();
    TakeNumBack(|v|, Width(LenPrec(|v|)), v + rest);
    TakeBack(v, rest);
  }

  // A string of at most one byte,
  lemma {:induction false} ShortBack(d: Dec, v: seq<byte>, rest: seq<byte>)
    requires |v| < 2
    ensures ReadString(d, [Binc.STRING + 4 + |v|] + v + rest) == Ok(Symbol(v, d, rest))
  {
    HeadTail(Binc.STRING + 4 + |v|, v, rest);
    TakeBack(v, rest);
  }

  // one of up to 65535 bytes that is written in full, without a number,
  lemma {:induction false} PlainBack(d: Dec, kind: byte, v: seq<byte>, rest: seq<byte>)
    requires kind in {Binc.STRING, Binc.BYTE_ARRAY} && |v| <= 0xffff
    ensures ReadString(d, Binc.LenBytes(kind, |v|) + (v + rest)) == Ok(Symbol(v, d, rest))
  {
    var t := Binc.LenBytes(kind, |v|) + (v + rest);
    Binc.LenRoundTripIff(kind, |v|, v + rest);
    TakeBack(v, rest);
    NumFront([t[0]]);
    assert t == [t[0]] + t[1..];
    TakeBack([t[0]], t[1..]);
  }

  // one that is new,
  lemma {:induction false} NewBack(d: Dec, v: seq<byte>, ui: nat, rest: seq<byte>)
    requires IsString(v) && ui < 0x1_0000
    ensures ReadString(d, Head(4 + LenPrec(|v|), ui) + BE(|v|, Width(LenPrec(|v|))) + v + rest)
      == Ok(Symbol(v, d[ui := v], rest))
  {
    var p := LenPrec(|v|);
    var h, l := Head(4 + p, ui), BE(|v|, Width(p));
    var bs, text := h + l + v + rest, l + (v + rest);
    assert bs == h + text;
    HeadBack(4 + p, ui, text);
    TextBack(v, rest);
    var hd := TakeNum(bs, 1);
    ReadNew(d, bs, hd.value.0, hd.value.1, ui, text, v, rest, p);
  }

  // Reading step by step: the head, the number, the text.
  lemma {:induction false} ReadNew(d: Dec, bs: seq<byte>, hd: nat, afterHead: seq<byte>, ui: nat,
                                   afterNumber: seq<byte>, v: seq<byte>, rest: seq<byte>, p: nat)
    requires TakeNum(bs, 1) == Ok((hd, afterHead)) && hd / 16 == 11 && hd % 8 == 4 + p && p < 4
    requires TakeNum(afterHead, if hd % 16 / 8 == 0 then 1 else 2) == Ok((ui, afterNumber))
    requires ReadText(afterNumber, Width(p)) == Ok((v, rest))
    ensures ReadString(d, bs) == Ok(Symbol(v, d[ui := v], rest))
  {
    assert hd - hd % 16 == Binc.SYMBOL && hd % 16 / 4 % 2 == 1 && hd % 16 % 4 == p;
  }

  // and one that was written before: what the reader's table says.
  lemma {:induction false} OldBack(d: Dec, ui: nat, rest: seq<byte>)
    requires ui < 0x1_0000
    ensures ReadString(d, Head(0, ui) + rest) == Ok(Symbol(if ui in d then d[ui] else [], d, rest))
  {
    HeadBack(0, ui, rest);
    var hd := TakeNum(Head(0, ui) + rest, 1);
    ReadOld(d, Head(0, ui) + rest, hd.value.0, hd.value.1, ui, rest);
  }

  lemma {:induction false} ReadOld(d: Dec, bs: seq<byte>, hd: nat, afterHead: seq<byte>, ui: nat, rest: seq<byte>)
    requires TakeNum(bs, 1) == Ok((hd, afterHead)) && hd / 16 == 11 && hd % 8 == 0
    requires TakeNum(afterHead, if hd % 16 / 8 == 0 then 1 else 2) == Ok((ui, rest))
    ensures ReadString(d, bs) == Ok(Symbol(if ui in d then d[ui] else [], d, rest))
  {
    assert hd - hd % 16 == Binc.SYMBOL && hd % 16 / 4 % 2 == 0;
  }

  // What the numbers are for: a string that has one takes no more than three bytes, and leaves the table alone.
  lemma RepeatIsShort(e: Enc, v: seq<byte>)
    requires v in e.m && |v| >= 2
    ensures |SymbolBytes(e, v)| <= 3 && Written(e, v) == e
  {}

  // ----- Whole streams -----

  function StreamBytes(e: Enc, vs: seq<seq<byte>>): seq<byte>
    decreases |vs|
  {
    if vs == [] then [] else SymbolBytes(e, vs[0]) + StreamBytes(Written(e, vs[0]), vs[1..])
  }

  function ReadStream(n: nat, d: Dec, bs: seq<byte>): Result<(seq<seq<byte>>, seq<byte>)>
    decreases n
  {
    if n == 0 then Ok(([], bs))
    else
      var x :- ReadString(d, bs);
      var r :- ReadStream(n - 1, x.table, x.rest);
      Ok(([x.text] + r.0, r.1))
  }

  // The strings that have got a number, in order.
  function Numbered(f: seq<seq<byte>>, v: seq<byte>): seq<seq<byte>> { if |v| < 2 || v in f then f else f + [v] }

  // Writer and reader keep step: number k + 1 belongs to string k, and the reader knows the last 65536 of them.
  ghost predicate InStep(e: Enc, d: Dec, f: seq<seq<byte>>) {
    && NoDuplicates(f)
    && e.s == |f| % 0x1_0000_0000
    && (forall v :: v in e.m <==> v in f)
    && (forall k :: 0 <= k < |f| ==> e.m[f[k]] == (k + 1) % 0x1_0000)
    && (forall k :: 0 <= k < |f| && |f| - k <= 0x1_0000 ==> Holds(d, (k + 1) % 0x1_0000, f[k]))
  }

  predicate Holds(d: Dec, ui: nat, v: seq<byte>) { ui in d && d[ui] == v }

  // The string is not a repetition, or one of the last 65536 strings that got a number.
  predicate Recent(f: seq<seq<byte>>, v: seq<byte>) {
    |v| < 2 || v !in f || exists k :: 0 <= k < |f| && f[k] == v && |f| - k <= 0x1_0000
  }

  predicate RecentStream(f: seq<seq<byte>>, vs: seq<seq<byte>>)
    decreases |vs|
  {
    vs == [] || (Recent(f, vs[0]) && RecentStream(Numbered(f, vs[0]), vs[1..]))
  }

  lemma {:induction false} Apart(a: nat, b: nat)
    requires 0 < b - a < 0x1_0000
    ensures a % 0x1_0000 != b % 0x1_0000
  {}

  // The last number below n that agrees with k in its lower 16 bits.
  function LastAlike(k: nat, n: nat): (k': nat)
    requires k < n
    ensures k <= k' < n <= k' + 0x1_0000 && (k' + 1) % 0x1_0000 == (k + 1) % 0x1_0000
    ensures k' == k <==> n - k <= 0x1_0000
    decreases n - k
  {
    if n - k <= 0x1_0000 then k else LastAlike(k + 0x1_0000, n)
  }

  // A repetition: the reader finds the string, or another one that took over its number.
  lemma {:induction false} Found(e: Enc, d: Dec, f: seq<seq<byte>>, k: nat)
    requires InStep(e, d, f) && k < |f|
    ensures var ui := (k + 1) % 0x1_0000; ui in d && (d[ui] == f[k] <==> |f| - k <= 0x1_0000)
  {
    var k' := LastAlike(k, |f|);
    assert Holds(d, (k' + 1) % 0x1_0000, f[k']);
    if |f| - k > 0x1_0000 {
      assert k < k';
    }
  }

  // A new string takes the next number.
  lemma {:induction false} Added(e: Enc, d: Dec, f: seq<seq<byte>>, v: seq<byte>)
    requires InStep(e, d, f) && v !in f && |v| >= 2
    ensures NextNumber(e) == (|f| + 1) % 0x1_0000
    ensures InStep(Written(e, v), d[NextNumber(e) := v], f + [v])
  {
    var g, d', e' := f + [v], d[NextNumber(e) := v], Written(e, v);
    NumberIs(|f|);
    forall k | 0 <= k < |g| && |g| - k <= 0x1_0000
      ensures Holds(d', (k + 1) % 0x1_0000, g[k])
    {
      if k < |f| {
        assert Holds(d, (k + 1) % 0x1_0000, f[k]);
        Apart(k + 1, |f| + 1);
      }
    }
    forall k | 0 <= k < |g|
      ensures e'.m[g[k]] == (k + 1) % 0x1_0000
    {
      if k < |f| {
        assert e.m[f[k]] == (k + 1) % 0x1_0000;
      }
    }
  }

  lemma {:induction false} NumberIs(n: nat)
    ensures (n % 0x1_0000_0000 + 1) % 0x1_0000_0000 == (n + 1) % 0x1_0000_0000
    ensures (n + 1) % 0x1_0000_0000 % 0x1_0000 == (n + 1) % 0x1_0000
  {
    var a, r := n / 0x1_0000_0000, n % 0x1_0000_0000;
    if r + 1 < 0x1_0000_0000 {
      ModUnique(n + 1, 0x1_0000_0000, a, r + 1);
    } else {
      ModUnique(n + 1, 0x1_0000_0000, a + 1, 0);
    }
    var b, t := (n + 1) / 0x1_0000_0000, (n + 1) % 0x1_0000_0000;
    ModUnique(n + 1, 0x1_0000, b * 0x1_0000 + t / 0x1_0000, t % 0x1_0000);
  }

  lemma {:induction false} SymbolBack(e: Enc, d: Dec, f: seq<seq<byte>>, v: seq<byte>, rest: seq<byte>)
    requires InStep(e, d, f) && IsString(v)
    ensures var r := ReadString(d, SymbolBytes(e, v) + rest);
      && r.Ok? && r.value.rest == rest && InStep(Written(e, v), r.value.table, Numbered(f, v))
      && (r.value.text == v <==> Recent(f, v))
  {
    if |v| < 2 {
      ShortBack(d, v, rest);
    } else if v in f {
      var k :| 0 <= k < |f| && f[k] == v;
      OldBack(d, e.m[v], rest);
      Found(e, d, f, k);
      assert forall j :: 0 <= j < |f| && f[j] == v ==> j == k;
    } else {
      Added(e, d, f, v);
      NewBack(d, v, NextNumber(e), rest);
    }
  }

  predicate Strings(vs: seq<seq<byte>>) { forall v :: v in vs ==> IsString(v) }

  // A stream is always consumed exactly, and comes back as it was exactly when every repetition is recent.
  lemma {:induction false} StreamRoundTripIff(e: Enc, d: Dec, f: seq<seq<byte>>, vs: seq<seq<byte>>, rest: seq<byte>)
    requires InStep(e, d, f) && Strings(vs)
    ensures var r := ReadStream(|vs|, d, StreamBytes(e, vs) + rest);
      && r.Ok? && |r.value.0| == |vs| && r.value.1 == rest
      && (r.value.0 == vs <==> RecentStream(f, vs))
    decreases |vs|
  {
    if vs == [] {
      assert [] + rest == rest;
    } else {
      var v, e' := vs[0], Written(e, vs[0]);
      assert v in vs;
      var more := StreamBytes(e', vs[1..]) + rest;
      assert StreamBytes(e, vs) + rest == SymbolBytes(e, v) + more;
      SymbolBack(e, d, f, v, more);
      var x := ReadString(d, SymbolBytes(e, v) + more).value;
      StreamRoundTripIff(e', x.table, Numbered(f, v), vs[1..], rest);
      var r := ReadStream(|vs| - 1, x.table, more).value;
      ReadFirst(|vs|, d, StreamBytes(e, vs) + rest, x, r);
      SplitEqual(vs, x.text, r.0);
    }
  }

  lemma {:induction false} ReadFirst(n: nat, d: Dec, bs: seq<byte>, x: Symbol, r: (seq<seq<byte>>, seq<byte>))
    requires n > 0 && ReadString(d, bs) == Ok(x) && ReadStream(n - 1, x.table, x.rest) == Ok(r)
    ensures ReadStream(n, d, bs) == Ok(([x.text] + r.0, r.1))
  {}

  lemma {:induction false} SplitEqual<T>(vs: seq<T>, x: T, xs: seq<T>)
    requires vs != []
    ensures [x] + xs == vs <==> x == vs[0] && xs == vs[1..]
  {
    assert vs == [vs[0]] + vs[1..];
    if [x] + xs == vs {
      assert ([x] + xs)[0] == x && ([x] + xs)[1..] == xs;
    }
  }

  // In particular every stream of at most 65536 different strings of two bytes or more, from empty tables.
  lemma {:induction false} SymbolStreamRoundTrip(vs: seq<seq<byte>>, rest: seq<byte>)
    requires Strings(vs) && |set v | v in vs && |v| >= 2| <= 0x1_0000
    ensures ReadStream(|vs|, map[], StreamBytes(START, vs) + rest) == Ok((vs, rest))
  {
    StreamRoundTripIff(START, map[], [], vs, rest);
    FewAreRecent([], vs, set v | v in vs && |v| >= 2);
  }

  lemma {:induction false} FewAreRecent(f: seq<seq<byte>>, vs: seq<seq<byte>>, all: set<seq<byte>>)
    requires NoDuplicates(f) && (forall v :: v in f ==> v in all) && |all| <= 0x1_0000
    requires forall v :: v in vs && |v| >= 2 ==> v in all
    ensures RecentStream(f, vs)
    decreases |vs|
  {
    if vs == [] {
    } else {
      NoMoreThan(f, all);
      var v := vs[0];
      assert v in vs;
      if v in f {
        var k :| 0 <= k < |f| && f[k] == v;
      }
      FewAreRecent(Numbered(f, v), vs[1..], all);
    }
  }

  lemma {:induction false} NoMoreThan(f: seq<seq<byte>>, all: set<seq<byte>>)
    requires NoDuplicates(f) && forall v :: v in f ==> v in all
    ensures |f| <= |all|
    decreases |f|
  {
    if f == [] {
    } else {
      var k := |f| - 1;
      forall v | v in f[..k]
        ensures v in all - {f[k]}
      {
        assert v in f;
      }
      NoMoreThan(f[..k], all - {f[k]});
    }
  }
}
