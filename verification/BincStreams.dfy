// Strings and integers through one encoder over a growing buffer, and back through one decoder over a cursor.
module BincStreams {
  import opened Bytes
  import opened ByteStreams
  import opened Binc
  import opened BincDrivers
  import opened BincSymbols
  import opened Common
  import opened TwosComplement

  datatype Item = Text(v: seq<byte>) | Int(i: int) | Uint(u: nat)

  // What the types of the program hold.
  predicate Writable(x: Item) {
    match x
    case Text(v) => IsString(v)
    case Int(i) => IsInt64(i)
    case Uint(u) => IsUint64(u)
  }

  predicate AllWritable(xs: seq<Item>) { forall x :: x in xs ==> Writable(x) }

  predicate SameKind(x: Item, y: Item) { x.Text? == y.Text? && x.Int? == y.Int? }

  predicate SameKinds(xs: seq<Item>, ys: seq<Item>) {
    |xs| == |ys| && forall i :: 0 <= i < |xs| ==> SameKind(xs[i], ys[i])
  }

  function ItemBytes(e: Enc, x: Item): seq<byte>
    requires Writable(x)
  {
    match x
    case Text(v) => SymbolBytes(e, v)
    case Int(i) => IntBytes(i)
    case Uint(u) => MagnitudeBytes(POS_INT, true, u)
  }

  function AfterItem(e: Enc, x: Item): Enc { if x.Text? then Written(e, x.v) else e }

  function ItemsBytes(e: Enc, xs: seq<Item>): seq<byte>
    requires AllWritable(xs)
    decreases |xs|
  {
    if xs == [] then [] else assert xs[0] in xs; ItemBytes(e, xs[0]) + ItemsBytes(AfterItem(e, xs[0]), xs[1..])
  }

  datatype Got = Got(x: Item, table: Dec, rest: seq<byte>)

  // The caller says what it expects.
  function ReadItem(kind: Item, d: Dec, bs: seq<byte>): Result<Got> {
    if bs == [] then Err(EndOfData)
    else
      match kind
      case Text(_) => (
        var t :- StringOf(d, bs[0], bs[1..]);
        Ok(Got(Text(t.text), t.table, t.rest))
      )
      case Int(_) => (
        var t :- ReadInt(bs[0], bs[1..], 0);
        Ok(Got(Int(t.0), d, t.1))
      )
      case Uint(_) => (
        var t :- ReadUnsigned(bs[0], bs[1..], 0);
        Ok(Got(Uint(t.0), d, t.1))
      )
  }

  function ReadItems(kinds: seq<Item>, d: Dec, bs: seq<byte>): Result<(seq<Item>, seq<byte>)>
    decreases |kinds|
  {
    if kinds == [] then Ok(([], bs))
    else
      var x :- ReadItem(kinds[0], d, bs);
      var r :- ReadItems(kinds[1..], x.table, x.rest);
      Ok(([x.x] + r.0, r.1))
  }

  // ----- What comes back -----

  function Texts(xs: seq<Item>): seq<seq<byte>>
    decreases |xs|
  {
    if xs == [] then [] else (if xs[0].Text? then [xs[0].v] else []) + Texts(xs[1..])
  }

  // An integer whose magnitude starts with bytes that pruning takes for a sign.
  predicate IsDamaged(x: Item) { x.Int? && -0xffff_ffff <= x.i <= -0xff80_0000 }

  predicate NoneDamaged(xs: seq<Item>) { forall x :: x in xs ==> !IsDamaged(x) }

  // What the strings that have a number become with an item.
  function AfterNumbered(f: seq<seq<byte>>, x: Item): seq<seq<byte>> { if x.Text? then Numbered(f, x.v) else f }

  predicate Kept(f: seq<seq<byte>>, x: Item) { if x.Text? then Recent(f, x.v) else !IsDamaged(x) }

  lemma {:induction false} ItemBack(e: Enc, d: Dec, f: seq<seq<byte>>, x: Item, kind: Item, rest: seq<byte>)
    requires InStep(e, d, f) && Writable(x) && SameKind(x, kind)
    ensures var r := ReadItem(kind, d, ItemBytes(e, x) + rest);
      && r.Ok? && r.value.rest == rest && SameKind(r.value.x, kind)
      && InStep(AfterItem(e, x), r.value.table, AfterNumbered(f, x))
      && (r.value.x == x <==> Kept(f, x))
  {
    match x
    case Text(v) => TextBack(e, d, f, v, rest);
    case Int(i) => IntRoundTripIff(i, rest);
    case Uint(u) => UintRoundTrip(u, rest);
  }

  lemma {:induction false} TextBack(e: Enc, d: Dec, f: seq<seq<byte>>, v: seq<byte>, rest: seq<byte>)
    requires InStep(e, d, f) && IsString(v)
    ensures var r := ReadItem(Text(v), d, SymbolBytes(e, v) + rest);
      && r.Ok? && r.value.rest == rest && InStep(Written(e, v), r.value.table, Numbered(f, v))
      && r.value.x.Text? && (r.value.x.v == v <==> Recent(f, v))
  {
    SymbolBack(e, d, f, v, rest);
    HeadFirst(SymbolBytes(e, v) + rest);
  }

  lemma {:induction false} HeadFirst(bs: seq<byte>)
    requires TakeNum(bs, 1).Ok?
    ensures bs != [] && TakeNum(bs, 1) == Ok((bs[0], bs[1..]))
  {
    NumFront([bs[0]]);
    assert bs[..1] == [bs[0]];
  }

  lemma {:induction false} RecentFirst(f: seq<seq<byte>>, xs: seq<Item>)
    requires xs != []
    ensures RecentStream(f, Texts(xs)) && NoneDamaged(xs) <==>
      Kept(f, xs[0]) && RecentStream(AfterNumbered(f, xs[0]), Texts(xs[1..])) && NoneDamaged(xs[1..])
  {
    assert xs == [xs[0]] + xs[1..];
    if xs[0].Text? {
      assert Texts(xs)[0] == xs[0].v && Texts(xs)[1..] == Texts(xs[1..]);
    } else {
      assert Texts(xs) == Texts(xs[1..]);
    }
  }

  lemma {:induction false} ReadFirstItem(kinds: seq<Item>, d: Dec, bs: seq<byte>, got: Got,
                                         r: (seq<Item>, seq<byte>))
    requires kinds != [] && ReadItem(kinds[0], d, bs) == Ok(got) && ReadItems(kinds[1..], got.table, got.rest) == Ok(r)
    ensures ReadItems(kinds, d, bs) == Ok(([got.x] + r.0, r.1))
  {}

  lemma {:induction false} FirstBack(e: Enc, d: Dec, f: seq<seq<byte>>, xs: seq<Item>, kinds: seq<Item>,
                                     rest: seq<byte>)
    returns (got: Got)
    requires InStep(e, d, f) && AllWritable(xs) && SameKinds(xs, kinds) && xs != []
    ensures AllWritable(xs[1..]) && SameKinds(xs[1..], kinds[1..])
    ensures ReadItem(kinds[0], d, ItemsBytes(e, xs) + rest) == Ok(got)
    ensures got.rest == ItemsBytes(AfterItem(e, xs[0]), xs[1..]) + rest && (got.x == xs[0] <==> Kept(f, xs[0]))
    ensures InStep(AfterItem(e, xs[0]), got.table, AfterNumbered(f, xs[0]))
  {
    ItemsFirst(e, xs, rest);
    ItemBack(e, d, f, xs[0], kinds[0], ItemsBytes(AfterItem(e, xs[0]), xs[1..]) + rest);
    got := ReadItem(kinds[0], d, ItemsBytes(e, xs) + rest).value;
  }

  lemma {:induction false} ItemsFirst(e: Enc, xs: seq<Item>, rest: seq<byte>)
    requires AllWritable(xs) && xs != []
    ensures Writable(xs[0]) && AllWritable(xs[1..])
    ensures ItemsBytes(e, xs) + rest == ItemBytes(e, xs[0]) + (ItemsBytes(AfterItem(e, xs[0]), xs[1..]) + rest)
  {
    assert xs[0] in xs;
    Reassociate(ItemBytes(e, xs[0]), ItemsBytes(AfterItem(e, xs[0]), xs[1..]), rest);
  }

  // The first item and the others.
  lemma {:induction false} ItemsStep(f: seq<seq<byte>>, xs: seq<Item>, kinds: seq<Item>, d: Dec, bs: seq<byte>,
                                     got: Got, r: (seq<Item>, seq<byte>))
    requires xs != [] && kinds != [] && ReadItem(kinds[0], d, bs) == Ok(got) && (got.x == xs[0] <==> Kept(f, xs[0]))
    requires ReadItems(kinds[1..], got.table, got.rest) == Ok(r)
    requires r.0 == xs[1..] <==>
      RecentStream(AfterNumbered(f, xs[0]), Texts(xs[1..])) && NoneDamaged(xs[1..])
    ensures ReadItems(kinds, d, bs) == Ok(([got.x] + r.0, r.1))
    ensures [got.x] + r.0 == xs <==> RecentStream(f, Texts(xs)) && NoneDamaged(xs)
  {
    ReadFirstItem(kinds, d, bs, got, r);
    RecentFirst(f, xs);
    SplitEqual(xs, got.x, r.0);
  }

  // A stream is always consumed exactly, and comes back as it was exactly when every repeated string is recent and no
  // integer is damaged.
  lemma {:induction false} ItemsRoundTripIff(e: Enc, d: Dec, f: seq<seq<byte>>, xs: seq<Item>, kinds: seq<Item>,
                                             rest: seq<byte>)
    requires InStep(e, d, f) && AllWritable(xs) && SameKinds(xs, kinds)
    ensures var r := ReadItems(kinds, d, ItemsBytes(e, xs) + rest);
      && r.Ok? && |r.value.0| == |xs| && r.value.1 == rest
      && (r.value.0 == xs <==> RecentStream(f, Texts(xs)) && NoneDamaged(xs))
    decreases |xs|
  {
    if xs == [] {
      assert [] + rest == rest;
    } else {
      var got := FirstBack(e, d, f, xs, kinds, rest);
      ItemsRoundTripIff(AfterItem(e, xs[0]), got.table, AfterNumbered(f, xs[0]), xs[1..], kinds[1..], rest);
      ItemsStep(f, xs, kinds, d, ItemsBytes(e, xs) + rest, got, ReadItems(kinds[1..], got.table, got.rest).value);
    }
  }

  // ----- One encoder and one decoder -----

  method WriteItem(e: BincEncDriver, x: Item)
    requires e.w.Valid() && Writable(x)
    modifies e, e.w, e.w.b
    ensures e.w.Valid() && (e.w.b == old(e.w.b) || fresh(e.w.b)) && e.Table() == AfterItem(old(e.Table()), x)
    ensures e.w.Contents() == old(e.w.Contents()) + ItemBytes(old(e.Table()), x)
  {
    match x
    case Text(v) => e.EncodeSymbol(v);
    case Int(i) => e.EncodeInt(i);
    case Uint(u) => e.EncodeUint(u);
  }

  method WriteItems(e: BincEncDriver, xs: seq<Item>)
    requires e.w.Valid() && AllWritable(xs)
    modifies e, e.w, e.w.b
    ensures e.w.Valid() && (e.w.b == old(e.w.b) || fresh(e.w.b))
    ensures e.w.Contents() == old(e.w.Contents()) + ItemsBytes(old(e.Table()), xs)
  {
    ghost var all := e.w.Contents() + ItemsBytes(e.Table(), xs);
    for i := 0 to |xs|
      invariant e.w.Valid() && (e.w.b == old(e.w.b) || fresh(e.w.b))
      invariant e.w.Contents() + ItemsBytes(e.Table(), xs[i..]) == all
    {
      assert xs[i] in xs && xs[i..][0] == xs[i] && xs[i..][1..] == xs[i + 1..];
      Reassociate(e.w.Contents(), ItemBytes(e.Table(), xs[i]), ItemsBytes(AfterItem(e.Table(), xs[i]), xs[i + 1..]));
      WriteItem(e, xs[i]);
    }
    assert xs[|xs|..] == [] && e.w.Contents() + [] == e.w.Contents();
  }

  method ReadOne(d: BincDecDriver, kind: Item) returns (res: Result<Item>)
    requires d.Valid() && !d.bdRead
    modifies d, d.r, d.b
    ensures d.Valid()
    ensures var t := ReadItem(kind, old(d.m), old(d.r.Rest()));
      if t.Ok? then res == Ok(t.value.x) && d.m == t.value.table && d.r.Rest() == t.value.rest && !d.bdRead
      else res == Err(t.error)
  {
    ghost var bs := d.r.Rest();
    var bd :- d.InitReadNext();
    assert bs[0] == bd && bs[1..] == d.r.Rest();
    match kind
    case Text(_) =>
      var v :- d.DecodeString();
      res := Ok(Text(v));
    case Int(_) =>
      var i :- d.DecodeInt(0);
      res := Ok(Int(i));
    case Uint(_) =>
      var u :- d.DecodeUint(0);
      res := Ok(Uint(u));
  }

  function Prefixed(xs: seq<Item>, r: Result<(seq<Item>, seq<byte>)>): Result<(seq<Item>, seq<byte>)> {
    if r.Ok? then Ok((xs + r.value.0, r.value.1)) else r
  }

  lemma {:induction false} ReadOneMore(kinds: seq<Item>, xs: seq<Item>, d: Dec, bs: seq<byte>)
    requires kinds != []
    ensures Prefixed(xs, ReadItems(kinds, d, bs)) ==
      var x := ReadItem(kinds[0], d, bs);
      if x.Ok? then Prefixed(xs + [x.value.x], ReadItems(kinds[1..], x.value.table, x.value.rest)) else Err(x.error)
  {
    var x := ReadItem(kinds[0], d, bs);
    if x.Ok? {
      var r := ReadItems(kinds[1..], x.value.table, x.value.rest);
      if r.Ok? {
        Reassociate(xs, [x.value.x], r.value.0);
      }
    }
  }

  method ReadAll(d: BincDecDriver, kinds: seq<Item>) returns (res: Result<seq<Item>>)
    requires d.Valid() && !d.bdRead
    modifies d, d.r, d.b
    ensures d.Valid()
    ensures var t := ReadItems(kinds, old(d.m), old(d.r.Rest()));
      if t.Ok? then res == Ok(t.value.0) && d.r.Rest() == t.value.1 else res == Err(t.error)
  {
    var xs := [];
    ghost var whole := ReadItems(kinds, d.m, d.r.Rest());
    assert whole == Prefixed(xs, ReadItems(kinds[0..], d.m, d.r.Rest())) by {
      assert kinds[0..] == kinds;
      if whole.Ok? {
        assert [] + whole.value.0 == whole.value.0;
      }
    }
    for i := 0 to |kinds|
      invariant d.Valid() && !d.bdRead
      invariant whole == Prefixed(xs, ReadItems(kinds[i..], d.m, d.r.Rest()))
    {
      assert kinds[i..][1..] == kinds[i + 1..];
      ReadOneMore(kinds[i..], xs, d.m, d.r.Rest());
      var x :- ReadOne(d, kinds[i]);
      xs := xs + [x];
    }
    assert kinds[|kinds|..] == [] && xs + [] == xs;
    res := Ok(xs);
  }

  method EncodeItems(xs: seq<Item>, capacity: nat) returns (data: seq<byte>)
    requires AllWritable(xs)
    ensures data == ItemsBytes(START, xs)
  {
    var w := new BytesEncWriter(capacity);
    var e := new BincEncDriver(w);
    WriteItems(e, xs);
    data := w.b[..w.c];
  }

  method DecodeItems(data: seq<byte>, kinds: seq<Item>) returns (res: Result<seq<Item>>)
    ensures var t := ReadItems(kinds, map[], data); res == if t.Ok? then Ok(t.value.0) else Err(t.error)
  {
    var r := new BytesDecReader(data);
    var d := new BincDecDriver(r);
    res := ReadAll(d, kinds);
  }

  // Whatever is written comes out as as many items, and as the same ones exactly when every string that is repeated
  // is one of the last 65536 that were numbered, and no integer is damaged.
  method Transfer(xs: seq<Item>, kinds: seq<Item>, capacity: nat) returns (res: Result<seq<Item>>)
    requires AllWritable(xs) && SameKinds(xs, kinds)
    ensures res.Ok? && |res.value| == |xs|
    ensures res.value == xs <==> RecentStream([], Texts(xs)) && NoneDamaged(xs)
  {
    var data := EncodeItems(xs, capacity);
    ItemsRoundTripIff(START, map[], [], xs, kinds, []);
    assert data + [] == data;
    res := DecodeItems(data, kinds);
  }
}
