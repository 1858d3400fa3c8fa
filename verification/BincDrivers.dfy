// The objects that write and read the binc format.
module BincDrivers {
  import opened Bytes
  import opened ByteStreams
  import opened Shifts
  import opened TwosComplement
  import opened Binc
  import Symbols = BincSymbols

  class BincEncDriver {
    const w: BytesEncWriter
    var m: map<seq<byte>, uint16>  // symbols
    var s: uint32                  // symbols sequencer

    constructor (w: BytesEncWriter)
      ensures this.w == w && Table() == Symbols.START
    {
      this.w, m, s := w, map[], 0;
    }

    function Table(): Symbols.Enc
      reads this
    {
      Symbols.Enc(m, s)
    }

    // A descriptor byte and the bytes of a number.
    method Spell(bd: byte, v: nat, width: nat)
      requires w.Valid()
      modifies w, w.b
      ensures w.Valid() && (w.b == old(w.b) || fresh(w.b))
      ensures w.Contents() == old(w.Contents()) + ([bd] + BE(v, width))
    {
      w.Writen1(bd);
      w.WriteUint(v, width);
      assert w.Contents() == old(w.Contents()) + [bd] + BE(v, width);
    }

    method EncIntegerPrune(bd: byte, pos: bool, v: nat, lim: nat)
      requires w.Valid() && bd <= 0xf0 && 1 <= lim <= 8
      modifies w, w.b
      ensures w.Valid() && (w.b == old(w.b) || fresh(w.b))
      ensures w.Contents() == old(w.Contents()) + PrunedBytes(bd, pos, v, lim)
    {
      var b := BE(v, lim);
      var i := PruneSignExt(b, pos);
      w.Writen1(bd + lim - 1 - i);
      w.Writeb(b[i..]);
      assert w.Contents() == old(w.Contents()) + [bd + |b[i..]| - 1] + b[i..];
    }

    method EncUint(bd: byte, pos: bool, v: nat)
      requires w.Valid() && bd <= 0xf0 && IsUint64(v)
      modifies w, w.b
      ensures w.Valid() && (w.b == old(w.b) || fresh(w.b))
      ensures w.Contents() == old(w.Contents()) + MagnitudeBytes(bd, pos, v)
    {
      if v == 0 {
        w.Writen1(SP_ZERO);
      } else if pos && v >= 1 && v <= 16 {
        w.Writen1(SMALL_INT + v - 1);
      } else if v <= 0xff {
        w.Writen2(bd, v);
      } else if v <= 0xffff {
        Spell(bd + 1, v, 2);
      } else if v <= 0xffff_ffff {
        EncIntegerPrune(bd, pos, v, 4);
      } else {
        EncIntegerPrune(bd, pos, v, 8);
      }
    }

    method EncodeUint(v: nat)
      requires w.Valid() && IsUint64(v)
      modifies w, w.b
      ensures w.Valid() && (w.b == old(w.b) || fresh(w.b))
      ensures w.Contents() == old(w.Contents()) + MagnitudeBytes(POS_INT, true, v)
    {
      EncUint(POS_INT, true, v);
    }

    method EncodeInt(v: int)
      requires w.Valid() && IsInt64(v)
      modifies w, w.b
      ensures w.Valid() && (w.b == old(w.b) || fresh(w.b))
      ensures w.Contents() == old(w.Contents()) + IntBytes(v)
    {
      if v >= 0 {
        EncUint(POS_INT, true, v);
      } else if v == -1 {
        w.Writen1(SP_NEG_ONE);
      } else {
        EncUint(NEG_INT, false, -v);
      }
    }

    method EncLen(bd: byte, l: nat)
      requires w.Valid() && bd <= 0xf0 && IsUint64(l)
      modifies w, w.b
      ensures w.Valid() && (w.b == old(w.b) || fresh(w.b))
      ensures w.Contents() == old(w.Contents()) + LenBytes(bd, l)
    {
      if l < 12 {
        w.Writen1(bd + l + 4);
      } else if l <= 0xff {
        w.Writen2(bd, l);
      } else if l <= 0xffff {
        Spell(bd + 1, l, 2);
      } else if l <= 0xffff_ffff {
        Spell(bd + 2, l, 4);
      } else {
        Spell(bd + 3, l, 8);
      }
    }

    // The descriptor of a symbol and its number.
    method SymbolHead(bits: nat, ui: nat)
      requires w.Valid() && bits < 8 && ui < 0x1_0000
      modifies w, w.b
      ensures w.Valid() && (w.b == old(w.b) || fresh(w.b))
      ensures w.Contents() == old(w.Contents()) + Symbols.Head(bits, ui)
    {
      if ui <= 0xff {
        w.Writen2(SYMBOL + bits, ui);
      } else {
        Spell(SYMBOL + 8 + bits, ui, 2);
      }
    }

    method WriteSymbol(ui: nat, lenprec: nat, v: seq<byte>)
      requires w.Valid() && ui < 0x1_0000 && lenprec < 4
      modifies w, w.b
      ensures w.Valid() && (w.b == old(w.b) || fresh(w.b))
      ensures w.Contents() == old(w.Contents()) +
        (Symbols.Head(4 + lenprec, ui) + BE(|v|, Width(lenprec)) + v)
    {
      SymbolHead(4 + lenprec, ui);
      w.WriteUint(|v|, Width(lenprec));
      w.Writeb(v);
      Together(old(w.Contents()), Symbols.Head(4 + lenprec, ui), BE(|v|, Width(lenprec)), v);
    }

    method NewSymbol(v: seq<byte>)
      requires w.Valid() && Symbols.IsString(v)
      modifies this`m, this`s, w, w.b
      ensures w.Valid() && (w.b == old(w.b) || fresh(w.b))
      ensures var ui := Symbols.NextNumber(old(Table())); var p := Symbols.LenPrec(|v|);
        && Table() == Symbols.Enc(old(m)[v := ui], (old(s) + 1) % 0x1_0000_0000)
        && w.Contents() == old(w.Contents()) + (Symbols.Head(4 + p, ui) + BE(|v|, Width(p)) + v)
    {
      s := (s + 1) % 0x1_0000_0000;
      var ui := s % 0x1_0000;
      m := m[v := ui];
      var lenprec := Symbols.LenPrec(|v|);
      assert w.Contents() == old(w.Contents());
      WriteSymbol(ui, lenprec, v);
    }

    method EncodeSymbol(v: seq<byte>)
      requires w.Valid() && Symbols.IsString(v)
      modifies this`m, this`s, w, w.b
      ensures w.Valid() && (w.b == old(w.b) || fresh(w.b)) && Table() == Symbols.Written(old(Table()), v)
      ensures w.Contents() == old(w.Contents()) + Symbols.SymbolBytes(old(Table()), v)
    {
      if |v| == 0 {
        EncLen(STRING, 0);
        assert [STRING + 4] + v == [STRING + 4];
      } else if |v| == 1 {
        EncLen(STRING, 1);
        w.Writen1(v[0]);
        assert old(w.Contents()) + [STRING + 5] + [v[0]] == old(w.Contents()) + ([STRING + 5] + v);
      } else if v in m {
        SymbolHead(0, m[v]);
      } else {
        NewSymbol(v);
      }
    }
  }

  class BincDecDriver {
    const r: BytesDecReader
    var bdRead: bool
    var bd: byte
    var vd: nat
    var vs: nat
    const b: array<byte>        // scratch, shared by all calls
    var m: map<nat, seq<byte>>  // symbols

    ghost predicate Valid()
      reads this, r
    {
      r.Valid() && vd == bd / 16 && vs == bd % 16 && b.Length == 8
    }

    constructor (r: BytesDecReader)
      requires r.Valid()
      ensures Valid() && this.r == r && !bdRead && m == map[] && fresh(b)
    {
      this.r, bdRead, bd, vd, vs, m := r, false, 0, 0, 0, map[];
      b := new byte[8];
    }

    method InitReadNext() returns (res: Result<byte>)
      requires Valid()
      modifies this, r
      ensures Valid() && m == old(m)
      ensures if old(bdRead) then res == Ok(old(bd)) && bd == old(bd) && bdRead && r.Rest() == old(r.Rest())
        else if old(r.Rest()) == [] then res == Err(EndOfData) && r.Rest() == [] && !bdRead
        else res == Ok(bd) && [bd] + r.Rest() == old(r.Rest()) && bdRead
    {
      if bdRead {
        return Ok(bd);
      }
      var first :- r.Readn(1);
      bd := first[0];
      vd := bd / 16;
      vs := bd % 16;
      bdRead := true;
      res := Ok(bd);
    }

    // Three to eight bytes go to the end of the scratch buffer, and the bytes before them are cleared as far as
    // they are read: nothing that was in the buffer comes into the number.
    method DecUint() returns (res: Result<nat>)
      requires Valid()
      modifies r, b
      ensures Valid()
      ensures var t := ReadUint(vs, old(r.Rest()));
        if t.Ok? then res == Ok(t.value.0) && r.Rest() == t.value.1
        else res == Err(t.error) && r.Rest() == old(r.Rest())
    {
      if vs == 0 {
        res := r.ReadUint(1);
      } else if vs == 1 {
        var n :- r.Readb(b, 6);
        res := Ok(Num(b[6..]));
      } else if vs == 2 {
        b[4] := 0;
        var n :- r.Readb(b, 5);
        ClearedFront(b[4..], 1, b[5..]);
        res := Ok(Num(b[4..]));
      } else if vs == 3 {
        var n :- r.Readb(b, 4);
        res := Ok(Num(b[4..]));
      } else if vs <= 6 {
        res := DecLong(7 - vs);
      } else if vs == 7 {
        var n :- r.Readb(b, 0);
        assert b[0..] == b[..];
        res := Ok(Num(b[..]));
      } else {
        res := Err(BadDescriptor);
      }
    }

    method DecLong(lim: nat) returns (res: Result<nat>)
      requires Valid() && 1 <= lim <= 3
      modifies r, b
      ensures Valid()
      ensures var t := TakeNum(old(r.Rest()), 8 - lim);
        if t.Ok? then res == Ok(t.value.0) && r.Rest() == t.value.1
        else res == Err(t.error) && r.Rest() == old(r.Rest())
    {
      var n :- r.Readb(b, lim);
      ghost var p := b[lim..];
      for i := 0 to lim
        modifies b
        invariant forall j :: 0 <= j < i ==> b[j] == 0
        invariant b[lim..] == p
      {
        b[i] := 0;
      }
      ClearedFront(b[..], lim, p);
      res := Ok(Num(b[..]));
    }

    method DecLen() returns (res: Result<nat>)
      requires Valid()
      modifies r, b
      ensures Valid()
      ensures var t := ReadLen(vs, old(r.Rest()));
        if t.Ok? then res == Ok(t.value.0) && r.Rest() == t.value.1
        else res == Err(t.error) && r.Rest() == old(r.Rest())
    {
      if vs <= 3 {
        res := DecUint();
      } else {
        res := Ok(vs - 4);
      }
    }

    method DecIntAny() returns (res: Result<Integer>)
      requires Valid()
      modifies r, b
      ensures Valid()
      ensures var t := ReadIntAny(bd, old(r.Rest()));
        if t.Ok? then res == Ok(t.value.0) && r.Rest() == t.value.1 else res == Err(t.error)
    {
      if vd == 1 {
        var ui :- DecUint();
        return Ok(Integer(ui, Wrapped(ui, 8), false));
      }
      if vd == 2 {
        var ui :- DecUint();
        return Ok(Integer(ui, Negated(Wrapped(ui, 8)), true));
      }
      if vd == 9 {
        return Ok(Integer(vs + 1, vs + 1, false));
      }
      if vd == 0 && vs == 7 {
        return Ok(Integer(0, 0, false));
      }
      if vd == 0 && vs == 8 {
        return Ok(Integer(1, -1, true));
      }
      return Err(BadDescriptor);
    }

    method DecodeInt(bitsize: nat) returns (res: Result<int>)
      requires Valid() && bdRead && bitsize < 256
      modifies this`bdRead, r, b
      ensures Valid()
      ensures var t := ReadInt(bd, old(r.Rest()), bitsize);
        if t.Ok? then res == Ok(t.value.0) && r.Rest() == t.value.1 && !bdRead else res == Err(t.error)
    {
      var x :- DecIntAny();
      if bitsize > 0 && x.i != 0 && x.i != TruncInt(x.i, bitsize) {
        return Err(Overflow);
      }
      bdRead := false;
      res := Ok(x.i);
    }

    method DecodeUint(bitsize: nat) returns (res: Result<nat>)
      requires Valid() && bdRead && bitsize < 256
      modifies this`bdRead, r, b
      ensures Valid()
      ensures var t := ReadUnsigned(bd, old(r.Rest()), bitsize);
        if t.Ok? then res == Ok(t.value.0) && r.Rest() == t.value.1 && !bdRead else res == Err(t.error)
    {
      var x :- DecIntAny();
      if x.neg {
        return Err(Negative);
      }
      if bitsize > 0 && x.ui != 0 && x.ui != TruncUint(x.ui, bitsize) {
        return Err(Overflow);
      }
      bdRead := false;
      res := Ok(x.ui);
    }

    method ReadText(width: nat) returns (res: Result<seq<byte>>)
      requires Valid() && 1 <= width <= 8
      modifies r, b
      ensures Valid()
      ensures var t := Symbols.ReadText(old(r.Rest()), width);
        if t.Ok? then res == Ok(t.value.0) && r.Rest() == t.value.1 else res == Err(t.error)
    {
      var slen :- r.ReadUint(width);
      var n := Wrapped(slen, 8);
      res := r.Readn(if n < 0 then 0 else n);
    }

    method DecodeString() returns (res: Result<seq<byte>>)
      requires Valid() && bdRead
      modifies this`bdRead, this`m, r, b
      ensures Valid()
      ensures var t := Symbols.StringOf(old(m), bd, old(r.Rest()));
        if t.Ok? then res == Ok(t.value.text) && m == t.value.table && r.Rest() == t.value.rest && !bdRead
        else res == Err(t.error) && m == old(m)
    {
      var s: seq<byte>;
      if vd == 4 || vd == 5 {
        var length :- DecLen();
        s :- r.Readn(length);
      } else if vd == 11 {
        var symbol :- r.ReadUint(if vs / 8 == 0 then 1 else 2);
        if vs / 4 % 2 == 0 {
          s := if symbol in m then m[symbol] else [];
        } else {
          s :- ReadText(Width(vs % 4));
          m := m[symbol := s];
        }
      } else {
        return Err(BadDescriptor);
      }
      bdRead := false;
      res := Ok(s);
    }
  }

  lemma Together(c: seq<byte>, h: seq<byte>, l: seq<byte>, v: seq<byte>)
    ensures c + h + l + v == c + (h + l + v)
  {}

  lemma {:induction false} ClearedFront(s: seq<byte>, k: nat, p: seq<byte>)
    requires k <= |s| && s[k..] == p && forall j :: 0 <= j < k ==> s[j] == 0
    ensures Num(s) == Num(p)
  {
    assert s == seq(k, _ => 0) + p;
    LeadingZeros(k, p);
  }
}
