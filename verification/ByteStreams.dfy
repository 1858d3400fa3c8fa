// The growing buffer that the codecs write to, and the cursor they read with.
module ByteStreams {
  import opened Bytes

  // What stops a decoder.
  datatype Failure = EndOfData | TooFew | BadDescriptor | Negative | Overflow

  datatype Result<+T> = Ok(value: T) | Err(error: Failure) {
    predicate IsFailure() { Err? }

    function PropagateFailure<U>(): Result<U>
      requires Err?
    {
      Err(error)
    }

    function Extract(): T
      requires Ok?
    {
      value
    }
  }

  // ----- Writing -----

  class BytesEncWriter {
    var b: array<byte>  // as long as the capacity
    var len: nat        // of the slice
    var c: nat          // the cursor

    ghost predicate Valid()
      reads this
    {
      c <= len <= b.Length
    }

    // What was written.
    ghost function Contents(): (s: seq<byte>)
      requires Valid()
      reads this, b
    {
      b[..c]
    }

    constructor (capacity: nat)
      ensures Valid() && Contents() == [] && fresh(b)
    {
      b, len, c := new byte[capacity](_ => 0), capacity, 0;
    }

    // Room for n more bytes behind what was written.
    method Grow(n: nat) returns (oldCursor: nat)
      requires Valid()
      modifies this
      ensures Valid() && (b == old(b) || fresh(b))
      ensures oldCursor == old(c) && c == oldCursor + n && b[..oldCursor] == old(Contents())
    {
      oldCursor := c;
      if oldCursor + n > b.Length {
        var bs := new byte[2 * b.Length + n](_ => 0);
        forall i | 0 <= i < oldCursor {
          bs[i] := b[i];
        }
        b, len := bs, 2 * b.Length + n;
      } else if oldCursor + n > len {
        len := b.Length;
      }
      c := oldCursor + n;
    }

    method Writen1(b1: byte)
      requires Valid()
      modifies this, b
      ensures Valid() && (b == old(b) || fresh(b)) && Contents() == old(Contents()) + [b1]
    {
      var k := Grow(1);
      b[k] := b1;
    }

    method Writen2(b1: byte, b2: byte)
      requires Valid()
      modifies this, b
      ensures Valid() && (b == old(b) || fresh(b)) && Contents() == old(Contents()) + [b1, b2]
    {
      var k := Grow(2);
      b[k] := b1;
      b[k + 1] := b2;
    }

    // The low w bytes of a number; the program spells this out for two, four and eight bytes.
    method WriteUint(v: nat, w: nat)
      requires Valid()
      modifies this, b
      ensures Valid() && (b == old(b) || fresh(b)) && Contents() == old(Contents()) + BE(v, w)
    {
      var k := Grow(w);
      forall i | 0 <= i < w {
        b[k + i] := v / Pow256(w - 1 - i) % 256;
      }
      Spelled(v, b[k..c]);
      assert Contents() == b[..k] + b[k..c];
    }

    method Writeb(s: seq<byte>)
      requires Valid()
      modifies this, b
      ensures Valid() && (b == old(b) || fresh(b)) && Contents() == old(Contents()) + s
    {
      if |s| == 0 {
        return;
      }
      var k := Grow(|s|);
      forall i | 0 <= i < |s| {
        b[k + i] := s[i];
      }
      assert b[k..c] == s;
      assert Contents() == b[..k] + b[k..c];
    }
  }

  lemma {:induction false} Spelled(v: nat, s: seq<byte>)
    requires forall i :: 0 <= i < |s| ==> s[i] == v / Pow256(|s| - 1 - i) % 256
    ensures s == BE(v, |s|)
  {
    forall i | 0 <= i < |s|
      ensures s[i] == BE(v, |s|)[i]
    {
      BEAt(v, |s|, i);
    }
  }

  // ----- Reading -----

  // The first n bytes and the rest, or the error of the cursor.
  function Take(bs: seq<byte>, n: nat): (r: Result<(seq<byte>, seq<byte>)>)
    ensures r.Ok? ==> |r.value.0| == n
  {
    if n == 0 then Ok(([], bs))
    else if bs == [] then Err(EndOfData)
    else if n > |bs| then Err(TooFew)
    else Ok((bs[..n], bs[n..]))
  }

  function TakeNum(bs: seq<byte>, n: nat): Result<(nat, seq<byte>)>
  {
    var r :- Take(bs, n);
    Ok((Num(r.0), r.1))
  }

  // What was written in front comes back, and the rest is left.
  lemma {:induction false} TakeBack(s: seq<byte>, rest: seq<byte>)
    ensures Take(s + rest, |s|) == Ok((s, rest))
  {
    if s == [] {
      assert s + rest == rest;
    }
  }

  // So many bytes are taken exactly when there are as many, and otherwise it tells whether there were any.
  lemma TakesIff(bs: seq<byte>, n: nat)
    ensures Take(bs, n).Ok? <==> n <= |bs|
    ensures Take(bs, n).Err? ==> Take(bs, n).error == if bs == [] then EndOfData else TooFew
    ensures Take(bs, n).Ok? ==> bs == Take(bs, n).value.0 + Take(bs, n).value.1
  {}

  lemma {:induction false} TakeNumBack(v: nat, w: nat, rest: seq<byte>)
    requires v < Pow256(w)
    ensures TakeNum(BE(v, w) + rest, w) == Ok((v, rest))
  {
    NumBE(v, w);
    TakeBack(BE(v, w), rest);
  }

  class BytesDecReader {
    const b: seq<byte>  // the data
    var c: nat          // the cursor
    var a: nat          // how much is available

    ghost predicate Valid()
      reads this
    {
      c + a == |b|
    }

    ghost function Rest(): seq<byte>
      requires Valid()
      reads this
    {
      b[c..]
    }

    constructor (data: seq<byte>)
      ensures Valid() && Rest() == data
    {
      b, c, a := data, 0, |data|;
    }

    method Consume(n: nat) returns (r: Result<nat>)
      requires Valid()
      modifies this
      ensures Valid()
      ensures if a == old(a) == 0 then r == Err(EndOfData) && c == old(c)
        else if n > old(a) then r == Err(TooFew) && c == old(c)
        else r == Ok(old(c)) && c == old(c) + n
    {
      if a == 0 {
        return Err(EndOfData);
      }
      if n > a {
        return Err(TooFew);
      }
      r := Ok(c);
      c := c + n;
      a := a - n;
    }

    method Readn(n: nat) returns (r: Result<seq<byte>>)
      requires Valid()
      modifies this
      ensures Valid()
      ensures var t := Take(old(Rest()), n);
        if t.Ok? then r == Ok(t.value.0) && Rest() == t.value.1 else r == Err(t.error) && Rest() == old(Rest())
    {
      if n <= 0 {
        return Ok([]);
      }
      var c0 :- Consume(n);
      assert old(Rest())[..n] == b[c0..c] && old(Rest())[n..] == b[c..];
      r := Ok(b[c0..c]);
    }

    // Fills a buffer from a position on; what is before it stays.
    method Readb(dst: array<byte>, at: nat) returns (r: Result<nat>)
      requires Valid() && at <= dst.Length
      modifies this, dst
      ensures Valid() && dst[..at] == old(dst[..at])
      ensures var t := Take(old(Rest()), dst.Length - at);
        if t.Ok? then r == Ok(dst.Length - at) && dst[at..] == t.value.0 && Rest() == t.value.1
        else r == Err(t.error) && Rest() == old(Rest())
    {
      var s :- Readn(dst.Length - at);
      Copy(dst, at, s);
      r := Ok(|s|);
    }

    // A big-endian number of one, two, four or eight bytes.
    method ReadUint(w: nat) returns (r: Result<nat>)
      requires Valid() && w > 0
      modifies this
      ensures Valid()
      ensures var t := TakeNum(old(Rest()), w);
        if t.Ok? then r == Ok(t.value.0) && Rest() == t.value.1 else r == Err(t.error) && Rest() == old(Rest())
    {
      var c0 :- Consume(w);
      assert old(Rest())[..w] == b[c0..c] && old(Rest())[w..] == b[c..];
      r := Ok(Num(b[c0..c]));
    }
  }

  // ----- What the formats share -----

  predicate IsInt64(i: int) { -0x8000_0000_0000_0000 <= i < 0x8000_0000_0000_0000 }

  predicate IsUint64(u: int) { 0 <= u < 0x1_0000_0000_0000_0000 }

  // One, two, four or eight bytes.
  function Width(k: nat): nat
    requires k < 4
  {
    if k == 0 then 1 else if k == 1 then 2 else if k == 2 then 4 else 8
  }

  lemma {:induction false} Behind(bd: byte, body: seq<byte>, rest: seq<byte>)
    ensures ([bd] + body + rest)[0] == bd && ([bd] + body + rest)[1..] == body + rest
  {}

  lemma {:induction false} Single(bd: byte, rest: seq<byte>)
    ensures ([bd] + rest)[0] == bd && ([bd] + rest)[1..] == rest
  {}
}
