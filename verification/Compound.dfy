// Several gossip messages in one packet: a type byte, a count byte, a table of lengths, then the messages.
module Compound {
  import opened Bytes
  import opened Common

  const COMPOUND_MSG: byte := 7

  // What decoding answers: an error, or the messages found and the number of messages missing. A table that
  // is read past the end of the packet is kept apart: there the program reads what the buffer holds beyond.
  datatype Decoded = MissingCount | TruncatedTable | PastTheEnd | Parts(trunc: nat, parts: seq<seq<byte>>)

  function Table(msgs: seq<seq<byte>>): (t: seq<byte>)
    ensures |t| == 2 * |msgs|
    decreases |msgs|
  {
    if msgs == [] then [] else Table(msgs[..|msgs| - 1]) + BE(|msgs[|msgs| - 1]|, 2)
  }

  function Flat(msgs: seq<seq<byte>>): seq<byte>
    decreases |msgs|
  {
    if msgs == [] then [] else Flat(msgs[..|msgs| - 1]) + msgs[|msgs| - 1]
  }

  // What follows the type byte.
  function Framed(msgs: seq<seq<byte>>): seq<byte> {
    [|msgs| % 256] + Table(msgs) + Flat(msgs)
  }

  lemma OneMore(msgs: seq<seq<byte>>, i: nat)
    requires i < |msgs|
    ensures Table(msgs[..i + 1]) == Table(msgs[..i]) + BE(|msgs[i]|, 2)
    ensures Flat(msgs[..i + 1]) == Flat(msgs[..i]) + msgs[i]
  {
    assert msgs[..i + 1][..i] == msgs[..i];
  }

  method MakeCompoundMessage(msgs: seq<seq<byte>>) returns (buf: seq<byte>)
    ensures buf == [COMPOUND_MSG] + Framed(msgs)
  {
    buf := [COMPOUND_MSG];
    buf := buf + [|msgs| % 256];
    ghost var head := buf;
    for i := 0 to |msgs|
      invariant buf == head + Table(msgs[..i])
    {
      OneMore(msgs, i);
      Reassociate(head, Table(msgs[..i]), BE(|msgs[i]|, 2));
      buf := buf + BE(|msgs[i]|, 2);
    }
    assert msgs[..|msgs|] == msgs;
    Reassociate([COMPOUND_MSG], [|msgs| % 256], Table(msgs));
    Reassociate([COMPOUND_MSG], [|msgs| % 256] + Table(msgs), Flat(msgs));
    head := buf;
    for i := 0 to |msgs|
      invariant buf == head + Flat(msgs[..i])
    {
      OneMore(msgs, i);
      Reassociate(head, Flat(msgs[..i]), msgs[i]);
      buf := buf + msgs[i];
    }
  }

  // ----- Decoding -----

  function Lengths(table: seq<byte>, n: nat): (ls: seq<nat>)
    requires 2 * n <= |table|
    ensures |ls| == n
  {
    seq(n, i requires 0 <= i < n => Num(table[2 * i..2 * i + 2]))
  }

  function Split(ls: seq<nat>, buf: seq<byte>): Decoded
    decreases |ls|
  {
    if ls == [] then Parts(0, [])
    else if |buf| < ls[0] then Parts(|ls|, [])
    else
      var rest := Split(ls[1..], buf[ls[0]..]);
      if rest.Parts? then Parts(rest.trunc, [buf[..ls[0]]] + rest.parts) else rest
  }

  // The count is doubled in a single byte, both for the check and for the start of the messages.
  function Decode(buf: seq<byte>): Decoded {
    if |buf| < 1 then MissingCount
    else
      var n: nat, rest := buf[0], buf[1..];
      var skip := 2 * n % 256;
      if |rest| < skip then TruncatedTable
      else if |rest| < 2 * n then PastTheEnd
      else Split(Lengths(rest, n), rest[skip..])
  }

  lemma {:induction false} SplitIsParts(ls: seq<nat>, buf: seq<byte>)
    ensures Split(ls, buf).Parts?
    decreases |ls|
  {
    if ls != [] && |buf| >= ls[0] {
      SplitIsParts(ls[1..], buf[ls[0]..]);
    }
  }

  method DecodeCompoundMessage(packet: seq<byte>) returns (r: Decoded)
    ensures r == Decode(packet)
  {
    var buf := packet;
    if |buf| < 1 {
      return MissingCount;
    }
    var numParts: nat := buf[0];
    buf := buf[1..];
    if |buf| < 2 * numParts % 256 {
      return TruncatedTable;
    }
    if |buf| < 2 * numParts {
      return PastTheEnd;
    }
    var lengths: seq<nat> := [];
    for i := 0 to numParts
      invariant lengths == Lengths(buf, i)
    {
      lengths := lengths + [Num(buf[i * 2..i * 2 + 2])];
    }
    buf := buf[2 * numParts % 256..];
    ghost var whole := Split(lengths, buf);
    SplitIsParts(lengths, buf);
    var parts: seq<seq<byte>> := [];
    for idx := 0 to |lengths|
      invariant var rest := Split(lengths[idx..], buf);
        rest.Parts? && whole == Parts(rest.trunc, parts + rest.parts)
    {
      var msgLen := lengths[idx];
      assert lengths[idx..][1..] == lengths[idx + 1..];
      SplitIsParts(lengths[idx..], buf);
      if |buf| < msgLen {
        assert parts + [] == parts;
        return Parts(numParts - idx, parts);
      }
      SplitIsParts(lengths[idx + 1..], buf[msgLen..]);
      ghost var rest := Split(lengths[idx + 1..], buf[msgLen..]);
      assert parts + ([buf[..msgLen]] + rest.parts) == (parts + [buf[..msgLen]]) + rest.parts;
      parts := parts + [buf[..msgLen]];
      buf := buf[msgLen..];
    }
    assert parts + [] == parts;
    return Parts(0, parts);
  }

  // ----- Making and decoding -----

  function SizesMod(msgs: seq<seq<byte>>): (ls: seq<nat>)
    ensures |ls| == |msgs|
  {
    seq(|msgs|, i requires 0 <= i < |msgs| => |msgs[i]| % 65536)
  }

  lemma {:induction false} TableHoldsSizes(msgs: seq<seq<byte>>, tail: seq<byte>, i: nat)
    requires i < |msgs|
    ensures Num((Table(msgs) + tail)[2 * i..2 * i + 2]) == |msgs[i]| % 65536
    decreases |msgs|
  {
    var init, size := msgs[..|msgs| - 1], BE(|msgs[|msgs| - 1]|, 2);
    if i < |init| {
      TableHoldsSizes(init, size + tail, i);
      assert Table(init) + (size + tail) == Table(msgs) + tail;
    } else {
      assert (Table(msgs) + tail)[2 * i..2 * i + 2] == size;
      BELow(|msgs[i]|, 2);
    }
  }

  lemma {:induction false} LengthsOfTable(msgs: seq<seq<byte>>, tail: seq<byte>)
    ensures Lengths(Table(msgs) + tail, |msgs|) == SizesMod(msgs)
  {
    forall i | 0 <= i < |msgs|
      ensures Lengths(Table(msgs) + tail, |msgs|)[i] == SizesMod(msgs)[i]
    {
      TableHoldsSizes(msgs, tail, i);
    }
  }

  lemma {:induction false} FlatFront(msgs: seq<seq<byte>>)
    requires msgs != []
    ensures Flat(msgs) == msgs[0] + Flat(msgs[1..])
    decreases |msgs|
  {
    if |msgs| == 1 {
      assert msgs[..0] == [] && msgs[1..] == [];
    } else {
      var init := msgs[..|msgs| - 1];
      FlatFront(init);
      assert init[1..] == msgs[1..][..|msgs| - 2];
      assert (msgs[0] + Flat(init[1..])) + msgs[|msgs| - 1] == msgs[0] + (Flat(init[1..]) + msgs[|msgs| - 1]);
    }
  }

  predicate ShortMessages(msgs: seq<seq<byte>>) {
    forall m :: m in msgs ==> |m| <= 65535
  }

  lemma PrefixSplit(m: seq<byte>, rest: seq<byte>, bytes: seq<byte>)
    requires |bytes| >= |m| + |rest|
    ensures m + rest <= bytes <==> m == bytes[..|m|] && rest <= bytes[|m|..]
  {
    if m + rest <= bytes {
      assert forall i :: 0 <= i < |m| ==> m[i] == (m + rest)[i];
      assert forall i :: 0 <= i < |rest| ==> rest[i] == (m + rest)[|m| + i];
    }
    assert bytes == bytes[..|m|] + bytes[|m|..];
  }

  // Splitting long enough bytes by the sizes of the messages gives the messages exactly when the bytes begin
  // with them.
  lemma {:induction false} SplitBySizes(msgs: seq<seq<byte>>, bytes: seq<byte>)
    requires ShortMessages(msgs) && |bytes| >= |Flat(msgs)|
    ensures Split(SizesMod(msgs), bytes) == Parts(0, msgs) <==> Flat(msgs) <= bytes
    decreases |msgs|
  {
    if msgs == [] {
    } else {
      var m, rest := msgs[0], msgs[1..];
      TakeFirst(msgs);
      SizesFirst(msgs);
      SplitBySizes(rest, bytes[|m|..]);
      SplitIsParts(SizesMod(rest), bytes[|m|..]);
      PrefixSplit(m, Flat(rest), bytes);
      var d := Split(SizesMod(rest), bytes[|m|..]);
      assert Split(SizesMod(msgs), bytes) == Parts(d.trunc, [bytes[..|m|]] + d.parts);
      assert [bytes[..|m|]] + d.parts == [m] + rest <==> bytes[..|m|] == m && d.parts == rest by {
        assert ([bytes[..|m|]] + d.parts)[1..] == d.parts && ([m] + rest)[1..] == rest;
        assert ([bytes[..|m|]] + d.parts)[0] == bytes[..|m|];
      }
    }
  }

  lemma SizesFirst(msgs: seq<seq<byte>>)
    requires ShortMessages(msgs) && msgs != []
    ensures SizesMod(msgs)[0] == |msgs[0]| && SizesMod(msgs)[1..] == SizesMod(msgs[1..])
  {
    assert msgs[0] in msgs;
  }

  lemma {:induction false} TakeFirst(msgs: seq<seq<byte>>)
    requires ShortMessages(msgs) && msgs != []
    ensures msgs == [msgs[0]] + msgs[1..] && ShortMessages(msgs[1..])
    ensures Flat(msgs) == msgs[0] + Flat(msgs[1..])
  {
    FlatFront(msgs);
    assert forall i :: 0 <= i < |msgs| - 1 ==> msgs[1..][i] == msgs[i + 1] && msgs[i + 1] in msgs;
  }

  // Where decoding looks for the messages: after the table, or in it when the doubled count overflows.
  function Searched(msgs: seq<seq<byte>>): seq<byte>
    requires |msgs| <= 255
  {
    Table(msgs)[2 * |msgs| % 256..] + Flat(msgs)
  }

  lemma DecodeFramed(msgs: seq<seq<byte>>)
    requires |msgs| <= 255
    ensures Decode(Framed(msgs)) == Split(SizesMod(msgs), Searched(msgs))
  {
    var buf, rest := Framed(msgs), Table(msgs) + Flat(msgs);
    FramedIs(msgs);
    Head(|msgs|, Table(msgs), Flat(msgs));
    LengthsOfTable(msgs, Flat(msgs));
    SkipInTable(Table(msgs), Flat(msgs), 2 * |msgs| % 256);
    DecodeOf(buf, |msgs|, rest, 2 * |msgs| % 256, Searched(msgs));
  }

  lemma SkipInTable(t: seq<byte>, f: seq<byte>, skip: nat)
    requires skip <= |t|
    ensures (t + f)[skip..] == t[skip..] + f
  {}

  lemma {:induction false} SplitCount(ls: seq<nat>, buf: seq<byte>)
    ensures var d := Split(ls, buf); d.Parts? && d.trunc + |d.parts| == |ls|
    ensures var d := Split(ls, buf); forall i :: 0 <= i < |d.parts| ==> |d.parts[i]| == ls[i]
    decreases |ls|
  {
    if ls != [] && |buf| >= ls[0] {
      SplitCount(ls[1..], buf[ls[0]..]);
    }
  }

  // Decoding undoes making exactly when the lengths fit two bytes, the count fits one, and either the doubled
  // count does too or the messages happen to repeat the end of the table.
  lemma {:induction false} RoundTripIff(msgs: seq<seq<byte>>)
    ensures Decode(Framed(msgs)) == Parts(0, msgs) <==>
      ShortMessages(msgs) && |msgs| <= 255 && (|msgs| <= 127 || Flat(msgs) <= Searched(msgs))
  {
    if |msgs| > 255 {
      TooMany(msgs);
    } else if ShortMessages(msgs) {
      DecodeFramed(msgs);
      SplitBySizes(msgs, Searched(msgs));
      if |msgs| <= 127 {
        SearchedBehindTable(msgs);
      }
    } else {
      DecodeFramed(msgs);
      TooLong(msgs);
    }
  }

  lemma {:induction false} SearchedBehindTable(msgs: seq<seq<byte>>)
    requires |msgs| <= 127
    ensures Searched(msgs) == Flat(msgs)
  {
    BehindTable(|msgs|, Table(msgs), Flat(msgs));
  }

  lemma BehindTable(n: nat, t: seq<byte>, f: seq<byte>)
    requires n <= 127 && |t| == 2 * n
    ensures t[2 * n % 256..] + f == f && (t + f)[2 * n % 256..] == f
  {}

  lemma TooLong(msgs: seq<seq<byte>>)
    requires |msgs| <= 255 && !ShortMessages(msgs)
    ensures Split(SizesMod(msgs), Searched(msgs)) != Parts(0, msgs)
  {
    var m :| m in msgs && |m| > 65535;
    var i :| 0 <= i < |msgs| && msgs[i] == m;
    SplitCount(SizesMod(msgs), Searched(msgs));
    assert SizesMod(msgs)[i] != |m|;
  }

  lemma TooMany(msgs: seq<seq<byte>>)
    requires |msgs| > 255
    ensures Decode(Framed(msgs)) != Parts(0, msgs)
  {
    var buf := Framed(msgs);
    var n: nat := buf[0];
    if Decode(buf).Parts? {
      SplitCount(Lengths(buf[1..], n), buf[1..][2 * n % 256..]);
    }
  }

  // On a packet cut short behind the table: the longest prefix of whole messages that is left, and the number
  // that is missing.
  lemma CutKeepsWholeMessages(msgs: seq<seq<byte>>, cut: nat) returns (k: nat)
    requires ShortMessages(msgs) && |msgs| <= 127
    requires 1 + 2 * |msgs| <= cut <= |Framed(msgs)|
    ensures k <= |msgs| && Decode(Framed(msgs)[..cut]) == Parts(|msgs| - k, msgs[..k])
    ensures |Flat(msgs[..k])| <= cut - 1 - 2 * |msgs|
    ensures k < |msgs| ==> |Flat(msgs[..k + 1])| > cut - 1 - 2 * |msgs|
  {
    var c := cut - 1 - 2 * |msgs|;
    FramedIs(msgs);
    DecodeCut(msgs, cut, c);
    k := SplitCut(msgs, c);
  }

  lemma {:induction false} DecodeCut(msgs: seq<seq<byte>>, cut: nat, c: nat)
    requires |msgs| <= 127 && c <= |Flat(msgs)| && cut == 1 + 2 * |msgs| + c <= |Framed(msgs)|
    ensures Decode(Framed(msgs)[..cut]) == Split(SizesMod(msgs), Flat(msgs)[..c])
  {
    LengthsOfTable(msgs, Flat(msgs)[..c]);
    DecodeCutTable(|msgs|, Table(msgs), Flat(msgs), c, SizesMod(msgs));
    FramedIs(msgs);
  }

  lemma {:induction false} FramedIs(msgs: seq<seq<byte>>)
    requires |msgs| <= 255
    ensures Framed(msgs) == [|msgs|] + Table(msgs) + Flat(msgs)
  {
    assert |msgs| % 256 == |msgs|;
  }

  lemma {:induction false} DecodeCutTable(n: byte, t: seq<byte>, f: seq<byte>, c: nat, ls: seq<nat>)
    requires n <= 127 && |t| == 2 * n && c <= |f| && Lengths(t + f[..c], n) == ls
    ensures Decode(([n] + t + f)[..c + 1 + |t|]) == Split(ls, f[..c])
  {
    CutBehind(n, t, f, c);
    DecodeTable(n, t, f[..c]);
  }

  lemma CutBehind(n: byte, t: seq<byte>, f: seq<byte>, c: nat)
    requires c <= |f|
    ensures ([n] + t + f)[..c + 1 + |t|] == [n] + t + f[..c]
  {}

  lemma {:induction false} DecodeTable(n: byte, t: seq<byte>, body: seq<byte>)
    requires n <= 127 && |t| == 2 * n
    ensures Decode([n] + t + body) == Split(Lengths(t + body, n), body)
  {
    Head(n, t, body);
    DecodeOf([n] + t + body, n, t + body, 2 * n, body);
  }

  lemma Head(n: byte, t: seq<byte>, body: seq<byte>)
    ensures var buf := [n] + t + body;
      buf[0] == n && buf[1..] == t + body && (t + body)[|t|..] == body
  {}

  lemma {:induction false} DecodeOf(buf: seq<byte>, n: nat, rest: seq<byte>, skip: nat, body: seq<byte>)
    requires |buf| >= 1 && buf[0] == n && buf[1..] == rest
    requires 2 * n <= |rest| && skip == 2 * n % 256 && rest[skip..] == body
    ensures Decode(buf) == Split(Lengths(rest, n), body)
  {}

  // On the first c bytes of the messages, the first k are whole and the next one is not.
  predicate CutAt(msgs: seq<seq<byte>>, c: nat, k: nat) {
    && k <= |msgs| && |Flat(msgs[..k])| <= c && (k < |msgs| ==> |Flat(msgs[..k + 1])| > c)
  }

  // Splitting what is left up to the cut finds those messages, and counts the others.
  predicate IsCut(msgs: seq<seq<byte>>, c: nat, k: nat)
    requires c <= |Flat(msgs)|
  {
    CutAt(msgs, c, k) && Split(SizesMod(msgs), Flat(msgs)[..c]) == Parts(|msgs| - k, msgs[..k])
  }

  lemma {:induction false} SplitCut(msgs: seq<seq<byte>>, c: nat) returns (k: nat)
    requires ShortMessages(msgs) && c <= |Flat(msgs)|
    ensures IsCut(msgs, c, k)
    decreases |msgs|
  {
    if msgs == [] {
      k := 0;
      NoMessages(msgs, c);
    } else {
      TakeFirst(msgs);
      var m, rest := msgs[0], msgs[1..];
      if c < |m| {
        k := 0;
        NoneWhole(msgs, c);
      } else {
        var j := SplitCut(rest, c - |m|);
        k := j + 1;
        CutOneMore(msgs, c, j);
      }
    }
  }

  lemma {:induction false} CutOneMore(msgs: seq<seq<byte>>, c: nat, j: nat)
    requires ShortMessages(msgs) && msgs != [] && |msgs[0]| <= c <= |Flat(msgs)|
    requires Flat(msgs) == msgs[0] + Flat(msgs[1..]) && IsCut(msgs[1..], c - |msgs[0]|, j)
    ensures IsCut(msgs, c, j + 1)
  {
    SplitCutStep(msgs, c, j);
    CutAtStep(msgs, c, j);
  }

  lemma {:induction false} NoMessages(msgs: seq<seq<byte>>, c: nat)
    requires msgs == [] && c <= |Flat(msgs)|
    ensures IsCut(msgs, c, 0)
  {}

  lemma {:induction false} NoneWhole(msgs: seq<seq<byte>>, c: nat)
    requires ShortMessages(msgs) && msgs != [] && c < |msgs[0]| && c <= |Flat(msgs)|
    ensures IsCut(msgs, c, 0)
  {
    SizesFirst(msgs);
    PrefixFlat(msgs, 1);
    assert msgs[..0] == [];
  }

  lemma CutAtStep(msgs: seq<seq<byte>>, c: nat, j: nat)
    requires msgs != [] && |msgs[0]| <= c && CutAt(msgs[1..], c - |msgs[0]|, j)
    ensures CutAt(msgs, c, j + 1)
  {
    PrefixFlat(msgs, j + 1);
    if j + 1 < |msgs| {
      PrefixFlat(msgs, j + 2);
    }
  }

  lemma {:induction false} SplitCutStep(msgs: seq<seq<byte>>, c: nat, j: nat)
    requires ShortMessages(msgs) && msgs != [] && |msgs[0]| <= c <= |Flat(msgs)|
    requires Flat(msgs) == msgs[0] + Flat(msgs[1..])
    requires j < |msgs|
    requires Split(SizesMod(msgs[1..]), Flat(msgs[1..])[..c - |msgs[0]|]) == Parts(|msgs| - 1 - j, msgs[1..][..j])
    ensures Split(SizesMod(msgs), Flat(msgs)[..c]) == Parts(|msgs| - (j + 1), msgs[..j + 1])
  {
    SizesFirst(msgs);
    CutFirst(msgs[0], Flat(msgs[1..]), c);
    SplitFirst(SizesMod(msgs), Flat(msgs)[..c], msgs[0], Flat(msgs[1..])[..c - |msgs[0]|],
               |msgs| - 1 - j, msgs[1..][..j]);
    PrefixFirst(msgs, j);
  }

  lemma PrefixFirst(msgs: seq<seq<byte>>, j: nat)
    requires j < |msgs|
    ensures msgs[..j + 1] == [msgs[0]] + msgs[1..][..j]
  {}

  lemma {:induction false} SplitFirst(ls: seq<nat>, buf: seq<byte>, first: seq<byte>, rest: seq<byte>,
                                      trunc: nat, parts: seq<seq<byte>>)
    requires ls != [] && |buf| >= ls[0] && buf[..ls[0]] == first && buf[ls[0]..] == rest
    requires Split(ls[1..], rest) == Parts(trunc, parts)
    ensures Split(ls, buf) == Parts(trunc, [first] + parts)
  {}

  lemma CutFirst(m: seq<byte>, f: seq<byte>, c: nat)
    requires |m| <= c <= |m| + |f|
    ensures (m + f)[..c][..|m|] == m && (m + f)[..c][|m|..] == f[..c - |m|]
  {}

  lemma PrefixFlat(msgs: seq<seq<byte>>, k: nat)
    requires 0 < k <= |msgs|
    ensures Flat(msgs[..k]) == msgs[0] + Flat(msgs[1..][..k - 1])
  {
    FlatFront(msgs[..k]);
    assert msgs[..k][1..] == msgs[1..][..k - 1];
  }

  lemma ShortTableIsAnError(msgs: seq<seq<byte>>, cut: nat)
    requires |msgs| <= 127 && cut < 1 + 2 * |msgs|
    ensures Decode(Framed(msgs)[..cut]) == if cut == 0 then MissingCount else TruncatedTable
  {
    if cut == 0 {
    } else {
      assert Framed(msgs)[..cut][0] == |msgs|;
    }
  }

  // Byte by byte, for any two messages shorter than 256.
  lemma SomeBytes(x: seq<byte>, y: seq<byte>)
    requires |x| < 256 && |y| < 256
    ensures Framed([x, y]) == [2, 0, |x|, 0, |y|] + (x + y)
  {
    TableOfTwo(x, y);
    FlatOfTwo(x, y);
    assert [2] + [0, |x|, 0, |y|] == [2, 0, |x|, 0, |y|];
  }

  lemma TableOfTwo(x: seq<byte>, y: seq<byte>)
    requires |x| < 256 && |y| < 256
    ensures Table([x, y]) == [0, |x|, 0, |y|]
  {
    assert [x, y][..1] == [x] && [x][..0] == [];
    assert Table([x]) == Table([]) + BE(|x|, 2);
    TwoBytes(|x|);
    TwoBytes(|y|);
  }

  lemma FlatOfTwo(x: seq<byte>, y: seq<byte>)
    ensures Flat([x, y]) == x + y
  {
    assert [x, y][..1] == [x] && [x][..0] == [];
    assert Flat([x]) == Flat([]) + x;
  }

  lemma {:induction false} TwoBytes(n: nat)
    requires n < 256
    ensures BE(n, 2) == [0, n]
  {
    assert BE(n / 256, 1) == BE(0, 0) + [0];
  }
}
