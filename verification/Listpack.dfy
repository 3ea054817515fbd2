/** Listpack entries: the writer of core/stream.go and the reader of core/listpack.go. */
module Listpack {
  import opened Bytes
  import opened Decimal
  import opened Strings
  import opened Hashes

  // listpackEntry: a string, or where that is empty the integer.
  datatype Item = Item(intVal: int64, strVal: bytes)

  function IntItem(v: int64): Item { Item(v, []) }
  function StrItem(s: bytes): Item { Item(0, s) }

  // ------------------------------------------------------------------ writing

  // encodeListPackInt
  function IntBytes(v: int64): (e: bytes)
    ensures 1 <= |e| <= 9
  {
    if -127 <= v <= 127 then [Unsigned(v, 0x100)]
    else if -8191 <= v <= 8191 then
      var u := if v < 0 then 8191 + v + 1 else v;
      [0xc0 + u / 256, u % 256]
    else if -32767 <= v <= 32767 then [0xf1] + LE(Unsigned(v, 0x1_0000), 2)
    else if -8388607 <= v <= 8388607 then [0xf2] + LE(Unsigned(v, 0x100_0000), 3)
    else if -2147483647 <= v <= 2147483647 then [0xf3] + LE(Unsigned(v, 0x1_0000_0000), 4)
    else [0xf4] + LE(Unsigned(v, TWO64), 8)
  }

  function StrHeader(n: nat): (e: bytes)
    ensures 1 <= |e| <= 5
  {
    if n <= 63 then [0x80 + n]
    else if n < 4096 then [0xe0 + n / 256, n % 256]
    else [0xf0] + LE(n, 4)
  }

  // encodeListPackString
  function StrBytes(s: bytes): (e: bytes)
    ensures |e| >= 1
  {
    StrHeader(|s|) + s
  }

  function Encoded(i: Item): (e: bytes)
    ensures |e| >= 1
  {
    if i.strVal != [] then StrBytes(i.strVal) else IntBytes(i.intVal)
  }

  // encodeBacklen
  function BacklenBytes(n: nat): bytes
    requires n < TWO32
  {
    if n <= 127 then [n]
    else if n < 0x3fff then [0x80 + n / 0x100, n % 0x100]
    else if n < 0x1f_ffff then [0xc0 + n / 0x1_0000, n / 0x100 % 0x100, n % 0x100]
    else if n < 0xfff_ffff then [0xe0 + n / 0x100_0000, n / 0x1_0000 % 0x100, n / 0x100 % 0x100, n % 0x100]
    else [0xf0, n / 0x100_0000, n / 0x1_0000 % 0x100, n / 0x100 % 0x100, n % 0x100]
  }

  // getBackLen
  function GetBackLen(n: nat): (k: nat)
    ensures 1 <= k <= 5
  {
    if n <= 127 then 1
    else if n < 0x3fff then 2
    else if n < 0x1f_ffff then 3
    else if n < 0xfff_ffff then 4
    else 5
  }

  // The reader skips as many bytes as the writer appended.
  lemma BacklenAgrees(n: nat)
    requires n < TWO32
    ensures |BacklenBytes(n)| == GetBackLen(n)
  {}

  // A back length is the size, high byte first, with its width marked in the first byte.
  lemma BacklenIs(n: nat)
    requires n < TWO32
    ensures FromBE(BacklenBytes(n)) == n + match GetBackLen(n)
      case 1 => 0
      case 2 => 0x8000
      case 3 => 0xc0_0000
      case 4 => 0xe000_0000
      case _ => 0xf0_0000_0000
  {
    hide FromBE;
    var e := BacklenBytes(n);
    BytesUp(e);
    HighBytes(n);
    assert Up(e, 1) == e[0];
    assert |e| >= 2 ==> Up(e, 2) == 256 * Up(e, 1) + e[1];
    assert |e| >= 3 ==> Up(e, 3) == 256 * Up(e, 2) + e[2];
    assert |e| >= 4 ==> Up(e, 4) == 256 * Up(e, 3) + e[3];
  }

  lemma HighBytes(n: nat)
    ensures n / 0x1_0000 == n / 0x100_0000 * 0x100 + n / 0x1_0000 % 0x100
    ensures n / 0x100 == n / 0x1_0000 * 0x100 + n / 0x100 % 0x100
    ensures n == n / 0x100 * 0x100 + n % 0x100
  {
    assert n / 0x1_0000 / 0x100 == n / 0x100_0000;
    assert n / 0x100 / 0x100 == n / 0x1_0000;
  }

  lemma BytesUp(e: bytes)
    requires 1 <= |e| <= 5
    ensures FromBE(e) == Up(e, |e|)
  {
    var k := |e| - 1;
    if k == 0 {
      assert e[..0] == [];
    } else {
      BytesUp(e[..k]);
      UpPrefix(e, e[..k], k);
    }
  }

  lemma UpPrefix(e: bytes, x: bytes, n: nat)
    requires 1 <= n <= 5 && n <= |x| && x <= e
    ensures Up(x, n) == Up(e, n)
  {}

  function Up(e: bytes, n: nat): nat
    requires 1 <= n <= 5 && n <= |e|
  {
    if n == 1 then e[0] else 256 * Up(e, n - 1) + e[n - 1]
  }

  // Sizes are 32-bit fields.
  predicate Fits(i: Item) { |i.strVal| + 5 < TWO32 }

  lemma EncodedFits(i: Item)
    requires Fits(i)
    ensures |Encoded(i)| < TWO32
  {}

  // An item with its back length.
  function Element(i: Item): (e: bytes)
    requires Fits(i)
    ensures |e| >= 2
  {
    EncodedFits(i);
    BacklenAgrees(|Encoded(i)|);
    Encoded(i) + BacklenBytes(|Encoded(i)|)
  }

  // Taking the last byte for the size, the start of the element that ends at q.
  function StepBack(b: bytes, q: nat): int
    requires 0 < q <= |b|
  {
    q - 1 - (b[q - 1] as int)
  }

  // A step back from behind an element finds its start exactly if its back length is a single byte: a
  // longer one has no mark in its last byte.
  lemma BackStep(b: bytes, p: nat, i: Item)
    requires Fits(i) && At(b, p, Element(i))
    ensures var q := p + |Element(i)|; q <= |b| && (StepBack(b, q) == p <==> |Encoded(i)| <= 127)
  {
    hide At, Encoded, BacklenBytes, GetBackLen;
    EncodedFits(i);
    var e, l := Encoded(i), BacklenBytes(|Encoded(i)|);
    BacklenAgrees(|e|);
    AtBound(b, p, e + l);
    AtIndex(b, p, e + l);
    assert (e + l)[|e + l| - 1] == l[|l| - 1];
    assert b[p + (|e + l| - 1)] == l[|l| - 1];
    LastByte(|e|);
  }

  lemma LastByte(n: nat)
    requires n < TWO32
    ensures var l := BacklenBytes(n); l != [] && l[|l| - 1] == n % 0x100 && (|l| == 1 <==> n <= 127)
  {}

  predicate AllFit(items: seq<Item>) { forall k :: 0 <= k < |items| ==> Fits(items[k]) }

  function Elements(items: seq<Item>): bytes
    requires AllFit(items)
  {
    if items == [] then [] else Element(items[0]) + Elements(items[1..])
  }

  function ListpackBytes(items: seq<Item>): bytes
    requires AllFit(items)
  {
    var body := Elements(items);
    LE(|body| + 6, 4) + LE(|items|, 2) + body
  }

  lemma {:induction false} ElementsConcat(xs: seq<Item>, ys: seq<Item>)
    requires AllFit(xs) && AllFit(ys)
    ensures AllFit(xs + ys) && Elements(xs + ys) == Elements(xs) + Elements(ys)
    decreases |xs|
  {
    hide Element, Fits;
    if xs == [] {
      assert xs + ys == ys;
    } else {
      assert (xs + ys)[1..] == xs[1..] + ys;
      ElementsConcat(xs[1..], ys);
    }
  }

  // ------------------------------------------------------------------ reading

  // The string content, or the integer.
  datatype Content = Str(s: bytes) | Int(v: int)

  // readListPackEntry; the cursor moves past the back length unchecked.
  function ReadItem(b: bytes, p: nat): (r: Res<Content>)
    ensures r.Ok? ==> p < r.next
  {
    if p >= |b| then Fail(UnexpectedEnd)
    else
      var h: int := b[p];
      if h / 64 <= 1 then Ok(Int(h), p + 1 + GetBackLen(1))
      else if h / 64 == 2 then ReadStr(b, p + 1, h % 64, 1)
      else if h / 16 == 12 || h / 16 == 13 then
        var (e, q) :- ReadBytes(b, p + 1, 1);
        var u := h % 32 * 256 + e[0];
        Ok(Int(if u >= 4096 then u - 8192 else u), q + GetBackLen(2))
      else if h / 16 == 14 then
        var (e, q) :- ReadBytes(b, p + 1, 1);
        ReadStr(b, q, h % 16 * 256 + e[0], 2)
      else ReadWide(b, p, h % 16)
  }

  function ReadStr(b: bytes, p: nat, n: nat, header: nat): (r: Res<Content>)
    ensures r.Ok? ==> p < r.next && r.value.Str?
  {
    var (s, q) :- ReadBytes(b, p, n);
    Ok(Str(s), q + GetBackLen(U32(header + n)))
  }

  // Headers 1111xxxx.
  function ReadWide(b: bytes, p: nat, x: nat): (r: Res<Content>)
    ensures r.Ok? ==> p < r.next
  {
    if x == 0 then
      var (e, q) :- ReadBytes(b, p + 1, 4);
      ReadStr(b, q, FromLE(e), 5)
    else if x == 1 then ReadIntItem(b, p + 1, 2)
    else if x == 2 then ReadIntItem(b, p + 1, 3)
    else if x == 3 then ReadIntItem(b, p + 1, 4)
    else if x == 4 then ReadIntItem(b, p + 1, 8)
    else Fail(Corrupt)
  }

  function ReadIntItem(b: bytes, p: nat, k: nat): (r: Res<Content>)
    ensures r.Ok? ==> p < r.next && r.value.Int?
  {
    var (e, q) :- ReadBytes(b, p, k);
    FromLEPow(e);
    Ok(Int(Signed(FromLE(e), Pow256(k))), q + GetBackLen(k + 1))
  }

  // readListPackEntryAsInt
  function ReadAsInt(b: bytes, p: nat): (r: Res<int>)
    ensures r.Ok? ==> p < r.next
  {
    var (c, q) :- ReadItem(b, p);
    if c.Int? then Ok(c.v, q) else Fail(Corrupt)
  }

  // readListPackEntryAsString
  function ReadAsString(b: bytes, p: nat): (r: Res<bytes>)
    ensures r.Ok? ==> p < r.next
  {
    var (c, q) :- ReadItem(b, p);
    Ok(if c.Str? then c.s else Itoa(c.v), q)
  }

  // ------------------------------------------------------------------ one item

  // Integers the 7-bit and 13-bit forms are written for but cannot hold.
  predicate Gap(v: int64) { -127 <= v <= -1 || -8191 <= v <= -4097 || 4096 <= v <= 8191 }

  // What the 13-bit reader makes of an integer.
  function Read13(v: int64): int {
    if 4096 <= v <= 8191 then v - 8192 else if -8191 <= v <= -4097 then v + 8192 else v
  }

  lemma ReadStrItem(b: bytes, p: nat, s: bytes)
    requires Fits(StrItem(s)) && s != [] && At(b, p, Element(StrItem(s)))
    ensures ReadItem(b, p) == Ok(Str(s), p + |Element(StrItem(s))|)
  {
    hide BacklenBytes, GetBackLen, StrHeader, At, ReadItem;
    var h := StrHeader(|s|);
    EncodedFits(StrItem(s));
    BacklenAgrees(|h + s|);
    AtConcat(b, p, h + s, BacklenBytes(|h + s|));
    AtConcat(b, p, h, s);
    ReadStrHeader(b, p, s);
  }

  lemma ReadStrHeader(b: bytes, p: nat, s: bytes)
    requires |s| + 5 < TWO32 && At(b, p, StrHeader(|s|)) && At(b, p + |StrHeader(|s|)|, s)
    ensures var k := |StrHeader(|s|)| + |s|; ReadItem(b, p) == Ok(Str(s), p + k + GetBackLen(k))
  {
    hide LE, FromLE, GetBackLen, At, ReadItem, ReadStr;
    var n := |s|;
    var h := StrHeader(n);
    AtBound(b, p, h);
    AtBound(b, p + |h|, s);
    AtSlice(b, p + |h|, s);
    AtIndex(b, p, h);
    assert b[p + 0] == h[0];
    if n < 4096 {
      if n > 63 { assert b[p + 1] == h[1]; }
      ShortHeader(b, p, n);
    } else {
      AtConcat(b, p, [0xf0], LE(n, 4));
      AtBound(b, p + 1, LE(n, 4));
      AtSlice(b, p + 1, LE(n, 4));
      FromLEofLE4(n);
      LongHeader(b, p, n);
    }
    ReadStrIs(b, p + |h|, s, |h|);
  }

  lemma ShortHeader(b: bytes, p: nat, n: nat)
    requires n < 4096 && p + |StrHeader(n)| <= |b|
    requires b[p] == StrHeader(n)[0] && (n > 63 ==> b[p + 1] == StrHeader(n)[1])
    ensures ReadItem(b, p) == ReadStr(b, p + |StrHeader(n)|, n, |StrHeader(n)|)
  {
    hide ReadStr, ReadWide, GetBackLen;
    if n > 63 { assert b[p + 1..p + 2] == [b[p + 1]]; }
  }

  lemma LongHeader(b: bytes, p: nat, n: nat)
    requires p + 5 <= |b| && b[p] == 0xf0 && FromLE(b[p + 1..p + 5]) == n
    ensures ReadItem(b, p) == ReadStr(b, p + 5, n, 5)
  {
    hide ReadStr, FromLE, GetBackLen, ReadIntItem;
  }

  lemma ReadStrIs(b: bytes, p: nat, s: bytes, header: nat)
    requires header + |s| < TWO32 && p + |s| <= |b| && b[p..p + |s|] == s
    ensures ReadStr(b, p, |s|, header) == Ok(Str(s), p + |s| + GetBackLen(header + |s|))
  {
    hide GetBackLen;
    ModUnique(header + |s|, TWO32, 0, header + |s|);
  }

  // Items of 16 bits and more: header, little-endian pattern, back length.
  lemma ReadWideItem(b: bytes, p: nat, v: int64, x: byte, k: nat)
    requires k in {2, 3, 4, 8} && x == 0xf0 + (if k == 2 then 1 else if k == 3 then 2 else if k == 4 then 3 else 4)
    requires -(Pow256(k) / 2) as int <= v < Pow256(k) / 2
    requires At(b, p, [x] + LE(Unsigned(v, Pow256(k)), k))
    ensures ReadItem(b, p) == Ok(Int(v), p + 1 + k + GetBackLen(k + 1))
  {
    hide LE, FromLE, GetBackLen, Unsigned, Signed;
    Powers();
    var n := Unsigned(v, Pow256(k));
    AtConcat(b, p, [x], LE(n, k));
    AtIndex(b, p, [x]);
    assert b[p + 0] == x;
    FromLEofLE(n, k);
    SmallMod(n, Pow256(k));
    SignedUnsigned(v, Pow256(k));
  }

  lemma ReadByteItem(b: bytes, p: nat)
    requires p < |b| && b[p] < 128
    ensures ReadItem(b, p) == Ok(Int(b[p]), p + 2)
  {}

  lemma ReadShortItem(b: bytes, p: nat, v: int64)
    requires -8191 <= v <= 8191 && !(-127 <= v <= 127) && p + 1 < |b|
    requires b[p] == IntBytes(v)[0] && b[p + 1] == IntBytes(v)[1]
    ensures ReadItem(b, p) == Ok(Int(Read13(v)), p + 2 + GetBackLen(2))
  {
    hide LE, ReadWide, ReadStr;
  }

  // An integer outside -127..-1 is read with the right width; only the 13-bit values beyond twelve
  // bits change.
  lemma ReadIntValue(b: bytes, p: nat, v: int64)
    requires !(-127 <= v <= -1) && At(b, p, Element(IntItem(v)))
    ensures ReadItem(b, p) == Ok(Int(Read13(v)), p + |Element(IntItem(v))|)
  {
    hide LE, BacklenBytes, ReadItem, At;
    var e := IntBytes(v);
    BacklenAgrees(|e|);
    AtConcat(b, p, e, BacklenBytes(|e|));
    AtBound(b, p, e);
    AtIndex(b, p, e);
    assert b[p + 0] == e[0];
    Powers();
    if -127 <= v <= 127 {
      ReadByteItem(b, p);
    } else if -8191 <= v <= 8191 {
      assert b[p + 1] == e[1];
      ReadShortItem(b, p, v);
    } else if -32767 <= v <= 32767 {
      ReadWideItem(b, p, v, 0xf1, 2);
    } else if -8388607 <= v <= 8388607 {
      ReadWideItem(b, p, v, 0xf2, 3);
    } else if -2147483647 <= v <= 2147483647 {
      ReadWideItem(b, p, v, 0xf3, 4);
    } else {
      ReadWideItem(b, p, v, 0xf4, 8);
    }
  }

  // -127..-1 is written as one byte that every reader takes for something else: whatever follows,
  // the integer read, if any, is congruent to 1 modulo 256.
  lemma ReadNegative(b: bytes, p: nat, v: int64)
    requires -127 <= v <= -1 && At(b, p, Element(IntItem(v)))
    ensures var r := ReadItem(b, p); r.Ok? && r.value.Int? ==> r.value.v % 256 == 1 && r.value.v != v
  {
    hide LE, ReadWide, At, GetBackLen, Element, U32;
    var e := [Unsigned(v, 0x100)] + [1];
    NegativeElement(v);
    AtBound(b, p, e);
    AtIndex(b, p, e);
    assert b[p + 0] == e[0] && b[p + 1] == e[1];
    if e[0] >= 0xf0 { NegativeWide(b, p); }
  }

  lemma NegativeWide(b: bytes, p: nat)
    requires p + 1 < |b| && b[p] >= 0xf0 && b[p + 1] == 1
    ensures var r := ReadWide(b, p, b[p] % 16); r.Ok? && r.value.Int? ==> r.value.v % 256 == 1
  {
    hide Signed, FromLE, GetBackLen, U32;
    var x := b[p] % 16;
    if 1 <= x <= 4 {
      var k := if x == 1 then 2 else if x == 2 then 3 else if x == 3 then 4 else 8;
      if p + 1 + k <= |b| { OneMod(b[p + 1..p + 1 + k]); }
    }
  }

  lemma NegativeElement(v: int64)
    requires -127 <= v <= -1
    ensures Element(IntItem(v)) == [Unsigned(v, 0x100)] + [1]
  {}

  lemma OneMod(e: bytes)
    requires |e| in {2, 3, 4, 8} && e[0] == 1
    ensures FromLE(e) < Pow256(|e|) && Signed(FromLE(e), Pow256(|e|)) % 256 == 1
  {
    hide Signed;
    FromLEPow(e);
    assert FromLE(e) == 1 + 256 * FromLE(e[1..]) && Pow256(|e|) == 256 * Pow256(|e| - 1);
    SignedMod(FromLE(e[1..]), Pow256(|e| - 1));
  }

  lemma SignedMod(r: nat, j: nat)
    requires 1 + 256 * r < 256 * j
    ensures Signed(1 + 256 * r, 256 * j) % 256 == 1
  {
    var v := Signed(1 + 256 * r, 256 * j);
    ModUnique(v, 256, if v >= 0 then r else r - j, 1);
  }

  // Whatever follows: an integer item is read back exactly if and only if it is outside the gaps.
  lemma IntRoundTrip(b: bytes, p: nat, v: int64)
    requires At(b, p, Element(IntItem(v)))
    ensures ReadItem(b, p) == Ok(Int(v), p + |Element(IntItem(v))|) <==> !Gap(v)
    ensures Gap(v) && ReadAsInt(b, p).Ok? ==> ReadAsInt(b, p).value != v
  {
    hide ReadItem;
    if -127 <= v <= -1 {
      ReadNegative(b, p, v);
    } else {
      ReadIntValue(b, p, v);
    }
  }

  // An empty string is written as the integer 0 and comes back as "0".
  function Shown(s: bytes): bytes { if s == [] then [ZERO] else s }

  lemma ReadShown(b: bytes, p: nat, s: bytes)
    requires Fits(StrItem(s)) && At(b, p, Element(StrItem(s)))
    ensures ReadAsString(b, p) == Ok(Shown(s), p + |Element(StrItem(s))|)
  {
    hide ReadItem, Element;
    if s == [] {
      ReadIntValue(b, p, 0);
    } else {
      ReadStrItem(b, p, s);
    }
  }

  // ------------------------------------------------------------------ the code

  method EncodeListPackInt(v: int64) returns (e: bytes)
    ensures e == IntBytes(v)
  {
    hide LE, Unsigned;
    if -127 <= v <= 127 {
      e := [Unsigned(v, 0x100)];
    } else if -8191 <= v <= 8191 {
      var u := if v < 0 then 8191 + v + 1 else v;
      e := [0xc0 + u / 256, u % 256];
    } else if -32767 <= v <= 32767 {
      e := [0xf1] + LE(Unsigned(v, 0x1_0000), 2);
    } else if -8388607 <= v <= 8388607 {
      e := [0xf2] + LE(Unsigned(v, 0x100_0000), 3);
    } else if -2147483647 <= v <= 2147483647 {
      e := [0xf3] + LE(Unsigned(v, 0x1_0000_0000), 4);
    } else {
      var low := LowBytes(Unsigned(v, TWO64));
      e := [0xf4] + low;
    }
  }

  // The byte loop: eight times the low byte, then a shift.
  method LowBytes(n: nat) returns (e: bytes)
    ensures e == LE(n, 8)
  {
    hide LE;
    e := [];
    var u, i := n, 0;
    while i < 8
      invariant 0 <= i <= 8 && e + LE(u, 8 - i) == LE(n, 8)
    {
      LEHead(u, 8 - i);
      e := e + [u % 256];
      u, i := u / 256, i + 1;
    }
  }

  lemma LEHead(n: nat, k: nat)
    requires k > 0
    ensures LE(n, k) == [n % 256] + LE(n / 256, k - 1)
  {}

  // The encodings of the first k items, without back lengths.
  function Packed(items: seq<Item>, k: nat): bytes
    requires k <= |items|
  {
    if k == 0 then [] else Packed(items, k - 1) + Encoded(items[k - 1])
  }

  // First pass: the encodings back to back, and their sizes.
  method EncodeItems(items: seq<Item>) returns (data: bytes, sizes: seq<nat>)
    requires AllFit(items)
    ensures data == Packed(items, |items|) && |sizes| == |items|
    ensures forall k :: 0 <= k < |items| ==> sizes[k] == |Encoded(items[k])| < TWO32
  {
    hide IntBytes, StrBytes, Fits;
    data, sizes := [], [];
    var i := 0;
    while i < |items|
      invariant 0 <= i <= |items| && data == Packed(items, i) && |sizes| == i
      invariant forall k :: 0 <= k < i ==> sizes[k] == |Encoded(items[k])| < TWO32
    {
      var encoded;
      if items[i].strVal != [] {
        encoded := StrBytes(items[i].strVal);
      } else {
        encoded := EncodeListPackInt(items[i].intVal);
      }
      EncodedFits(items[i]);
      data := data + encoded;
      sizes := sizes + [|encoded|];
      i := i + 1;
    }
  }

  // append(data[start:end], tail...): in place, over what follows end, when the slice has room;
  // either way everything before end stays as it was.
  method Append(data: array<byte>, start: nat, end: nat, tail: bytes) returns (r: bytes)
    requires start <= end <= data.Length
    modifies data
    ensures r == old(data[start..end]) + tail && data[..end] == old(data[..end])
  {
    if end + |tail| <= data.Length {
      forall k | 0 <= k < |tail| { data[end + k] := tail[k]; }
      r := data[start..end + |tail|];
      assert data[start..end] == data[..end][start..] == old(data[..end])[start..] == old(data[start..end]);
      assert data[end..end + |tail|] == tail;
      assert r == data[start..end] + data[end..end + |tail|];
    } else {
      r := data[start..end] + tail;
    }
  }

  // Second pass, last item first. Each append may overwrite the encodings of later items in place;
  // those have been consumed, and what earlier turns still need stays untouched. spare is the room
  // that append's growth left behind the data.
  method BuildListpackWithBacklen(items: seq<Item>, spare: nat) returns (lp: bytes)
    requires AllFit(items)
    ensures lp == ListpackBytes(items)
  {
    hide Element, Fits, LE, BacklenBytes, Encoded, Packed;
    var packed, sizes := EncodeItems(items);
    var data := new byte[|packed| + spare](k requires 0 <= k => if k < |packed| then packed[k] else 0);
    assert data[..|packed|] == packed;
    var final: bytes := [];
    var i := |items|;
    while i > 0
      invariant 0 <= i <= |items| && final == Elements(items[i..])
      invariant |Packed(items, i)| <= data.Length && data[..|Packed(items, i)|] == Packed(items, i)
    {
      i := i - 1;
      var backlen := BacklenBytes(sizes[i]);
      final := backlen + final; // backlen is full, so this copies
      var start := EntryStart(items, sizes, i);
      var end := start + sizes[i];
      PackedLen(items, i);
      PackedSlices(data[..end], items, i);
      assert data[start..end] == data[..end][start..];
      final := Append(data, start, end, final);
      assert data[..start] == data[..end][..start];
      ElementIs(items[i]);
      assert items[i..][1..] == items[i + 1..];
    }
    assert items[0..] == items;
    lp := LE(|final| + 6, 4) + LE(|items|, 2) + final;
  }

  lemma PackedLen(items: seq<Item>, i: nat)
    requires i < |items|
    ensures |Packed(items, i + 1)| == |Packed(items, i)| + |Encoded(items[i])|
  {}

  lemma PackedSlices(b: bytes, items: seq<Item>, i: nat)
    requires i < |items| && b == Packed(items, i + 1)
    ensures b[..|Packed(items, i)|] == Packed(items, i) && b[|Packed(items, i)|..] == Encoded(items[i])
  {}

  lemma ElementIs(i: Item)
    requires Fits(i)
    ensures |Encoded(i)| < TWO32 && Element(i) == Encoded(i) + BacklenBytes(|Encoded(i)|)
  {
    EncodedFits(i);
  }

  // The loop summing the sizes of the items before item i.
  method EntryStart(items: seq<Item>, sizes: seq<nat>, i: nat) returns (start: nat)
    requires i < |items| == |sizes| && forall k :: 0 <= k < |items| ==> sizes[k] == |Encoded(items[k])|
    ensures start == |Packed(items, i)|
  {
    hide Encoded;
    start := 0;
    var j := 0;
    while j < i
      invariant 0 <= j <= i && start == |Packed(items, j)|
    {
      PackedLen(items, j);
      start := start + sizes[j];
      j := j + 1;
    }
  }
}
