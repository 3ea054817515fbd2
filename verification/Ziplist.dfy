/** The ziplist: the writer of core/list.go and core/ziplist.go, the forward reader, and the
    backward walk its prevlen fields are there for. */
module Ziplist {
  import opened Bytes
  import opened Decimal
  import opened Strings

  const MAX_INT24: nat := 0x7f_ffff

  // ------------------------------------------------------------------ writing

  // The length of the previous entry, in one byte or five.
  function PrevBytes(prev: nat): (e: bytes)
    ensures 1 <= |e| <= 5
  {
    if prev < 0xfe then [prev] else [0xfe] + LE(prev, 4)
  }

  function IntBody(v: nat): (e: bytes)
    requires v <= MAX_INT64
    ensures 1 <= |e| <= 9
  {
    if v <= 12 then [0xf0 + v + 1]
    else if v <= MAX_INT8 then [0xfe, v]
    else if v <= MAX_INT24 then [0xf0] + LE(v, 3)
    else if v <= MAX_INT32 then [0xd0] + LE(v, 4)
    else [0xe0] + LE(v, 8)
  }

  // Above 16383 bytes the length field is eight bytes, the low four little-endian.
  function StringHeader(n: nat): (e: bytes)
    requires n < TWO32
    ensures 1 <= |e| <= 9
  {
    if n <= 0x3f then [n]
    else if n <= 0x3fff then [n / 256 + 0x40, n % 256]
    else [0x80] + LE(n, 4) + [0, 0, 0, 0]
  }

  function Body(val: bytes): (e: bytes)
    requires |val| < TWO32
    ensures |e| >= 1
  {
    var v := Encodable(val, MAX_INT64);
    if v.Some? then IntBody(v.value) else StringHeader(|val|) + val
  }

  // encodeZipListEntry
  function EntryBytes(prev: nat, val: bytes): (e: bytes)
    requires |val| < TWO32
    ensures |e| >= 2
  {
    PrevBytes(prev) + Body(val)
  }

  // encodeZipListEntry panics on a string of 4 GiB or more.
  predicate Encodes(values: seq<bytes>) {
    forall i :: 0 <= i < |values| ==> |values[i]| < TWO32
  }

  // Entry k of the ziplist of values; its prevlen is the 32-bit length of entry k - 1.
  function Entry(values: seq<bytes>, k: nat): (e: bytes)
    requires Encodes(values) && k < |values|
    ensures |e| >= 2
    decreases k
  {
    EntryBytes(if k == 0 then 0 else U32(|Entry(values, k - 1)|), values[k])
  }

  // The first k entries.
  function Entries(values: seq<bytes>, k: nat): (e: bytes)
    requires Encodes(values) && k <= |values|
    ensures |e| >= 2 * k
    decreases k
  {
    if k == 0 then [] else Entries(values, k - 1) + Entry(values, k - 1)
  }

  // Offset of entry k.
  function Start(values: seq<bytes>, k: nat): nat
    requires Encodes(values) && k <= |values|
  {
    10 + |Entries(values, k)|
  }

  function Header(values: seq<bytes>): (e: bytes)
    requires Encodes(values)
    ensures |e| == 10
  {
    var n := |values|;
    LE(Start(values, n) + 1, 4) + LE(Start(values, if n == 0 then 0 else n - 1), 4) + LE(n, 2)
  }

  function ZipListBytes(values: seq<bytes>): (e: bytes)
    requires Encodes(values)
    ensures |e| == Start(values, |values|) + 1
  {
    Header(values) + Entries(values, |values|) + [0xff]
  }

  // ------------------------------------------------------------------ reading

  // readZipListEntry: behind the length of the previous entry, a header and the content.
  function ReadEntry(b: bytes, p: nat): (r: Res<bytes>)
    ensures r.Ok? ==> p < r.next <= |b|
  {
    if p >= |b| then Fail(Panic)
    else ReadBody(b, if b[p] == 0xfe then p + 5 else p + 1)
  }

  function ReadBody(b: bytes, p: nat): (r: Res<bytes>)
    ensures r.Ok? ==> p < r.next <= |b|
  {
    if p >= |b| then Fail(Panic)
    else
      var h: int := b[p];
      if h / 64 == 0 then ReadBytes(b, p + 1, h % 64)
      else if h / 64 == 1 then
        if p + 1 >= |b| then Fail(Panic)
        else ReadBytes(b, p + 2, h % 64 * 256 + b[p + 1])
      else if h / 64 == 2 then
        var (e, q) :- ReadBytes(b, p + 1, 4);
        ReadBytes(b, q, FromBE(e))
      else if h == 0xfe then ReadInt(b, p + 1, 1)
      else if h == 0xc0 then ReadInt(b, p + 1, 2)
      else if h == 0xd0 then ReadInt(b, p + 1, 4)
      else if h == 0xe0 then ReadInt(b, p + 1, 8)
      else if h == 0xf0 then ReadInt(b, p + 1, 3)
      else if h / 16 == 15 then Ok(Itoa(h % 16 - 1), p + 1)
      else Fail(Corrupt)
  }

  // A signed little-endian integer of k bytes, as its numeral.
  function ReadInt(b: bytes, p: nat, k: nat): (r: Res<bytes>)
    ensures r.Ok? ==> r.next == p + k <= |b|
  {
    var (e, q) :- ReadBytes(b, p, k);
    FromLEPow(e);
    Ok(Itoa(Signed(FromLE(e), Pow256(k))), q)
  }

  // The loop of readZipList.
  function ReadEntries(b: bytes, p: nat, n: nat, acc: seq<bytes>): (r: Res<seq<bytes>>)
    decreases n
  {
    if n == 0 then Ok(acc, p)
    else
      var (e, q) :- ReadEntry(b, p);
      ReadEntries(b, q, n - 1, acc + [e])
  }

  function ReadBlob(buf: bytes): Res<seq<bytes>> {
    if |buf| < 10 then Fail(Panic)
    else ReadEntries(buf, 10, FromLE(buf[8..10]), [])
  }

  // readZipList
  function ReadZipList(b: bytes, p: nat): (r: Res<seq<bytes>>)
    ensures r.Ok? ==> p < r.next <= |b|
  {
    var (buf, q) :- ReadString(b, p);
    var (values, _) :- ReadBlob(buf);
    Ok(values, q)
  }

  // ------------------------------------------------------------------ one entry

  lemma ReadIntOfLE(b: bytes, p: nat, k: nat, v: nat)
    requires k in {1, 2, 3, 4, 8} && 2 * v < Pow256(k) && At(b, p, LE(v, k))
    ensures ReadInt(b, p, k) == Ok(Numeral(v), p + k)
  {
    hide LE, FromLE, Pow256, Numeral;
    AtSlice(b, p, LE(v, k));
    FromLEofLE(v, k);
    SmallMod(v, Pow256(k));
  }

  lemma ReadIntBody(b: bytes, p: nat, v: nat)
    requires v <= MAX_INT64 && At(b, p, IntBody(v))
    ensures ReadBody(b, p) == Ok(Numeral(v), p + |IntBody(v)|)
  {
    hide LE, FromLE, FromBE, Numeral, ReadInt, At;
    var e := IntBody(v);
    AtBound(b, p, e);
    AtIndex(b, p, e);
    assert b[p + 0] == e[0];
    Powers();
    if v <= 12 {
    } else if v <= MAX_INT8 {
      assert b[p + 1] == e[1];
      SingleLE(v);
      assert e == [0xfe] + LE(v, 1);
      WideInt(b, p, 0xfe, v, 1);
    } else if v <= MAX_INT24 {
      WideInt(b, p, 0xf0, v, 3);
    } else if v <= MAX_INT32 {
      WideInt(b, p, 0xd0, v, 4);
    } else {
      WideInt(b, p, 0xe0, v, 8);
    }
  }

  lemma WideInt(b: bytes, p: nat, h: byte, v: nat, k: nat)
    requires k in {1, 2, 3, 4, 8} && 2 * v < Pow256(k) && At(b, p, [h] + LE(v, k))
    ensures ReadInt(b, p + 1, k) == Ok(Numeral(v), p + 1 + k)
  {
    hide LE, ReadInt, Numeral, Pow256;
    AtConcat(b, p, [h], LE(v, k));
    ReadIntOfLE(b, p + 1, k, v);
  }

  // The header of each integer width.
  predicate IntHeader(h: byte, k: nat) {
    (h == 0xfe && k == 1) || (h == 0xc0 && k == 2) || (h == 0xf0 && k == 3) || (h == 0xd0 && k == 4)
    || (h == 0xe0 && k == 8)
  }

  // Whoever wrote them: every signed value of every width is read as its numeral and consumed.
  lemma ReadSignedBody(b: bytes, p: nat, h: byte, k: nat, v: int)
    requires IntHeader(h, k) && InWidth(v, k) && At(b, p, [h] + SignedLE(v, k))
    ensures ReadBody(b, p) == Ok(Itoa(v), p + 1 + k)
  {
    hide At, FromBE, FromLE, SignedLE, Itoa, Pow256, Signed;
    AtConcat(b, p, [h], SignedLE(v, k));
    AtBound(b, p, [h]);
    AtIndex(b, p, [h]);
    assert b[p + 0] == [h][0];
    AtSlice(b, p + 1, SignedLE(v, k));
    SignedLEIs(v, k);
  }

  // No other integer form is shorter, but for the one of 16 bits, which is never written.
  lemma ShortestBody(v: nat, k: nat)
    requires v <= MAX_INT64 && k in {1, 3, 4, 8} && InWidth(v, k)
    ensures |IntBody(v)| <= 1 + k && (v <= 12 ==> |IntBody(v)| == 1)
  {
    Powers();
  }

  // Headers of no string and no integer are refused.
  lemma HeaderRefused(b: bytes, p: nat)
    requires p < |b| && 0xc1 <= b[p] <= 0xef && b[p] != 0xd0 && b[p] != 0xe0
    ensures ReadBody(b, p) == Fail(Corrupt)
  {}

  // A string behind the 32-bit header as the reader means it, with the length in big-endian order.
  lemma ReadBigBody(b: bytes, p: nat, val: bytes)
    requires |val| < TWO32 && At(b, p, [0x80] + (BE(|val|, 4) + val))
    ensures ReadBody(b, p) == Ok(val, p + 5 + |val|)
  {
    hide At, FromBE, FromLE, BE, ReadInt;
    AtConcat(b, p, [0x80], BE(|val|, 4) + val);
    AtConcat(b, p + 1, BE(|val|, 4), val);
    AtBound(b, p, [0x80]);
    AtIndex(b, p, [0x80]);
    assert b[p + 0] == [0x80][0];
    AtSlice(b, p + 1, BE(|val|, 4));
    AtSlice(b, p + 5, val);
    Powers();
    FromBEofBE(|val|, 4);
    SmallMod(|val|, TWO32);
  }

  // So is the four-bit form.
  lemma ReadTinyBody(b: bytes, p: nat, v: nat)
    requires v <= 12 && At(b, p, [0xf1 + v])
    ensures ReadBody(b, p) == Ok(Itoa(v), p + 1)
  {
    hide FromBE, FromLE, Itoa, ReadInt;
    AtIndex(b, p, [0xf1 + v]);
    assert b[p + 0] == 0xf1 + v;
  }

  lemma SingleLE(v: nat)
    requires v < 256
    ensures LE(v, 1) == [v]
  {}

  // A string of at most 16383 bytes is read back and consumed.
  lemma ReadStringBody(b: bytes, p: nat, val: bytes)
    requires |val| <= 0x3fff && At(b, p, StringHeader(|val|) + val)
    ensures ReadBody(b, p) == Ok(val, p + |StringHeader(|val|)| + |val|)
  {
    hide LE, FromLE, FromBE, ReadInt, At;
    var h := StringHeader(|val|);
    AtConcat(b, p, h, val);
    AtBound(b, p, h);
    AtIndex(b, p, h);
    AtSlice(b, p + |h|, val);
    assert b[p + 0] == h[0];
    if |val| > 0x3f { assert b[p + 1] == h[1]; }
  }

  // The length the reader makes of the writer's length field above 16383.
  function Misread(n: nat): nat { FromBE(LE(n, 4)) }

  // A longer string: the reader takes the first half of the length field, in the other byte order,
  // and starts four bytes early.
  lemma ReadLongBody(b: bytes, p: nat, val: bytes)
    requires 0x3fff < |val| < TWO32 && At(b, p, StringHeader(|val|) + val)
    ensures ReadBody(b, p) == ReadBytes(b, p + 5, Misread(|val|))
    ensures At(b, p + 5, [0, 0, 0, 0] + val)
  {
    hide LE, FromLE, FromBE, ReadInt, At;
    var n := |val|;
    var l := LE(n, 4);
    assert StringHeader(n) + val == [0x80] + (l + ([0, 0, 0, 0] + val));
    AtConcat(b, p, [0x80], l + ([0, 0, 0, 0] + val));
    AtConcat(b, p + 1, l, [0, 0, 0, 0] + val);
    AtBound(b, p, [0x80]);
    AtIndex(b, p, [0x80]);
    assert b[p + 0] == [0x80][0];
    AtSlice(b, p + 1, l);
  }

  // Behind the length of the previous entry.
  lemma ReadBehindPrev(b: bytes, p: nat, prev: nat, body: bytes)
    requires prev < TWO32 && body != [] && At(b, p, PrevBytes(prev) + body)
    ensures ReadEntry(b, p) == ReadBody(b, p + |PrevBytes(prev)|) && At(b, p + |PrevBytes(prev)|, body)
  {
    hide LE, ReadBody, At;
    var e := PrevBytes(prev);
    AtConcat(b, p, e, body);
    AtBound(b, p, e);
    AtIndex(b, p, e);
    assert b[p + 0] == e[0];
  }

  // Wherever it stands and whatever follows: an entry is read back and consumed exactly if it is at
  // most 16383 bytes long. Numbers always are.
  lemma EntryRoundTrip(b: bytes, p: nat, prev: nat, val: bytes)
    requires prev < TWO32 && |val| < TWO32 && At(b, p, EntryBytes(prev, val))
    ensures ReadEntry(b, p) == Ok(val, p + |EntryBytes(prev, val)|) <==> |val| <= 0x3fff
  {
    hide LE, ReadBody, ReadEntry, PrevBytes, IntBody, StringHeader, Encodable, At, Misread;
    var q := p + |PrevBytes(prev)|;
    ReadBehindPrev(b, p, prev, Body(val));
    var v := Encodable(val, MAX_INT64);
    if v.Some? {
      ReadIntBody(b, q, v.value);
      NumberIsShort(val);
    } else if |val| <= 0x3fff {
      ReadStringBody(b, q, val);
    } else {
      ReadLongBody(b, q, val);
      LongHeader(|val|);
    }
  }

  lemma NumberIsShort(val: bytes)
    requires Encodable(val, MAX_INT64).Some?
    ensures |val| <= 25
  {
    Powers();
    NumeralLength(Encodable(val, MAX_INT64).value, 8);
  }

  lemma LongHeader(n: nat)
    requires 0x3fff < n < TWO32
    ensures |StringHeader(n)| == 9
  {}

  // ------------------------------------------------------------------ the whole list

  predicate Readable(values: seq<bytes>) {
    forall i :: 0 <= i < |values| ==> |values[i]| <= 0x3fff
  }

  lemma {:induction false} EntryAt(buf: bytes, values: seq<bytes>, n: nat, k: nat)
    requires Encodes(values) && k < n <= |values| && At(buf, 10, Entries(values, n))
    ensures At(buf, Start(values, k), Entry(values, k))
    decreases n
  {
    hide At, Entry, Encodes;
    AtConcat(buf, 10, Entries(values, n - 1), Entry(values, n - 1));
    if k < n - 1 { EntryAt(buf, values, n - 1, k); }
  }

  // Entry k of the blob, read from its start.
  lemma ReadEntryAt(buf: bytes, values: seq<bytes>, k: nat)
    requires Encodes(values) && k < |values| && At(buf, 10, Entries(values, |values|))
    ensures ReadEntry(buf, Start(values, k)) == Ok(values[k], Start(values, k + 1)) <==> |values[k]| <= 0x3fff
  {
    hide At, EntryBytes, Entries, ReadEntry;
    EntryAt(buf, values, |values|, k);
    EntryStep(values, k);
    NextStart(values, k);
    EntryRoundTrip(buf, Start(values, k), PrevLen(values, k), values[k]);
  }

  // The prevlen of entry k.
  function PrevLen(values: seq<bytes>, k: nat): (n: nat)
    requires Encodes(values) && k < |values|
    ensures n < TWO32
  {
    if k == 0 then 0 else U32(|Entry(values, k - 1)|)
  }

  lemma EntryStep(values: seq<bytes>, k: nat)
    requires Encodes(values) && k < |values|
    ensures |values[k]| < TWO32 && Entry(values, k) == EntryBytes(PrevLen(values, k), values[k])
  {}

  lemma NextStart(values: seq<bytes>, k: nat)
    requires Encodes(values) && k < |values|
    ensures Start(values, k + 1) == Start(values, k) + |Entry(values, k)|
  {}

  lemma {:induction false} ReadEntriesFrom(buf: bytes, values: seq<bytes>, k: nat, n: nat, acc: seq<bytes>)
    requires Encodes(values) && k <= n <= |values| && At(buf, 10, Entries(values, |values|))
    requires forall i :: k <= i < n ==> |values[i]| <= 0x3fff
    ensures ReadEntries(buf, Start(values, k), n - k, acc) == Ok(acc + values[k..n], Start(values, n))
    decreases n - k
  {
    hide At, Entries, Entry, ReadEntry, Start, Encodes;
    if k == n {
      assert acc + values[k..n] == acc;
    } else {
      ReadEntryAt(buf, values, k);
      ReadEntriesFrom(buf, values, k + 1, n, acc + [values[k]]);
      assert acc + [values[k]] + values[k + 1..n] == acc + values[k..n];
    }
  }

  lemma BlobParts(buf: bytes, values: seq<bytes>)
    requires Encodes(values) && At(buf, 0, ZipListBytes(values))
    ensures |buf| >= 10 && At(buf, 0, Header(values)) && At(buf, 10, Entries(values, |values|))
  {
    hide At, Header, Entries, Start, Encodes;
    var h, e := Header(values), Entries(values, |values|);
    AtConcat(buf, 0, h + e, [0xff]);
    AtConcat(buf, 0, h, e);
    AtBound(buf, 0, h);
  }

  // zlbytes is the length of the buffer, zltail the start of the last entry and zllen the count,
  // each in its width.
  lemma HeaderFields(buf: bytes, values: seq<bytes>)
    requires Encodes(values) && At(buf, 0, Header(values)) && |buf| >= 10
    ensures FromLE(buf[0..4]) == U32(Start(values, |values|) + 1)
    ensures FromLE(buf[4..8]) == U32(Start(values, if |values| == 0 then 0 else |values| - 1))
    ensures FromLE(buf[8..10]) == U16(|values|)
  {
    hide LE, FromLE, U16, U32, At, Start, Encodes;
    var n := |values|;
    ThreeFields(buf, Start(values, n) + 1, Start(values, if n == 0 then 0 else n - 1), n);
  }

  lemma ThreeFields(buf: bytes, x: nat, y: nat, z: nat)
    requires At(buf, 0, LE(x, 4) + LE(y, 4) + LE(z, 2)) && |buf| >= 10
    ensures FromLE(buf[0..4]) == U32(x) && FromLE(buf[4..8]) == U32(y) && FromLE(buf[8..10]) == U16(z)
  {
    hide LE, FromLE, U16, U32, At;
    AtConcat(buf, 0, LE(x, 4) + LE(y, 4), LE(z, 2));
    AtConcat(buf, 0, LE(x, 4), LE(y, 4));
    AtSlice(buf, 0, LE(x, 4));
    AtSlice(buf, 4, LE(y, 4));
    AtSlice(buf, 8, LE(z, 2));
    FromLEofLE4(x);
    FromLEofLE4(y);
    FromLEofLE2(z);
  }

  lemma AtSelf(buf: bytes)
    ensures At(buf, 0, buf)
  {}

  // Readable entries come back up to the 16-bit count.
  lemma BlobRoundTrip(values: seq<bytes>)
    requires Encodes(values) && Readable(values)
    ensures ReadBlob(ZipListBytes(values)) == Ok(values[..U16(|values|)], Start(values, U16(|values|)))
    ensures values[..U16(|values|)] == values <==> |values| < TWO16
  {
    hide Entries, At, ReadEntries, Encodes, ZipListBytes, U16;
    var buf := ZipListBytes(values);
    var n := U16(|values|);
    BlobStart(buf, values);
    ReadEntriesFrom(buf, values, 0, n, []);
    assert [] + values[0..n] == values[..n];
  }

  // Where the loop of the reader starts, and for how many turns.
  lemma BlobStart(buf: bytes, values: seq<bytes>)
    requires Encodes(values) && buf == ZipListBytes(values)
    ensures At(buf, 10, Entries(values, |values|)) && U16(|values|) <= |values|
    ensures ReadBlob(buf) == ReadEntries(buf, Start(values, 0), U16(|values|), [])
  {
    hide Entries, At, ReadEntries, Encodes, ZipListBytes, U16, FromLE, Header;
    AtSelf(buf);
    BlobParts(buf, values);
    HeaderFields(buf, values);
    EmptyStart(values);
  }

  lemma ReadEntriesStart(buf: bytes, values: seq<bytes>)
    requires Encodes(values) && Readable(values) && At(buf, 10, Entries(values, |values|))
    ensures ReadEntries(buf, 10, |values|, []) == Ok(values, Start(values, |values|))
  {
    hide Entries, At, ReadEntries, Encodes;
    EmptyStart(values);
    ReadEntriesFrom(buf, values, 0, |values|, []);
    assert [] + values[0..|values|] == values;
  }

  // ------------------------------------------------------------------ entries that are too long

  // A string above 16383 bytes whose value nevertheless comes back: all zeros, and with a length
  // that is the same in both byte orders. The reader stops four bytes early.
  predicate Fluke(val: bytes) {
    0x3fff < |val| < TWO32 && Misread(|val|) == |val| && forall i :: 0 <= i < |val| ==> val[i] == 0
  }

  lemma LongValue(b: bytes, p: nat, prev: nat, val: bytes)
    requires prev < TWO32 && 0x3fff < |val| < TWO32 && At(b, p, EntryBytes(prev, val))
    ensures var r := ReadEntry(b, p); var q := p + |EntryBytes(prev, val)|;
      && (r.Ok? && r.value == val ==> Fluke(val))
      && (Fluke(val) ==> r == Ok(val, q - 4) && At(b, q - 4, [0, 0, 0, 0]))
  {
    hide LE, ReadBody, ReadEntry, PrevBytes, IntBody, StringHeader, Encodable, At, Misread;
    var q := p + |PrevBytes(prev)|;
    ReadBehindPrev(b, p, prev, Body(val));
    if Encodable(val, MAX_INT64).Some? { NumberIsShort(val); }
    ReadLongBody(b, q, val);
    LongHeader(|val|);
    FourEarly(b, q + 5, val);
  }

  // The |val| bytes from the four zeros in front of val on are val exactly if val is all zeros.
  lemma FourEarly(b: bytes, p: nat, val: bytes)
    requires |val| >= 4 && At(b, p, [0, 0, 0, 0] + val)
    ensures p + |val| + 4 <= |b|
    ensures b[p..p + |val|] == val <==> forall i :: 0 <= i < |val| ==> val[i] == 0
    ensures (forall i :: 0 <= i < |val| ==> val[i] == 0) ==> At(b, p + |val|, [0, 0, 0, 0])
  {
    var e := [0, 0, 0, 0] + val;
    AtIndex(b, p, e);
    AtBound(b, p, e);
    var w := b[p..p + |val|];
    assert forall i :: 0 <= i < |val| ==> w[i] == b[p + i] == e[i];
    assert w == e[..|val|];
    if w == val {
      forall i | 0 <= i < |val| ensures val[i] == 0 { ZeroBack(val, i); }
    }
    assert forall i :: |val| <= i < |val| + 4 ==> b[p + i] == e[i] == val[i - 4];
  }

  lemma {:induction false} ZeroBack(val: bytes, i: nat)
    requires i < |val| && val == ([0, 0, 0, 0] + val)[..|val|]
    ensures val[i] == 0
  {
    assert val[i] == ([0, 0, 0, 0] + val)[i];
    if i >= 4 { ZeroBack(val, i - 4); }
  }

  // After such a string the two entries made of its last four zeros come first: everything behind
  // it is two places late.
  predicate FlukeAt(values: seq<bytes>, k: nat) {
    && k < |values| && Fluke(values[k])
    && (forall i :: 0 <= i < k ==> |values[i]| <= 0x3fff)
    && (forall i :: k < i < |values| ==> values[i] == [])
  }

  lemma {:induction false} ReadEntriesExtends(b: bytes, p: nat, n: nat, acc: seq<bytes>)
    ensures var r := ReadEntries(b, p, n, acc); r.Ok? ==> |r.value| == |acc| + n && acc <= r.value
    decreases n
  {
    hide ReadEntry;
    if n > 0 {
      var e := ReadEntry(b, p);
      if e.Ok? { ReadEntriesExtends(b, e.next, n - 1, acc + [e.value]); }
    }
  }

  // Whether the loop, having read k values so far, goes on to read exactly the others.
  predicate ReadsRest(buf: bytes, p: nat, values: seq<bytes>, k: nat)
    requires k <= |values|
  {
    var r := ReadEntries(buf, p, |values| - k, values[..k]);
    r.Ok? && r.value == values
  }

  // One turn: the next value has to be read, whatever follows.
  lemma ReadsNext(buf: bytes, p: nat, values: seq<bytes>, k: nat)
    requires k < |values|
    ensures ReadsRest(buf, p, values, k) <==>
      var e := ReadEntry(buf, p); e.Ok? && e.value == values[k] && ReadsRest(buf, e.next, values, k + 1)
  {
    hide ReadEntry;
    var e := ReadEntry(buf, p);
    if e.Ok? {
      ReadEntriesExtends(buf, e.next, |values| - k - 1, values[..k] + [e.value]);
      assert values[..k + 1] == values[..k] + [values[k]];
      assert values[..k] + [e.value] <= values ==> e.value == values[k] by {
        assert (values[..k] + [e.value])[k] == e.value;
      }
    }
  }

  // Read from the start of entry k as value k + 2: only empty values are left in step.
  lemma {:induction false} ReadsShifted(buf: bytes, values: seq<bytes>, k: nat)
    requires Encodes(values) && At(buf, 10, Entries(values, |values|))
    requires k + 2 <= |values| && values[k] == [] == values[k + 1]
    ensures ReadsRest(buf, Start(values, k), values, k + 2) <==> forall i :: k + 2 <= i < |values| ==> values[i] == []
    decreases |values| - k
  {
    hide At, Entries, Entry, ReadEntry, Start, Encodes, ReadsRest;
    if k + 2 == |values| {
      NothingLeft(buf, Start(values, k), values);
    } else {
      ReadEntryAt(buf, values, k);
      ReadsNext(buf, Start(values, k), values, k + 2);
      if values[k + 2] == [] { ReadsShifted(buf, values, k + 1); }
    }
  }

  lemma NothingLeft(buf: bytes, p: nat, values: seq<bytes>)
    ensures ReadsRest(buf, p, values, |values|)
  {
    assert values[..|values|] == values;
  }

  // Behind the four zeros at p, before entry k.
  lemma ReadsZeros(buf: bytes, p: nat, values: seq<bytes>, k: nat)
    requires Encodes(values) && At(buf, 10, Entries(values, |values|)) && k <= |values|
    requires At(buf, p, [0, 0, 0, 0]) && p + 4 == Start(values, k)
    ensures ReadsRest(buf, p, values, k) <==> forall i :: k <= i < |values| ==> values[i] == []
  {
    hide At, Entries, Entry, ReadEntry, Start, Encodes, ReadsRest;
    if k == |values| {
      NothingLeft(buf, p, values);
    } else {
      TwoZeros(buf, p);
      ReadsNext(buf, p, values, k);
      if k + 1 == |values| {
        NothingLeft(buf, p + 2, values);
      } else {
        ReadsNext(buf, p + 2, values, k + 1);
        if values[k] == [] == values[k + 1] { ReadsShifted(buf, values, k); }
      }
    }
  }

  lemma TwoZeros(b: bytes, p: nat)
    requires At(b, p, [0, 0, 0, 0])
    ensures ReadEntry(b, p) == Ok([], p + 2) && ReadEntry(b, p + 2) == Ok([], p + 4)
  {
    hide At;
    var z := [0, 0, 0, 0];
    AtBound(b, p, z);
    AtIndex(b, p, z);
    assert b[p + 0] == z[0] && b[p + 1] == z[1] && b[p + 2] == z[2] && b[p + 3] == z[3];
    assert b[p + 2..p + 2] == [] == b[p + 4..p + 4];
  }

  // From entry k on, the values come back exactly if all are short or the first long one is a fluke
  // with nothing but empty values behind it.
  lemma {:induction false} ReadsFrom(buf: bytes, values: seq<bytes>, k: nat)
    requires Encodes(values) && At(buf, 10, Entries(values, |values|)) && k <= |values|
    requires forall i :: 0 <= i < k ==> |values[i]| <= 0x3fff
    ensures ReadsRest(buf, Start(values, k), values, k) <==> Readable(values) || exists f: nat :: FlukeAt(values, f)
    decreases |values| - k
  {
    hide At, Entries, Entry, ReadEntry, Start, Encodes, ReadsRest, Fluke;
    if k == |values| {
      NothingLeft(buf, Start(values, k), values);
    } else if |values[k]| <= 0x3fff {
      ReadEntryAt(buf, values, k);
      ReadsNext(buf, Start(values, k), values, k);
      ReadsFrom(buf, values, k + 1);
    } else {
      ReadsLong(buf, values, k);
      OnlyFirstLong(values, k);
    }
  }

  lemma ReadsLong(buf: bytes, values: seq<bytes>, k: nat)
    requires Encodes(values) && At(buf, 10, Entries(values, |values|)) && k < |values| && |values[k]| > 0x3fff
    ensures ReadsRest(buf, Start(values, k), values, k) <==>
      Fluke(values[k]) && forall i :: k < i < |values| ==> values[i] == []
  {
    hide At, Entries, EntryBytes, ReadEntry, ReadsRest, Fluke;
    EntryAt(buf, values, |values|, k);
    EntryStep(values, k);
    NextStart(values, k);
    LongValue(buf, Start(values, k), PrevLen(values, k), values[k]);
    ReadsNext(buf, Start(values, k), values, k);
    if Fluke(values[k]) { ReadsZeros(buf, Start(values, k + 1) - 4, values, k + 1); }
  }

  lemma OnlyFirstLong(values: seq<bytes>, k: nat)
    requires k < |values| && |values[k]| > 0x3fff && forall i :: 0 <= i < k ==> |values[i]| <= 0x3fff
    ensures !Readable(values)
    ensures (exists f: nat :: FlukeAt(values, f))
      <==> Fluke(values[k]) && forall i :: k < i < |values| ==> values[i] == []
  {
    if f: nat :| FlukeAt(values, f) { assert f == k; }
    if Fluke(values[k]) && forall i :: k < i < |values| ==> values[i] == [] { assert FlukeAt(values, k); }
  }

  // The count is exact, and either all entries are at most 16383 bytes long or the first longer one is
  // a fluke with nothing but empty strings behind it.
  ghost predicate ComesBack(values: seq<bytes>) {
    |values| < TWO16 && (Readable(values) || exists f: nat :: FlukeAt(values, f))
  }

  // Every list: it comes back whole exactly under that condition, and as many entries as were counted
  // if any do.
  lemma BlobComesBack(values: seq<bytes>)
    requires Encodes(values)
    ensures var r := ReadBlob(ZipListBytes(values));
      && (r.Ok? && r.value == values <==> ComesBack(values))
      && (r.Ok? ==> |r.value| == U16(|values|) <= |values|)
  {
    hide Entries, At, ReadEntries, Encodes, ZipListBytes, U16, Start, Readable, FlukeAt;
    var buf := ZipListBytes(values);
    BlobStart(buf, values);
    ReadEntriesExtends(buf, Start(values, 0), U16(|values|), []);
    if |values| < TWO16 {
      assert U16(|values|) == |values|;
      ReadsFrom(buf, values, 0);
      assert values[..0] == [];
    }
  }

  // ------------------------------------------------------------------ the backward walk

  // From the entry at offset p, the offset its prevlen field points back to.
  function StepBack(buf: bytes, p: nat): int {
    if p >= |buf| then -1
    else if buf[p] != 0xfe then p - buf[p]
    else if p + 5 > |buf| then -1
    else p - FromLE(buf[p + 1..p + 5])
  }

  // The offsets met in n backward steps from p.
  function WalkBack(buf: bytes, p: int, n: nat): seq<int>
    decreases n
  {
    if n == 0 || p < 0 then [p] else [p] + WalkBack(buf, StepBack(buf, p), n - 1)
  }

  // Offsets of entries k down to 0.
  function StartsDown(values: seq<bytes>, k: nat): seq<int>
    requires Encodes(values) && k < |values|
    decreases k
  {
    [Start(values, k)] + if k == 0 then [] else StartsDown(values, k - 1)
  }

  // The prevlen of entry k leads back to entry k - 1.
  lemma StepBackTo(buf: bytes, values: seq<bytes>, k: nat)
    requires Encodes(values) && 1 <= k < |values| && |Entry(values, k - 1)| < TWO32
    requires At(buf, Start(values, k), Entry(values, k))
    ensures StepBack(buf, Start(values, k)) == Start(values, k - 1)
  {
    hide Entry, At, StepBack, PrevBytes, Body;
    EntryIs(values, k);
    ReadPrev(buf, Start(values, k), |Entry(values, k - 1)|, Body(values[k]));
  }

  lemma ReadPrev(buf: bytes, p: nat, prev: nat, body: bytes)
    requires prev < TWO32 && At(buf, p, PrevBytes(prev) + body)
    ensures StepBack(buf, p) == p - prev
  {
    hide LE, FromLE, At;
    var e := PrevBytes(prev);
    AtConcat(buf, p, e, body);
    AtIndex(buf, p, e);
    AtBound(buf, p, e);
    assert buf[p + 0] == e[0];
    if prev >= 0xfe {
      AtConcat(buf, p, [0xfe], LE(prev, 4));
      AtSlice(buf, p + 1, LE(prev, 4));
      FromLEofLE4(prev);
    }
  }

  lemma EntryIs(values: seq<bytes>, k: nat)
    requires Encodes(values) && 1 <= k < |values| && |Entry(values, k - 1)| < TWO32
    ensures Entry(values, k) == PrevBytes(|Entry(values, k - 1)|) + Body(values[k])
  {}

  lemma {:induction false} WalkFrom(buf: bytes, values: seq<bytes>, k: nat)
    requires Encodes(values) && k < |values| && At(buf, 0, ZipListBytes(values)) && |buf| < TWO32
    ensures WalkBack(buf, Start(values, k), k) == StartsDown(values, k)
    decreases k
  {
    hide Entry, At, ZipListBytes, StepBack, Encodes;
    if k > 0 {
      BlobParts(buf, values);
      EntryAt(buf, values, |values|, k);
      EntryAt(buf, values, |values|, k - 1);
      AtBound(buf, Start(values, k), Entry(values, k));
      StepBackTo(buf, values, k);
      WalkFrom(buf, values, k - 1);
    }
  }

  function ZlBytes(buf: bytes): nat
    requires |buf| >= 10
  {
    FromLE(buf[0..4])
  }

  function ZlTail(buf: bytes): nat
    requires |buf| >= 10
  {
    FromLE(buf[4..8])
  }

  // Backward walk: from zltail, n - 1 prevlen steps visit every entry start in reverse and end at
  // offset 10 (StartsDownEnd), where the first entry's prevlen is 0.
  lemma BackwardWalk(buf: bytes, values: seq<bytes>)
    requires Encodes(values) && values != [] && buf == ZipListBytes(values) && 10 <= |buf| < TWO32
    ensures ZlBytes(buf) == |buf|
    ensures WalkBack(buf, ZlTail(buf), |values| - 1) == StartsDown(values, |values| - 1)
    ensures StepBack(buf, 10) == 10
  {
    hide ZipListBytes, Header, At, WalkBack, StartsDown, StepBack, Entry;
    AtSelf(buf);
    BlobParts(buf, values);
    HeaderFields(buf, values);
    StartBeforeEnd(values);
    WalkFrom(buf, values, |values| - 1);
    FirstPrev(buf, values);
  }

  lemma StartBeforeEnd(values: seq<bytes>)
    requires Encodes(values) && values != []
    ensures Start(values, |values| - 1) < Start(values, |values|) == |ZipListBytes(values)| - 1
  {}

  lemma {:induction false} StartsDownEnd(values: seq<bytes>, k: nat)
    requires Encodes(values) && k < |values|
    ensures |StartsDown(values, k)| == k + 1 && StartsDown(values, k)[k] == 10
    decreases k
  {
    hide Start, Entries, Encodes;
    if k == 0 {
      EmptyStart(values);
      assert StartsDown(values, 0) == [Start(values, 0)];
    } else {
      StartsDownEnd(values, k - 1);
      assert StartsDown(values, k) == [Start(values, k)] + StartsDown(values, k - 1);
      assert StartsDown(values, k)[k] == StartsDown(values, k - 1)[k - 1];
    }
  }

  lemma FirstPrev(buf: bytes, values: seq<bytes>)
    requires Encodes(values) && values != [] && At(buf, 10, Entries(values, |values|))
    ensures StepBack(buf, 10) == 10
  {
    hide Entries, At, Body;
    EntryAt(buf, values, |values|, 0);
    assert Entry(values, 0) == PrevBytes(0) + Body(values[0]);
    assert Start(values, 0) == 10 by { EmptyStart(values); }
    ReadPrev(buf, 10, 0, Body(values[0]));
  }

  lemma EmptyStart(values: seq<bytes>)
    requires Encodes(values)
    ensures Start(values, 0) == 10
  {}

  // ------------------------------------------------------------------ the code

  // encodeZipListEntry
  method EncodeEntry(prev: nat, val: bytes) returns (buf: bytes)
    requires prev < TWO32 && |val| < TWO32
    ensures buf == EntryBytes(prev, val)
  {
    hide LE, Encodable, IntBody, StringHeader;
    buf := if prev < 0xfe then [prev] else [0xfe] + LE(prev, 4);
    var v, ok := IsEncodable(val, MAX_INT64);
    if ok {
      var body := EncodeInt(v);
      buf := buf + body;
    } else {
      var header := EncodeHeader(|val|);
      buf := buf + (header + val);
    }
  }

  // The integer branch.
  method EncodeInt(v: nat) returns (buf: bytes)
    requires v <= MAX_INT64
    ensures buf == IntBody(v)
  {
    hide LE;
    if v <= 12 {
      buf := [0xf0 + v + 1];
    } else if v <= MAX_INT8 {
      buf := [0xfe, v];
    } else if v <= MAX_INT24 {
      buf := [0xf0] + LE(v, 3);
    } else if v <= MAX_INT32 {
      buf := [0xd0] + LE(v, 4);
    } else {
      buf := [0xe0] + LE(v, 8);
    }
  }

  // The string branch: eight length bytes above 16383, of which the last four stay zero.
  method EncodeHeader(n: nat) returns (header: bytes)
    requires n < TWO32
    ensures header == StringHeader(n)
  {
    hide LE;
    if n <= 0x3f {
      header := [n];
    } else if n <= 0x3fff {
      header := [n / 256 + 0x40, n % 256];
    } else {
      header := [0x80] + LE(n, 4) + [0, 0, 0, 0];
    }
  }

  // The buffer writeZipList builds: the entries behind ten bytes that the header is patched into
  // once the totals are known, and the end mark.
  method BuildZipList(values: seq<bytes>) returns (buf: bytes)
    requires Encodes(values)
    ensures buf == ZipListBytes(values)
  {
    hide Entry, LE, EntryBytes, Encodes;
    var body: bytes := [];
    var zlBytes, zlTail, prevLen: nat := 11, 10, 0;
    var i := 0;
    while i < |values|
      invariant 0 <= i <= |values| && body == Entries(values, i)
      invariant zlBytes == 11 + |body|
      invariant zlTail == Start(values, if i == |values| > 0 then i - 1 else i)
      invariant prevLen == if i == 0 then 0 else U32(|Entry(values, i - 1)|)
    {
      EntryStep(values, i);
      var entry := EncodeEntry(prevLen, values[i]);
      body := body + entry;
      prevLen := U32(|entry|);
      zlBytes := zlBytes + |entry|;
      if i < |values| - 1 { zlTail := zlTail + |entry|; }
      i := i + 1;
    }
    var header := LE(zlBytes, 4) + LE(zlTail, 4) + LE(|values|, 2);
    buf := header + body + [0xff];
  }

  // readZipListEntry
  method ReadZipListEntry(buf: bytes, cursor: nat) returns (r: Res<bytes>)
    ensures r == ReadEntry(buf, cursor)
  {
    hide FromLE, FromBE, Itoa;
    if cursor >= |buf| { return Fail(Panic); }
    var p: nat := cursor + 1;
    if buf[cursor] == 0xfe { p := p + 4; }
    if p >= |buf| { return Fail(Panic); }
    var h: int := buf[p];
    p := p + 1;
    var typ := h / 64;
    if typ == 0 {
      return ReadBytes(buf, p, h % 64);
    } else if typ == 1 {
      if p >= |buf| { return Fail(Panic); }
      var low := buf[p];
      return ReadBytes(buf, p + 1, h % 64 * 256 + low);
    } else if typ == 2 {
      var e :- ReadBytes(buf, p, 4);
      return ReadBytes(buf, e.1, FromBE(e.0));
    }
    match h
    case 0xfe => r := ReadInt(buf, p, 1);
    case 0xc0 => r := ReadInt(buf, p, 2);
    case 0xd0 => r := ReadInt(buf, p, 4);
    case 0xe0 => r := ReadInt(buf, p, 8);
    case 0xf0 => r := ReadInt(buf, p, 3);
    case _ =>
      if h / 16 == 15 {
        r := Ok(Itoa(h % 16 - 1), p);
      } else {
        r := Fail(Corrupt);
      }
  }

  // readZipListLength and the loop of readZipList.
  method ReadZipListBlob(buf: bytes) returns (r: Res<seq<bytes>>)
    ensures r == ReadBlob(buf)
  {
    hide ReadEntry, FromLE;
    if |buf| < 10 { return Fail(Panic); }
    var size, cursor := FromLE(buf[8..10]), 10;
    var entries: seq<bytes>, i := [], 0;
    while i < size
      invariant 0 <= i <= size
      invariant ReadEntries(buf, cursor, size - i, entries) == ReadBlob(buf)
    {
      var entry :- ReadZipListEntry(buf, cursor);
      entries, cursor, i := entries + [entry.0], entry.1, i + 1;
    }
    r := Ok(entries, cursor);
  }
}
