/** Sets (core/set.go): a run of strings, or an intset when every member is a canonical non-negative
    int64 numeral. */
module Sets {
  import opened Bytes
  import opened Decimal
  import opened Strings

  // ------------------------------------------------------------------ members as integers

  predicate AllInts(values: seq<bytes>) {
    forall i :: 0 <= i < |values| ==> Encodable(values[i], MAX_INT64).Some?
  }

  function Ints(values: seq<bytes>): (r: seq<nat>)
    requires AllInts(values)
    ensures |r| == |values| && forall i :: 0 <= i < |r| ==> r[i] <= MAX_INT64 && Numeral(r[i]) == values[i]
  {
    seq(|values|, i requires 0 <= i < |values| => Encodable(values[i], MAX_INT64).value)
  }

  function Names(ints: seq<nat>): (r: seq<bytes>)
    ensures |r| == |ints| && forall i :: 0 <= i < |r| ==> r[i] == Numeral(ints[i])
  {
    seq(|ints|, i requires 0 <= i < |ints| => Numeral(ints[i]))
  }

  // ------------------------------------------------------------------ sorting

  predicate Ascending(s: seq<nat>) {
    forall i, j :: 0 <= i < j < |s| ==> s[i] <= s[j]
  }

  function Insert(v: nat, s: seq<nat>): seq<nat> {
    if s == [] || v <= s[0] then [v] + s else [s[0]] + Insert(v, s[1..])
  }

  // sort.Slice with <
  function Sorted(s: seq<nat>): seq<nat> {
    if s == [] then [] else Insert(s[0], Sorted(s[1..]))
  }

  predicate AtLeast(s: seq<nat>, low: nat) { forall i :: 0 <= i < |s| ==> low <= s[i] }
  predicate AtMost(s: seq<nat>, high: nat) { forall i :: 0 <= i < |s| ==> s[i] <= high }

  lemma {:induction false} InsertBounds(v: nat, s: seq<nat>, low: nat, high: nat)
    ensures AtLeast(Insert(v, s), low) <==> low <= v && AtLeast(s, low)
    ensures AtMost(Insert(v, s), high) <==> v <= high && AtMost(s, high)
    ensures |Insert(v, s)| == |s| + 1
  {
    if s == [] || v <= s[0] {
      BoundsCons(v, s, low, high);
    } else {
      InsertBounds(v, s[1..], low, high);
      BoundsCons(s[0], s[1..], low, high);
      BoundsCons(s[0], Insert(v, s[1..]), low, high);
      assert s == [s[0]] + s[1..];
    }
  }

  lemma BoundsCons(v: nat, s: seq<nat>, low: nat, high: nat)
    ensures AtLeast([v] + s, low) <==> low <= v && AtLeast(s, low)
    ensures AtMost([v] + s, high) <==> v <= high && AtMost(s, high)
  {
    var t := [v] + s;
    assert t[0] == v && forall i :: 0 <= i < |s| ==> t[i + 1] == s[i];
  }

  lemma {:induction false} InsertAscending(v: nat, s: seq<nat>)
    requires Ascending(s)
    ensures Ascending(Insert(v, s))
  {
    if s != [] && s[0] < v {
      InsertAscending(v, s[1..]);
      InsertBounds(v, s[1..], s[0], 0);
      AscendingCons(s[0], Insert(v, s[1..]));
    } else if s != [] {
      assert AtLeast(s, v);
      AscendingCons(v, s);
    }
  }

  lemma AscendingCons(v: nat, s: seq<nat>)
    requires Ascending(s) && AtLeast(s, v)
    ensures Ascending([v] + s)
  {}

  lemma {:induction false} InsertNames(v: nat, s: seq<nat>)
    ensures multiset(Names(Insert(v, s))) == multiset{Numeral(v)} + multiset(Names(s))
  {
    hide Names, Numeral;
    if s == [] || v <= s[0] {
      NamesCons(v, s);
    } else {
      InsertNames(v, s[1..]);
      NamesCons(s[0], s[1..]);
      NamesCons(s[0], Insert(v, s[1..]));
      assert s == [s[0]] + s[1..];
    }
  }

  lemma NamesCons(v: nat, s: seq<nat>)
    ensures Names([v] + s) == [Numeral(v)] + Names(s)
    ensures multiset(Names([v] + s)) == multiset{Numeral(v)} + multiset(Names(s))
  {
    assert Names([v] + s) == [Numeral(v)] + Names(s);
  }

  // Sorting keeps every member, duplicates included, and puts them in ascending order.
  lemma {:induction false} SortedSorts(s: seq<nat>, high: nat)
    ensures Ascending(Sorted(s)) && |Sorted(s)| == |s|
    ensures AtMost(Sorted(s), high) <==> AtMost(s, high)
    ensures multiset(Names(Sorted(s))) == multiset(Names(s))
  {
    hide Names, Numeral, AtMost, Insert;
    if s == [] {
    } else {
      var t := Sorted(s[1..]);
      SortedSorts(s[1..], high);
      InsertAscending(s[0], t);
      InsertBounds(s[0], t, 0, high);
      InsertNames(s[0], t);
      NamesCons(s[0], s[1..]);
      BoundsCons(s[0], s[1..], 0, high);
      assert s == [s[0]] + s[1..];
    }
  }

  lemma NamesOfInts(values: seq<bytes>)
    requires AllInts(values)
    ensures Names(Ints(values)) == values
  {}

  // ------------------------------------------------------------------ the intset

  // The narrowest of the three widths that holds every member.
  function Width(s: seq<nat>): (w: nat)
    ensures w in {2, 4, 8}
  {
    if AtMost(s, MAX_INT16) then 2 else if AtMost(s, MAX_INT32) then 4 else 8
  }

  function Cells(s: seq<nat>, w: nat): (e: bytes)
    ensures |e| == |s| * w
  {
    if s == [] then [] else LE(s[0], w) + Cells(s[1..], w)
  }

  function IntSetBytes(s: seq<nat>, w: nat): (e: bytes)
    ensures |e| == 8 + |s| * w
  {
    LE(w, 4) + LE(|s|, 4) + Cells(s, w)
  }

  function ReadCells(b: bytes, p: nat, w: nat, n: nat, acc: seq<bytes>): Res<seq<bytes>>
    decreases n
  {
    if n == 0 then Ok(acc, p)
    else
      var (e, q) :- ReadBytes(b, p, w);
      FromLEPow(e);
      ReadCells(b, q, w, n - 1, acc + [Itoa(Signed(FromLE(e), Pow256(w)))])
  }

  function ReadIntSetBlob(buf: bytes): Res<seq<bytes>> {
    if |buf| < 4 then Fail(Panic)
    else
      var w := FromLE(buf[0..4]);
      if w != 2 && w != 4 && w != 8 then Fail(Corrupt)
      else if |buf| < 8 then Fail(Panic)
      else ReadCells(buf, 8, w, FromLE(buf[4..8]), [])
  }

  // readIntSet
  function ReadIntSet(b: bytes, p: nat): (r: Res<seq<bytes>>)
    ensures r.Ok? ==> p < r.next <= |b|
  {
    var (buf, q) :- ReadString(b, p);
    var (members, _) :- ReadIntSetBlob(buf);
    Ok(members, q)
  }

  // The first n cells.
  lemma {:induction false} ReadCellsOf(b: bytes, p: nat, w: nat, s: seq<nat>, n: nat, acc: seq<bytes>)
    requires At(b, p, Cells(s, w)) && n <= |s| && forall i :: 0 <= i < |s| ==> 2 * s[i] < Pow256(w)
    ensures ReadCells(b, p, w, n, acc) == Ok(acc + Names(s[..n]), p + n * w)
    decreases |s|
  {
    hide LE, FromLE, At, Numeral, Cells, Pow256, Signed, Itoa, ReadBytes, ReadCells;
    if n == 0 {
      NoCells(b, p, w, acc);
      assert acc + Names(s[..0]) == acc;
    } else {
      CellAt(b, p, w, s);
      OneCell(b, p, w, s[0], n, acc);
      ReadCellsOf(b, p + w, w, s[1..], n - 1, acc + [Numeral(s[0])]);
      NamesTake(s, n, acc);
      MulStep(n, w);
    }
  }

  lemma NamesTake(s: seq<nat>, n: nat, acc: seq<bytes>)
    requires 0 < n <= |s|
    ensures acc + [Numeral(s[0])] + Names(s[1..][..n - 1]) == acc + Names(s[..n])
  {
    hide Numeral;
    assert s[..n] == [s[0]] + s[1..][..n - 1];
    NamesCons(s[0], s[1..][..n - 1]);
  }

  // One turn of the reader, at a cell that holds v.
  lemma OneCell(b: bytes, p: nat, w: nat, v: nat, n: nat, acc: seq<bytes>)
    requires n > 0 && v < Pow256(w) && Signed(v, Pow256(w)) == v
    requires ReadBytes(b, p, w).Ok? && FromLE(ReadBytes(b, p, w).value) == v
    ensures ReadCells(b, p, w, n, acc) == ReadCells(b, p + w, w, n - 1, acc + [Numeral(v)])
  {
    hide FromLE, Pow256, Numeral, Signed;
  }

  lemma NoCells(b: bytes, p: nat, w: nat, acc: seq<bytes>)
    ensures ReadCells(b, p, w, 0, acc) == Ok(acc, p)
  {}

  lemma MulStep(n: nat, w: nat)
    requires n > 0
    ensures w + (n - 1) * w == n * w
  {}

  lemma CellAt(b: bytes, p: nat, w: nat, s: seq<nat>)
    requires s != [] && At(b, p, Cells(s, w)) && 2 * s[0] < Pow256(w)
    ensures At(b, p + w, Cells(s[1..], w))
    ensures ReadBytes(b, p, w).Ok? && FromLE(ReadBytes(b, p, w).value) == s[0]
    ensures s[0] < Pow256(w) && Signed(s[0], Pow256(w)) == s[0]
  {
    hide LE, FromLE, Pow256;
    AtConcat(b, p, LE(s[0], w), Cells(s[1..], w));
    FromLEofLE(s[0], w);
    SmallMod(s[0], Pow256(w));
  }

  // The cells of signed numbers, as another writer may use them.
  function SignedCells(s: seq<int>, w: nat): (e: bytes)
    ensures |e| == |s| * w
  {
    if s == [] then [] else SignedLE(s[0], w) + SignedCells(s[1..], w)
  }

  function Numerals(s: seq<int>): (r: seq<bytes>)
    ensures |r| == |s|
  {
    if s == [] then [] else [Itoa(s[0])] + Numerals(s[1..])
  }

  lemma {:induction false} ReadSignedCells(b: bytes, p: nat, w: nat, s: seq<int>, acc: seq<bytes>)
    requires w in {2, 4, 8} && At(b, p, SignedCells(s, w)) && forall i :: 0 <= i < |s| ==> InWidth(s[i], w)
    ensures ReadCells(b, p, w, |s|, acc) == Ok(acc + Numerals(s), p + |s| * w)
    decreases |s|
  {
    hide At, SignedLE, FromLE, Itoa, InWidth, Pow256, Signed, ReadBytes;
    if s == [] {
      assert acc + [] == acc;
    } else {
      AtConcat(b, p, SignedLE(s[0], w), SignedCells(s[1..], w));
      ReadBytesAt(b, p, SignedLE(s[0], w));
      SignedLEIs(s[0], w);
      ReadSignedCells(b, p + w, w, s[1..], acc + [Itoa(s[0])]);
      assert acc + [Itoa(s[0])] + Numerals(s[1..]) == acc + Numerals(s);
      MulStep(|s|, w);
    }
  }

  lemma ReadBytesAt(b: bytes, p: nat, e: bytes)
    requires At(b, p, e)
    ensures ReadBytes(b, p, |e|) == Ok(e, p + |e|)
  {
    AtSlice(b, p, e);
  }

  // An intset of any signed numbers below 2^32 of them, in any of the widths that hold them.
  lemma ReadSignedIntSet(s: seq<int>, w: nat)
    requires w in {2, 4, 8} && |s| < TWO32 && forall i :: 0 <= i < |s| ==> InWidth(s[i], w)
    ensures ReadIntSetBlob(LE(w, 4) + LE(|s|, 4) + SignedCells(s, w)) == Ok(Numerals(s), 8 + |s| * w)
  {
    hide At, LE, FromLE, SignedCells, Numerals, InWidth, ReadCells, Pow256;
    var buf, head, cells := LE(w, 4) + LE(|s|, 4) + SignedCells(s, w), LE(w, 4) + LE(|s|, 4), SignedCells(s, w);
    AtWhole(buf);
    AtConcat(buf, 0, head, cells);
    AtConcat(buf, 0, LE(w, 4), LE(|s|, 4));
    AtSlice(buf, 0, LE(w, 4));
    AtSlice(buf, 4, LE(|s|, 4));
    FromLEofLE(w, 4);
    FromLEofLE(|s|, 4);
    Powers();
    SmallMod(w, TWO32);
    SmallMod(|s|, TWO32);
    ReadSignedCells(buf, 8, w, s, []);
    assert [] + Numerals(s) == Numerals(s);
  }

  // Any other width is refused.
  lemma WidthRefused(w: nat, rest: bytes)
    requires w < TWO32 && w !in {2, 4, 8}
    ensures ReadIntSetBlob(LE(w, 4) + rest) == Fail(Corrupt)
  {
    hide LE, FromLE, ReadCells;
    var buf := LE(w, 4) + rest;
    assert buf[0..4] == LE(w, 4);
    FromLEofLE(w, 4);
    Powers();
    SmallMod(w, TWO32);
  }

  lemma AtWhole(buf: bytes)
    ensures At(buf, 0, buf)
  {}

  // The chosen width loses no member.
  lemma WidthHolds(s: seq<nat>)
    requires AtMost(s, MAX_INT64)
    ensures forall i :: 0 <= i < |s| ==> 2 * s[i] < Pow256(Width(s))
  {
    Powers();
  }

  // Intset round trip: the reader returns the members in the order stored, up to the 32-bit count.
  lemma IntSetRoundTrip(s: seq<nat>)
    requires AtMost(s, MAX_INT64)
    ensures var n := U32(|s|); ReadIntSetBlob(IntSetBytes(s, Width(s))) == Ok(Names(s[..n]), 8 + n * Width(s))
    ensures Names(s[..U32(|s|)]) == Names(s) <==> |s| < TWO32
  {
    hide Cells, LE, FromLE, Pow256, Width, At, ReadCells, U32;
    var w, n := Width(s), U32(|s|);
    WidthHolds(s);
    IntSetHeader(s, w);
    ReadCellsOf(IntSetBytes(s, w), 8, w, s, n, []);
    assert [] + Names(s[..n]) == Names(s[..n]);
    if n == |s| { assert s[..n] == s; }
  }

  lemma IntSetHeader(s: seq<nat>, w: nat)
    requires w in {2, 4, 8}
    ensures var buf := IntSetBytes(s, w);
      FromLE(buf[0..4]) == w && FromLE(buf[4..8]) == U32(|s|) && At(buf, 8, Cells(s, w))
  {
    hide LE, FromLE, Cells;
    var buf := IntSetBytes(s, w);
    assert buf[0..4] == LE(w, 4) && buf[4..8] == LE(|s|, 4) && buf[8..8 + |s| * w] == Cells(s, w);
    FromLEofLE4(w);
    FromLEofLE4(|s|);
  }

  // The bytes tryWriteIntSetEncoding may produce for the members.
  ghost predicate IntSetForm(compress: bool, values: seq<bytes>, e: bytes) {
    && AllInts(values)
    && var buf := IntSetBytes(Sorted(Ints(values)), Width(Ints(values)));
       |buf| < TWO64 && BlobForm(compress, buf, e)
  }

  // Decoded members: an ascending permutation of the input, duplicates kept, exactly up to 2^32 - 1
  // members.
  lemma ReadIntSetForm(compress: bool, b: bytes, p: nat, values: seq<bytes>, e: bytes)
    requires IntSetForm(compress, values, e) && At(b, p, e)
    requires 8 + 8 * |values| <= if compress then TWO32 else MAX_INT64
    ensures |Sorted(Ints(values))| == |values|
    ensures ReadIntSet(b, p) == Ok(Names(Sorted(Ints(values))[..U32(|values|)]), p + |e|)
    ensures multiset(Names(Sorted(Ints(values)))) == multiset(values) && Ascending(Sorted(Ints(values)))
    ensures Names(Sorted(Ints(values))[..U32(|values|)]) == Names(Sorted(Ints(values))) <==> |values| < TWO32
  {
    hide U32, Names, BlobForm, At, IntSetBytes, ReadIntSetBlob, ReadString, Width, Sorted, Ascending;
    var ints := Ints(values);
    SortedSorts(ints, MAX_INT64);
    NamesOfInts(values);
    WidthOfSorted(ints);
    IntSetRoundTrip(Sorted(ints));
    CellsLen(|ints|, Width(ints));
    ReadBlobForm(compress, b, p, IntSetBytes(Sorted(ints), Width(ints)), e);
  }

  lemma WidthOfSorted(s: seq<nat>)
    ensures Width(Sorted(s)) == Width(s)
  {
    hide AtMost, Sorted;
    SortedSorts(s, MAX_INT16);
    SortedSorts(s, MAX_INT32);
  }

  lemma CellsLen(n: nat, w: nat)
    requires w in {2, 4, 8}
    ensures n * w <= 8 * n
  {}

  // ------------------------------------------------------------------ the plain set

  function ReadSet(b: bytes, p: nat): (r: Res<seq<bytes>>)
    ensures r.Ok? ==> p < r.next <= |b|
  {
    var (l, q) :- ReadLength(b, p);
    if l.n > MAX_INT64 then Fail(Panic) // make with a negative capacity
    else ReadStrings(b, q, l.n, [])
  }

  ghost predicate SetForm(compress: bool, values: seq<bytes>, e: bytes) {
    |values| < TWO64 && exists parts ::
      StringForms(compress, values, parts) && e == LengthBytes(|values|) + Concat(parts)
  }

  lemma ReadSetForm(compress: bool, b: bytes, p: nat, values: seq<bytes>, e: bytes)
    requires SetForm(compress, values, e) && |values| <= MAX_INT64 && At(b, p, e)
    requires forall i :: 0 <= i < |values| ==> Packable(compress, values[i])
    ensures ReadSet(b, p) == Ok(values, p + |e|)
  {
    hide At, ReadStrings, ReadLength, LengthBytes, StringForms, Packable;
    var parts :| StringForms(compress, values, parts) && e == LengthBytes(|values|) + Concat(parts);
    AtConcat(b, p, LengthBytes(|values|), Concat(parts));
    ReadLengthBytes(b, p, |values|);
    ReadStringForms(compress, b, p + |LengthBytes(|values|)|, values, parts, []);
    assert [] + values == values;
  }

  // ------------------------------------------------------------------ the code

  // The integer pass of tryWriteIntSetEncoding: members as integers and the narrowest width.
  method ScanInts(values: seq<bytes>) returns (ok: bool, ints: seq<nat>, intSize: nat)
    ensures ok <==> AllInts(values)
    ensures ok ==> ints == Ints(values) && intSize == Width(ints)
  {
    hide Encodable;
    var max, min: int := -0x8000_0000_0000_0000, MAX_INT64;
    ints, intSize := [], 0;
    var i := 0;
    while i < |values|
      invariant 0 <= i <= |values| && |ints| == i
      invariant forall k :: 0 <= k < i ==> Encodable(values[k], MAX_INT64) == Some(ints[k])
      invariant forall k :: 0 <= k < i ==> min <= ints[k] <= max
      invariant min >= 0 && (i == 0 ==> max < 0) && (i > 0 ==> exists k :: 0 <= k < i && ints[k] == max)
    {
      var v;
      v, ok := IsEncodable(values[i], MAX_INT64);
      if !ok { return; }
      if v < min { min := v; }
      if v > max { max := v; }
      ints := ints + [v];
      assert ints[i] == v;
      i := i + 1;
    }
    ok := true;
    intSize := 8;
    if min >= -0x8000 && max <= MAX_INT16 {
      intSize := 2;
    } else if min >= -0x8000_0000 && max <= MAX_INT32 {
      intSize := 4;
    }
  }

  // The intset buffer.
  method BuildIntSet(ints: seq<nat>, intSize: nat) returns (buf: bytes)
    requires intSize in {2, 4, 8}
    ensures buf == IntSetBytes(Sorted(ints), intSize)
  {
    hide LE, Sorted;
    var sorted := Sorted(ints);
    buf := LE(intSize, 4) + LE(|ints|, 4);
    SortedLen(ints);
    var i := 0;
    while i < |sorted|
      invariant 0 <= i <= |sorted|
      invariant buf + Cells(sorted[i..], intSize) == IntSetBytes(sorted, intSize)
    {
      assert sorted[i..][1..] == sorted[i + 1..];
      buf := buf + LE(sorted[i], intSize);
      i := i + 1;
    }
    assert sorted[i..] == [];
  }

  lemma SortedLen(ints: seq<nat>)
    ensures |Sorted(ints)| == |ints|
  {
    SortedSorts(ints, 0);
  }

  // readIntSet on the blob.
  method ReadIntSetBuf(buf: bytes) returns (r: Res<seq<bytes>>)
    ensures r == ReadIntSetBlob(buf)
  {
    hide FromLE, Itoa;
    if |buf| < 4 { return Fail(Panic); }
    var intSize := FromLE(buf[0..4]);
    if intSize != 2 && intSize != 4 && intSize != 8 { return Fail(Corrupt); }
    if |buf| < 8 { return Fail(Panic); }
    var cardinality, cursor := FromLE(buf[4..8]), 8;
    var result: seq<bytes>, i := [], 0;
    while i < cardinality
      invariant 0 <= i <= cardinality
      invariant ReadCells(buf, cursor, intSize, cardinality - i, result) == ReadIntSetBlob(buf)
    {
      var e :- ReadBytes(buf, cursor, intSize);
      FromLEPow(e.0);
      result := result + [Itoa(Signed(FromLE(e.0), Pow256(intSize)))];
      cursor, i := e.1, i + 1;
    }
    r := Ok(result, cursor);
  }
}
