/** Lists (core/list.go): one ziplist, or a quicklist of ziplist pages. */
module Lists {
  import opened Bytes
  import opened Strings
  import opened Ziplist

  const LIST_ZIPLIST_SIZE: nat := 4096

  // ------------------------------------------------------------------ paging

  function TotalLen(values: seq<bytes>): nat {
    if values == [] then 0 else |values[0]| + TotalLen(values[1..])
  }

  function Flatten(pages: seq<seq<bytes>>): seq<bytes> {
    if pages == [] then [] else pages[0] + Flatten(pages[1..])
  }

  // The shortest run reaching the byte threshold: all but its last value stay below it.
  predicate Full(page: seq<bytes>, limit: nat) {
    page != [] && TotalLen(page[..|page| - 1]) < limit <= TotalLen(page)
  }

  // values cut into pages: every page but perhaps the last is full, and the last is not overfull.
  predicate IsPaging(values: seq<bytes>, limit: nat, pages: seq<seq<bytes>>) {
    && Flatten(pages) == values
    && (forall i :: 0 <= i < |pages| - 1 ==> Full(pages[i], limit))
    && (pages != [] ==> var last := pages[|pages| - 1]; last != [] && TotalLen(last[..|last| - 1]) < limit)
  }

  lemma {:induction false} FlattenSnoc(pages: seq<seq<bytes>>, page: seq<bytes>)
    ensures Flatten(pages + [page]) == Flatten(pages) + page
  {
    if pages == [] {
      assert [page][1..] == [];
      assert Flatten([page]) == page;
    } else {
      assert (pages + [page])[1..] == pages[1..] + [page];
      FlattenSnoc(pages[1..], page);
    }
  }

  lemma {:induction false} TotalLenSnoc(values: seq<bytes>, v: bytes)
    ensures TotalLen(values + [v]) == TotalLen(values) + |v|
  {
    if values == [] {
      assert [v][1..] == [];
    } else {
      assert (values + [v])[1..] == values[1..] + [v];
      TotalLenSnoc(values[1..], v);
    }
  }

  // The paging loop of writeQuickList.
  method BuildPages(values: seq<bytes>, limit: nat) returns (pages: seq<seq<bytes>>)
    requires limit > 0
    ensures IsPaging(values, limit, pages)
  {
    hide TotalLen, Flatten;
    pages := [];
    NoPages();
    var pageSize, curPage: seq<bytes>, i := 0, [], 0;
    while i < |values|
      invariant 0 <= i <= |values| && Flatten(pages) + curPage == values[..i]
      invariant pageSize == TotalLen(curPage) < limit
      invariant curPage != [] ==> TotalLen(curPage[..|curPage| - 1]) < limit
      invariant forall k :: 0 <= k < |pages| ==> Full(pages[k], limit)
    {
      TotalLenSnoc(curPage, values[i]);
      ghost var before := curPage;
      curPage := curPage + [values[i]];
      pageSize := pageSize + |values[i]|;
      assert values[..i + 1] == values[..i] + [values[i]];
      assert curPage[..|curPage| - 1] == before;
      if pageSize >= limit {
        FlattenSnoc(pages, curPage);
        pageSize := 0;
        pages := pages + [curPage];
        curPage := [];
        assert Flatten(pages) + [] == Flatten(pages);
      }
      i := i + 1;
    }
    assert values[..i] == values;
    if |curPage| > 0 {
      FlattenSnoc(pages, curPage);
      pages := pages + [curPage];
    }
  }

  lemma NoPages()
    ensures Flatten([]) == [] && TotalLen([]) == 0
  {}

  // The paging is unique: two cuts of the same list agree page by page.
  lemma {:induction false} PagingUnique(values: seq<bytes>, limit: nat, ps: seq<seq<bytes>>, qs: seq<seq<bytes>>)
    requires IsPaging(values, limit, ps) && IsPaging(values, limit, qs)
    ensures ps == qs
    decreases |ps|
  {
    if ps != [] && qs != [] {
      var p, q := ps[0], qs[0];
      FirstPage(values, limit, ps);
      FirstPage(values, limit, qs);
      if |p| < |q| {
        assert q[..|q| - 1][..|p|] == p;
        TotalLenPrefix(q[..|q| - 1], |p|);
      } else if |q| < |p| {
        assert p[..|p| - 1][..|q|] == q;
        TotalLenPrefix(p[..|p| - 1], |q|);
      }
      assert |p| == |q| && p == values[..|p|] == q;
      PagingTail(values, limit, ps);
      PagingTail(values, limit, qs);
      PagingUnique(values[|p|..], limit, ps[1..], qs[1..]);
    } else if ps != [] {
      FirstPage(values, limit, ps);
    } else if qs != [] {
      FirstPage(values, limit, qs);
    }
  }

  lemma FirstPage(values: seq<bytes>, limit: nat, ps: seq<seq<bytes>>)
    requires IsPaging(values, limit, ps) && ps != []
    ensures 1 <= |ps[0]| <= |values| && ps[0] == values[..|ps[0]|]
    ensures TotalLen(ps[0][..|ps[0]| - 1]) < limit
    ensures |ps[0]| < |values| ==> limit <= TotalLen(ps[0])
  {
    if |ps| == 1 { assert ps[1..] == [] && Flatten(ps) == ps[0]; }
  }

  lemma PagingTail(values: seq<bytes>, limit: nat, ps: seq<seq<bytes>>)
    requires IsPaging(values, limit, ps) && ps != []
    ensures IsPaging(values[|ps[0]|..], limit, ps[1..])
  {
    assert values == ps[0] + Flatten(ps[1..]);
    assert values[|ps[0]|..] == Flatten(ps[1..]);
    var t := ps[1..];
    forall i | 0 <= i < |t| - 1 ensures Full(t[i], limit) { assert t[i] == ps[i + 1]; }
    if t != [] { assert t[|t| - 1] == ps[|ps| - 1]; }
  }

  lemma {:induction false} TotalLenPrefix(values: seq<bytes>, k: nat)
    requires k <= |values|
    ensures TotalLen(values[..k]) <= TotalLen(values)
  {
    if k > 0 {
      assert values[..k][1..] == values[1..][..k - 1];
      TotalLenPrefix(values[1..], k - 1);
    }
  }

  // Non-empty values give at most limit entries a page, so the 16-bit entry count is exact.
  lemma PageCount(values: seq<bytes>, limit: nat, pages: seq<seq<bytes>>, i: nat)
    requires IsPaging(values, limit, pages) && i < |pages|
    requires forall k :: 0 <= k < |values| ==> values[k] != []
    ensures 1 <= |pages[i]| <= limit
  {
    var page := pages[i];
    FlattenContains(pages, i);
    var init := page[..|page| - 1];
    CountBound(init);
  }

  lemma {:induction false} FlattenContains(pages: seq<seq<bytes>>, i: nat)
    requires i < |pages|
    ensures forall k :: 0 <= k < |pages[i]| ==> pages[i][k] in Flatten(pages)
  {
    if i > 0 {
      assert pages[1..][i - 1] == pages[i];
      FlattenContains(pages[1..], i - 1);
    }
  }

  lemma {:induction false} CountBound(values: seq<bytes>)
    requires forall k :: 0 <= k < |values| ==> values[k] != []
    ensures |values| <= TotalLen(values)
  {
    if values != [] { CountBound(values[1..]); }
  }

  // ------------------------------------------------------------------ ziplist blobs in the file

  // Enough room for the ziplist of values in a Go slice.
  predicate InMemory(values: seq<bytes>) {
    Encodes(values) && 11 + TotalLen(values) + 14 * |values| <= MAX_INT64
  }

  lemma {:induction false} EntriesLen(values: seq<bytes>, k: nat)
    requires Encodes(values) && k <= |values|
    ensures |Entries(values, k)| <= TotalLen(values[..k]) + 14 * k
    decreases k
  {
    hide Entry;
    if k > 0 {
      EntriesLen(values, k - 1);
      assert values[..k] == values[..k - 1] + [values[k - 1]];
      TotalLenSnoc(values[..k - 1], values[k - 1]);
      EntryLen(values, k - 1);
    }
  }

  lemma EntryLen(values: seq<bytes>, k: nat)
    requires Encodes(values) && k < |values|
    ensures |Entry(values, k)| <= |values[k]| + 14
  {
    BodyLen(values[k]);
  }

  lemma BodyLen(val: bytes)
    requires |val| < TWO32
    ensures |Body(val)| <= |val| + 9
  {}

  lemma ZipListLen(values: seq<bytes>)
    requires InMemory(values)
    ensures |ZipListBytes(values)| <= 11 + TotalLen(values) + 14 * |values| <= MAX_INT64
  {
    hide Entries;
    EntriesLen(values, |values|);
    assert values[..|values|] == values;
  }

  // The bytes writeZipList may produce.
  ghost predicate ZipListForm(compress: bool, values: seq<bytes>, e: bytes) {
    InMemory(values) && |ZipListBytes(values)| < TWO64 && BlobForm(compress, ZipListBytes(values), e)
  }

  // What the reader needs of a ziplist: at most 65535 entries of at most 16383 bytes.
  predicate ZipListReadable(values: seq<bytes>) {
    Readable(values) && |values| < 0x1_0000
  }

  // Such a blob is always within reach of the LZF codec.
  lemma ReadableLen(values: seq<bytes>)
    requires InMemory(values) && ZipListReadable(values)
    ensures |ZipListBytes(values)| <= TWO32
  {
    hide ZipListBytes;
    ZipListLen(values);
    TotalLenBound(values, 0x3fff);
  }

  lemma {:induction false} TotalLenBound(values: seq<bytes>, bound: nat)
    requires forall i :: 0 <= i < |values| ==> |values[i]| <= bound
    ensures TotalLen(values) <= bound * |values|
  {
    if values != [] {
      TotalLenBound(values[1..], bound);
      assert bound * |values| == bound * |values[1..]| + bound;
    }
  }

  lemma ReadZipListForm(compress: bool, b: bytes, p: nat, values: seq<bytes>, e: bytes)
    requires ZipListForm(compress, values, e) && ZipListReadable(values) && At(b, p, e)
    ensures ReadZipList(b, p) == Ok(values, p + |e|)
  {
    hide ZipListBytes, BlobForm, ReadBlob, ReadString, At;
    ReadableLen(values);
    ReadBlobForm(compress, b, p, ZipListBytes(values), e);
    BlobRoundTrip(values);
  }

  // Any ziplist: it comes back exactly under the condition of BlobComesBack, and is consumed.
  lemma ZipListComesBack(compress: bool, b: bytes, p: nat, values: seq<bytes>, e: bytes)
    requires ZipListForm(compress, values, e) && At(b, p, e) && (compress ==> |ZipListBytes(values)| <= TWO32)
    ensures var r := ReadZipList(b, p);
      && (r.Ok? && r.value == values <==> ComesBack(values))
      && (r.Ok? ==> r.next == p + |e| && |r.value| <= |values|)
  {
    hide ZipListBytes, BlobForm, ReadBlob, ReadString, At, ComesBack, InMemory, U16;
    ZipListLen(values);
    MemoryEncodes(values);
    ReadBlobForm(compress, b, p, ZipListBytes(values), e);
    BlobComesBack(values);
  }

  lemma MemoryEncodes(values: seq<bytes>)
    requires InMemory(values)
    ensures Encodes(values)
  {}

  // readQuickList, after its page count.
  function ReadPages(b: bytes, p: nat, n: nat, acc: seq<bytes>): (r: Res<seq<bytes>>)
    ensures r.Ok? ==> p <= r.next && (p <= |b| ==> r.next <= |b|)
    decreases n
  {
    if n == 0 then Ok(acc, p)
    else
      var (page, q) :- ReadZipList(b, p);
      ReadPages(b, q, n - 1, acc + page)
  }

  function ReadQuickList(b: bytes, p: nat): (r: Res<seq<bytes>>)
    ensures r.Ok? ==> p < r.next <= |b|
  {
    var (l, q) :- ReadLength(b, p);
    ReadPages(b, q, AsInt(l.n), [])
  }

  ghost predicate PageForms(compress: bool, pages: seq<seq<bytes>>, parts: seq<bytes>) {
    |pages| == |parts| && forall i :: 0 <= i < |pages| ==> ZipListForm(compress, pages[i], parts[i])
  }

  ghost predicate QuickListForm(compress: bool, pages: seq<seq<bytes>>, e: bytes) {
    |pages| < TWO64 && exists parts :: PageForms(compress, pages, parts) && e == LengthBytes(|pages|) + Concat(parts)
  }

  lemma {:induction false} ReadPageForms(compress: bool, b: bytes, p: nat, pages: seq<seq<bytes>>, parts: seq<bytes>,
                                         acc: seq<bytes>)
    requires PageForms(compress, pages, parts) && At(b, p, Concat(parts))
    requires forall i :: 0 <= i < |pages| ==> ZipListReadable(pages[i])
    ensures ReadPages(b, p, |pages|, acc) == Ok(acc + Flatten(pages), p + |Concat(parts)|)
    decreases |pages|
  {
    hide ZipListForm, ZipListReadable, At, ReadZipList;
    if pages == [] {
      assert acc + [] == acc;
    } else {
      AtConcat(b, p, parts[0], Concat(parts[1..]));
      ReadZipListForm(compress, b, p, pages[0], parts[0]);
      ReadPageForms(compress, b, p + |parts[0]|, pages[1..], parts[1..], acc + pages[0]);
      assert acc + pages[0] + Flatten(pages[1..]) == acc + Flatten(pages);
    }
  }

  // readQuickList after writeQuickList returns the list.
  lemma ReadQuickListForm(compress: bool, b: bytes, p: nat, pages: seq<seq<bytes>>, e: bytes)
    requires QuickListForm(compress, pages, e) && |pages| <= MAX_INT64 && At(b, p, e)
    requires forall i :: 0 <= i < |pages| ==> ZipListReadable(pages[i])
    ensures ReadQuickList(b, p) == Ok(Flatten(pages), p + |e|)
  {
    hide ZipListReadable, At, ReadPages, ReadLength, LengthBytes, PageForms, Flatten, Concat;
    var parts :| PageForms(compress, pages, parts) && e == LengthBytes(|pages|) + Concat(parts);
    AtConcat(b, p, LengthBytes(|pages|), Concat(parts));
    ReadLengthBytes(b, p, |pages|);
    ReadPageForms(compress, b, p + |LengthBytes(|pages|)|, pages, parts, []);
    assert [] + Flatten(pages) == Flatten(pages);
  }

  // Pages read one after the other make up the list exactly if each of them comes back.
  lemma {:induction false} PagesComeBack(compress: bool, b: bytes, p: nat, pages: seq<seq<bytes>>, parts: seq<bytes>,
                                         acc: seq<bytes>)
    requires PageForms(compress, pages, parts) && At(b, p, Concat(parts))
    requires compress ==> forall i :: 0 <= i < |pages| ==> |ZipListBytes(pages[i])| <= TWO32
    ensures var r := ReadPages(b, p, |pages|, acc);
      && (r.Ok? && r.value == acc + Flatten(pages) <==> forall i :: 0 <= i < |pages| ==> ComesBack(pages[i]))
      && (r.Ok? ==> r.next == p + |Concat(parts)| && acc <= r.value && |r.value| <= |acc| + |Flatten(pages)|)
    decreases |pages|
  {
    hide ZipListForm, ZipListBytes, ComesBack, At, ReadZipList;
    if pages == [] {
      assert acc + [] == acc;
    } else {
      AtConcat(b, p, parts[0], Concat(parts[1..]));
      ZipListComesBack(compress, b, p, pages[0], parts[0]);
      var page := ReadZipList(b, p);
      if page.Ok? {
        PagesComeBack(compress, b, p + |parts[0]|, pages[1..], parts[1..], acc + page.value);
        FirstOfAll(pages);
        SameParts(acc, page.value, pages[0], Flatten(pages[1..]),
                  ReadPages(b, p + |parts[0]|, |pages| - 1, acc + page.value));
      }
    }
  }

  lemma FirstOfAll(pages: seq<seq<bytes>>)
    requires pages != []
    ensures (forall i :: 0 <= i < |pages| ==> ComesBack(pages[i]))
      <==> ComesBack(pages[0]) && forall i :: 0 <= i < |pages[1..]| ==> ComesBack(pages[1..][i])
  {
    hide ComesBack;
    if ComesBack(pages[0]) && forall i :: 0 <= i < |pages[1..]| ==> ComesBack(pages[1..][i]) {
      forall i | 0 <= i < |pages| ensures ComesBack(pages[i]) {
        if i > 0 { assert pages[1..][i - 1] == pages[i]; }
      }
    }
  }

  // No read page can be longer than the written one, so one that differs is not made up for later.
  lemma SameParts(acc: seq<bytes>, x: seq<bytes>, y: seq<bytes>, rest: seq<bytes>, r: Res<seq<bytes>>)
    requires r.Ok? ==> acc + x <= r.value && |r.value| <= |acc + x| + |rest|
    requires |x| <= |y|
    ensures r.Ok? && r.value == acc + (y + rest) <==> x == y && r.Ok? && r.value == acc + x + rest
  {
    assert acc + y + rest == acc + (y + rest);
    if r.Ok? && r.value == acc + (y + rest) {
      assert |x| == |y|;
      assert r.value[..|acc + x|] == acc + x;
      assert r.value[|acc|..|acc| + |x|] == x;
      assert (acc + (y + rest))[|acc|..|acc| + |y|] == y;
    }
  }

  // Any quicklist: it comes back exactly if each of its pages does.
  lemma QuickListComesBack(compress: bool, b: bytes, p: nat, pages: seq<seq<bytes>>, e: bytes)
    requires QuickListForm(compress, pages, e) && |pages| <= MAX_INT64 && At(b, p, e)
    requires compress ==> forall i :: 0 <= i < |pages| ==> |ZipListBytes(pages[i])| <= TWO32
    ensures var r := ReadQuickList(b, p);
      && (r.Ok? && r.value == Flatten(pages) <==> forall i :: 0 <= i < |pages| ==> ComesBack(pages[i]))
      && (r.Ok? ==> r.next == p + |e|)
  {
    hide ComesBack, At, ReadPages, ReadLength, LengthBytes, PageForms, Flatten, Concat, ZipListBytes;
    var parts :| PageForms(compress, pages, parts) && e == LengthBytes(|pages|) + Concat(parts);
    AtConcat(b, p, LengthBytes(|pages|), Concat(parts));
    ReadLengthBytes(b, p, |pages|);
    PagesComeBack(compress, b, p + |LengthBytes(|pages|)|, pages, parts, []);
    assert [] + Flatten(pages) == Flatten(pages);
  }
}
