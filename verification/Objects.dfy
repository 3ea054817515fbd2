/** Objects as the encoder lays them out and the decoder's readObject takes them apart. */
module Objects {
  import opened Bytes
  import opened Strings
  import opened Ziplist
  import opened Lists
  import opened Sets
  import opened Hashes

  // ------------------------------------------------------------------ what is written

  datatype Value =
    | StringV(text: bytes)
    | ListV(values: seq<bytes>)
    | SetV(members: seq<bytes>)
    | HashV(hash: Hash)
    | HashExV(hash: Hash, expire: Expiry)

  // Limits up to which the encoder uses a ziplist; 0 stands for the default.
  datatype ZipListOpt = ZipListOpt(maxValue: int, maxEntries: int) {
    function GetMaxValue(): int { if maxValue == 0 then 64 else maxValue }
    function GetMaxEntries(): int { if maxEntries == 0 then 512 else maxEntries }
  }

  // The encoder's settings. A nil option is the zero one.
  datatype Config = Config(compress: bool, valkey: bool, list: ZipListOpt, hash: ZipListOpt)

  predicate ListInZipList(cfg: Config, values: seq<bytes>) {
    |values| <= cfg.list.GetMaxEntries() && forall i :: 0 <= i < |values| ==> |values[i]| <= cfg.list.GetMaxValue()
  }

  predicate HashInZipList(cfg: Config, hash: Hash) {
    |hash| <= cfg.hash.GetMaxEntries() && forall f :: f in hash ==> |hash[f]| <= cfg.hash.GetMaxValue()
  }

  // The type byte an object is written with.
  function TypeByte(cfg: Config, value: Value): byte {
    match value
    case StringV(_) => 0
    case ListV(values) => if ListInZipList(cfg, values) then 10 else 14
    case SetV(members) => if AllInts(members) then 11 else 2
    case HashV(hash) => if HashInZipList(cfg, hash) then 13 else 4
    case HashExV(_, _) => if cfg.valkey then 22 else 24
  }

  // The bytes that may follow the key.
  ghost predicate PayloadForm(cfg: Config, value: Value, e: bytes) {
    match value
    case StringV(s) => |s| < TWO64 && StringForm(cfg.compress, s, e)
    case ListV(values) =>
      if ListInZipList(cfg, values) then ZipListForm(cfg.compress, values, e)
      else exists pages :: IsPaging(values, LIST_ZIPLIST_SIZE, pages) && QuickListForm(cfg.compress, pages, e)
    case SetV(members) =>
      if AllInts(members) then IntSetForm(cfg.compress, members, e) else SetForm(cfg.compress, members, e)
    case HashV(hash) =>
      if HashInZipList(cfg, hash) then exists order :: ZipHashForm(cfg.compress, hash, order, e)
      else RunForm(cfg.compress, Plain, hash, map[], e)
    case HashExV(hash, expire) =>
      if cfg.valkey then RunForm(cfg.compress, Absolute, hash, expire, e) else RedisForm(cfg.compress, hash, expire, e)
  }

  // A whole object: type byte, key, payload.
  ghost predicate ObjectForm(cfg: Config, key: bytes, value: Value, raw: bytes) {
    |key| < TWO64 && exists ek, e ::
      StringForm(cfg.compress, key, ek) && PayloadForm(cfg, value, e) && raw == [TypeByte(cfg, value)] + ek + e
  }

  // ------------------------------------------------------------------ what is read

  datatype Decoded =
    | StringD(text: bytes)
    | ListD(values: seq<bytes>)
    | SetD(members: seq<bytes>)
    | HashD(hash: map<bytes, bytes>)
    | HashExD(hash: map<bytes, bytes>, expire: map<bytes, int>)

  // readObject, for the formats the encoder writes and the plain list.
  function ReadPayload(valkey: bool, t: byte, b: bytes, p: nat): (r: Res<Decoded>)
    ensures r.Ok? ==> p < r.next <= |b|
  {
    if t == 0 then
      var (s, q) :- ReadString(b, p);
      Ok(StringD(s), q)
    else if t == 1 then
      var (vs, q) :- ReadSet(b, p); // readList and readSet share their body
      Ok(ListD(vs), q)
    else if t == 2 then
      var (vs, q) :- ReadSet(b, p);
      Ok(SetD(vs), q)
    else if t == 4 then
      var (fields, q) :- ReadHashMap(b, p);
      Ok(HashD(fields.hash), q)
    else if t == 10 then
      var (vs, q) :- ReadZipList(b, p);
      Ok(ListD(vs), q)
    else if t == 11 then
      var (vs, q) :- ReadIntSet(b, p);
      Ok(SetD(vs), q)
    else if t == 13 then
      var (m, q) :- ReadZipListHash(b, p);
      Ok(HashD(m), q)
    else if t == 14 then
      var (vs, q) :- ReadQuickList(b, p);
      Ok(ListD(vs), q)
    else if t in {22, 24} && valkey then
      var (fields, q) :- ReadHashMapExValkey(b, p);
      Ok(HashExD(fields.hash, fields.expire), q)
    else if t == 24 && !valkey then
      var (fields, q) :- ReadHashMapEx(b, p);
      Ok(HashExD(fields.hash, fields.expire), q)
    else Fail(Unmodelled)
  }

  // What the decoder reports for a value: integer sets come back sorted.
  function Meaning(value: Value): Decoded {
    match value
    case StringV(s) => StringD(s)
    case ListV(values) => ListD(values)
    case SetV(members) => SetD(if AllInts(members) then Names(Sorted(Ints(members))) else members)
    case HashV(hash) => HashD(hash)
    case HashExV(hash, expire) => HashExD(hash, AllFields(hash, expire).expire)
  }

  // The decoder's report is the same value, sets compared as multisets.
  lemma MeaningKeeps(value: Value)
    ensures match value
      case StringV(s) => Meaning(value) == StringD(s)
      case ListV(values) => Meaning(value) == ListD(values)
      case SetV(members) => Meaning(value).SetD? && multiset(Meaning(value).members) == multiset(members)
      case HashV(hash) => Meaning(value) == HashD(hash)
      case HashExV(hash, expire) =>
        && Meaning(value).HashExD? && Meaning(value).hash == hash && Meaning(value).expire.Keys == hash.Keys
        && forall f :: f in hash ==> Meaning(value).expire[f] == TTLOf(expire, f)
  {
    if value.SetV? && AllInts(value.members) {
      hide Sorted, Names, Ints;
      SortedSorts(Ints(value.members), 0);
      NamesOfInts(value.members);
    }
  }

  // ------------------------------------------------------------------ what reads back

  // What a Go slice and the LZF codec hold. Of hashes in a ziplist, those whose fields and values are
  // all readable: in which order, and so what, the reader would misread of others is up to the map.
  ghost predicate Reach(cfg: Config, key: bytes, value: Value) {
    && Packable(cfg.compress, key)
    && match value
       case StringV(s) => Packable(cfg.compress, s)
       case ListV(values) =>
         if ListInZipList(cfg, values) then ZipListPackable(cfg.compress, values)
         else |values| <= MAX_INT64 && forall pages :: IsPaging(values, LIST_ZIPLIST_SIZE, pages) ==>
           PagesPackable(cfg.compress, pages)
       case SetV(members) =>
         if AllInts(members) then 8 + 8 * |members| <= if cfg.compress then TWO32 else MAX_INT64
         else |members| <= MAX_INT64 && forall i :: 0 <= i < |members| ==> Packable(cfg.compress, members[i])
       case HashV(hash) =>
         if HashInZipList(cfg, hash) then HashReadable(hash)
         else |hash| <= MAX_INT64 && HashPackable(cfg.compress, hash)
       case HashExV(hash, _) => |hash| <= MAX_INT64 && HashPackable(cfg.compress, hash)
  }

  predicate ZipListPackable(compress: bool, values: seq<bytes>) {
    compress && Encodes(values) ==> |ZipListBytes(values)| <= TWO32
  }

  predicate PagesPackable(compress: bool, pages: seq<seq<bytes>>) {
    forall i :: 0 <= i < |pages| ==> ZipListPackable(compress, pages[i])
  }

  // Values the formats carry: ziplists that come back, sets of numbers below 2^32 members, hashes with
  // field TTLs that are not empty and whose TTLs the layout carries.
  ghost predicate Carried(cfg: Config, value: Value) {
    match value
    case StringV(_) => true
    case ListV(values) =>
      if ListInZipList(cfg, values) then ComesBack(values)
      else forall pages :: IsPaging(values, LIST_ZIPLIST_SIZE, pages) ==> PagesComeBack(pages)
    case SetV(members) => AllInts(members) ==> |members| < TWO32
    case HashV(_) => true
    case HashExV(hash, expire) =>
      |hash| > 0 && if cfg.valkey then ValkeyTTLs(hash, expire) else RedisTTLs(hash, expire)
  }

  ghost predicate PagesComeBack(pages: seq<seq<bytes>>) { forall i :: 0 <= i < |pages| ==> ComesBack(pages[i]) }

  ghost predicate Faithful(cfg: Config, key: bytes, value: Value) { Reach(cfg, key, value) && Carried(cfg, value) }

  predicate HashReadable(hash: Hash) {
    2 * |hash| < 0x1_0000 && forall f :: f in hash ==> |f| <= 0x3fff && |hash[f]| <= 0x3fff
  }

  // Lists of non-empty values of at most 16383 bytes, and short lists of any such values, are faithful.
  lemma ReadableFaithful(cfg: Config, key: bytes, values: seq<bytes>)
    requires Packable(cfg.compress, key) && |values| <= MAX_INT64
    requires forall i :: 0 <= i < |values| ==> |values[i]| <= 0x3fff
    requires |values| < TWO16 || (!ListInZipList(cfg, values) && forall i :: 0 <= i < |values| ==> values[i] != [])
    ensures Faithful(cfg, key, ListV(values))
  {
    hide ZipListPackable, ComesBack, Packable, ListInZipList;
    if ListInZipList(cfg, values) {
      ReadableComesBack(cfg.compress, values);
    } else {
      forall pages | IsPaging(values, LIST_ZIPLIST_SIZE, pages)
        ensures PagesPackable(cfg.compress, pages) && PagesComeBack(pages)
      {
        forall i | 0 <= i < |pages| ensures ZipListPackable(cfg.compress, pages[i]) && ComesBack(pages[i]) {
          ReadablePage(values, pages, i);
          ReadableComesBack(cfg.compress, pages[i]);
        }
      }
    }
  }

  lemma ReadablePage(values: seq<bytes>, pages: seq<seq<bytes>>, i: nat)
    requires IsPaging(values, LIST_ZIPLIST_SIZE, pages) && i < |pages|
    requires forall k :: 0 <= k < |values| ==> |values[k]| <= 0x3fff
    requires |values| < TWO16 || forall k :: 0 <= k < |values| ==> values[k] != []
    ensures |pages[i]| < TWO16 && forall k :: 0 <= k < |pages[i]| ==> |pages[i][k]| <= 0x3fff
  {
    FlattenContains(pages, i);
    if |values| < TWO16 {
      PageWithin(pages, i);
    } else {
      PageCount(values, LIST_ZIPLIST_SIZE, pages, i);
    }
  }

  lemma {:induction false} PageWithin(pages: seq<seq<bytes>>, i: nat)
    requires i < |pages|
    ensures |pages[i]| <= |Flatten(pages)|
  {
    if i > 0 { PageWithin(pages[1..], i - 1); }
  }

  lemma ReadableComesBack(compress: bool, values: seq<bytes>)
    requires |values| < TWO16 && forall i :: 0 <= i < |values| ==> |values[i]| <= 0x3fff
    ensures ComesBack(values) && ZipListPackable(compress, values)
  {
    hide ZipListBytes;
    TotalLenBound(values, 0x3fff);
    assert Readable(values);
    if Encodes(values) { ReadableLen(values); }
  }

  lemma {:induction false} FlatReadable(hash: Hash, order: seq<bytes>)
    requires Within(order, hash) && forall f :: f in hash ==> |f| <= 0x3fff && |hash[f]| <= 0x3fff
    ensures Readable(Flat(hash, order))
  {
    if order != [] { FlatReadable(hash, order[1..]); }
  }

  lemma PageSize(values: seq<bytes>, pages: seq<seq<bytes>>)
    requires IsPaging(values, LIST_ZIPLIST_SIZE, pages)
    ensures |pages| <= |values|
  {
    forall i | 0 <= i < |pages| ensures pages[i] != [] {
      if i < |pages| - 1 { assert Full(pages[i], LIST_ZIPLIST_SIZE); }
    }
    FlattenLen(pages);
  }

  lemma {:induction false} FlattenLen(pages: seq<seq<bytes>>)
    requires forall i :: 0 <= i < |pages| ==> pages[i] != []
    ensures |pages| <= |Flatten(pages)|
  {
    if pages != [] { FlattenLen(pages[1..]); }
  }

  // A value that is carried reads back as its meaning, up to its end; from another, something else is
  // read.
  predicate Reads(r: Res<Decoded>, d: Decoded, end: nat, carried: bool) {
    if carried then r == Ok(d, end) else r.Ok? ==> r.value != d
  }

  lemma ReadListPayload(cfg: Config, b: bytes, p: nat, values: seq<bytes>, e: bytes)
    requires PayloadForm(cfg, ListV(values), e) && Reach(cfg, [], ListV(values)) && At(b, p, e)
    ensures Reads(ReadPayload(cfg.valkey, TypeByte(cfg, ListV(values)), b, p), ListD(values), p + |e|,
                  Carried(cfg, ListV(values)))
  {
    hide At, ReadZipList, ReadQuickList, ZipListForm, QuickListForm, IsPaging, ComesBack, ListInZipList,
      ZipListPackable, PagesPackable, PagesComeBack;
    if ListInZipList(cfg, values) {
      PackableForm(cfg.compress, values, e);
      ZipListComesBack(cfg.compress, b, p, values, e);
    } else {
      var pages :| IsPaging(values, LIST_ZIPLIST_SIZE, pages) && QuickListForm(cfg.compress, pages, e);
      ReadPagesPayload(cfg.compress, b, p, values, pages, e);
    }
  }

  lemma ReadPagesPayload(compress: bool, b: bytes, p: nat, values: seq<bytes>, pages: seq<seq<bytes>>, e: bytes)
    requires IsPaging(values, LIST_ZIPLIST_SIZE, pages) && QuickListForm(compress, pages, e) && At(b, p, e)
    requires |values| <= MAX_INT64 && PagesPackable(compress, pages)
    ensures var r := ReadQuickList(b, p);
      && (r.Ok? && r.value == values <==>
         forall ps :: IsPaging(values, LIST_ZIPLIST_SIZE, ps) ==> PagesComeBack(ps))
      && (r.Ok? ==> r.next == p + |e|)
  {
    hide At, ReadQuickList, QuickListForm, IsPaging, ComesBack, PagesPackable;
    PageSize(values, pages);
    PagingFlat(values, pages);
    PackablePages(compress, pages, e);
    QuickListComesBack(compress, b, p, pages, e);
    forall ps | IsPaging(values, LIST_ZIPLIST_SIZE, ps) ensures ps == pages {
      PagingUnique(values, LIST_ZIPLIST_SIZE, ps, pages);
    }
  }

  lemma PackableForm(compress: bool, values: seq<bytes>, e: bytes)
    requires ZipListForm(compress, values, e) && ZipListPackable(compress, values)
    ensures Encodes(values) && (compress ==> |ZipListBytes(values)| <= TWO32)
  {
    hide ZipListBytes, BlobForm;
  }

  lemma PackablePages(compress: bool, pages: seq<seq<bytes>>, e: bytes)
    requires QuickListForm(compress, pages, e) && PagesPackable(compress, pages)
    ensures forall i :: 0 <= i < |pages| ==> Encodes(pages[i])
    ensures compress ==> forall i :: 0 <= i < |pages| ==> |ZipListBytes(pages[i])| <= TWO32
  {
    hide ZipListForm, ZipListPackable, Concat, LengthBytes;
    var parts :| PageForms(compress, pages, parts) && e == LengthBytes(|pages|) + Concat(parts);
    forall i | 0 <= i < |pages| ensures Encodes(pages[i]) && (compress ==> |ZipListBytes(pages[i])| <= TWO32) {
      PackableForm(compress, pages[i], parts[i]);
    }
  }

  lemma PagingFlat(values: seq<bytes>, pages: seq<seq<bytes>>)
    requires IsPaging(values, LIST_ZIPLIST_SIZE, pages)
    ensures Flatten(pages) == values
  {}

  lemma ReadSetPayload(cfg: Config, b: bytes, p: nat, members: seq<bytes>, e: bytes)
    requires PayloadForm(cfg, SetV(members), e) && Reach(cfg, [], SetV(members)) && At(b, p, e)
    ensures Reads(ReadPayload(cfg.valkey, TypeByte(cfg, SetV(members)), b, p), Meaning(SetV(members)), p + |e|,
                  Carried(cfg, SetV(members)))
  {
    hide At, ReadSet, ReadIntSet, IntSetForm, SetForm, AllInts, Packable, Sorted, Names;
    if AllInts(members) {
      ReadIntSetForm(cfg.compress, b, p, members, e);
    } else {
      ReadSetForm(cfg.compress, b, p, members, e);
    }
  }

  lemma ReadHashPayload(cfg: Config, b: bytes, p: nat, hash: Hash, e: bytes)
    requires PayloadForm(cfg, HashV(hash), e) && Reach(cfg, [], HashV(hash)) && At(b, p, e)
    ensures ReadPayload(cfg.valkey, TypeByte(cfg, HashV(hash)), b, p) == Ok(HashD(hash), p + |e|)
  {
    hide At, ReadHashMap, ReadZipListHash, ZipListForm, RunForm, HashInZipList, HashPackable, ZipHashForm;
    if HashInZipList(cfg, hash) {
      var order :| ZipHashForm(cfg.compress, hash, order, e);
      ZipHashOrder(cfg.compress, hash, order, e);
      FlatReadable(hash, order);
      ReadZipHashForm(cfg.compress, b, p, hash, order, e);
    } else {
      ReadHashForm(cfg.compress, b, p, hash, e);
    }
  }

  lemma ZipHashOrder(compress: bool, hash: Hash, order: seq<bytes>, e: bytes)
    requires ZipHashForm(compress, hash, order, e)
    ensures Within(order, hash) && |order| == |hash|
  {
    EnumeratesSize(order, hash);
  }

  lemma ReadHashExPayload(cfg: Config, b: bytes, p: nat, hash: Hash, expire: Expiry, e: bytes)
    requires PayloadForm(cfg, HashExV(hash, expire), e) && Reach(cfg, [], HashExV(hash, expire)) && At(b, p, e)
    ensures Reads(ReadPayload(cfg.valkey, TypeByte(cfg, HashExV(hash, expire)), b, p), Meaning(HashExV(hash, expire)),
                  p + |e|, Carried(cfg, HashExV(hash, expire)))
  {
    hide At, ReadHashMapEx, ReadHashMapExValkey, RunForm, RedisForm, HashPackable, RedisTTLs, ValkeyTTLs;
    if cfg.valkey {
      ReadValkeyForm(cfg.compress, b, p, hash, expire, e);
    } else {
      ReadRedisForm(cfg.compress, b, p, hash, expire, e);
    }
  }

  // Layouts the encoder leaves to others: a list as a run of strings, and in a Valkey file the number
  // that Redis gives a hash with field TTLs.
  lemma ReadOtherTypes(valkey: bool, compress: bool, b: bytes, p: nat, values: seq<bytes>, e: bytes)
    requires SetForm(compress, values, e) && |values| <= MAX_INT64 && At(b, p, e)
    requires forall i :: 0 <= i < |values| ==> Packable(compress, values[i])
    ensures ReadPayload(valkey, 1, b, p) == Ok(ListD(values), p + |e|)
    ensures ReadPayload(valkey, 2, b, p) == Ok(SetD(values), p + |e|)
  {
    hide At, ReadSet, SetForm, Packable;
    ReadSetForm(compress, b, p, values, e);
  }

  lemma ReadValkeyHash(compress: bool, b: bytes, p: nat, hash: Hash, expire: Expiry, t: byte, e: bytes)
    requires t in {22, 24} && RunForm(compress, Absolute, hash, expire, e) && 0 < |hash| <= MAX_INT64 && At(b, p, e)
    requires HashPackable(compress, hash) && ValkeyTTLs(hash, expire)
    ensures ReadPayload(true, t, b, p) == Ok(HashExD(hash, AllFields(hash, expire).expire), p + |e|)
  {
    hide At, ReadHashMapExValkey, RunForm, HashPackable, ValkeyTTLs;
    ReadValkeyForm(compress, b, p, hash, expire, e);
  }

  // Every value within reach reads back as its meaning exactly if it is carried, and the reader then
  // stops at its end.
  lemma ReadPayloadForm(cfg: Config, b: bytes, p: nat, key: bytes, value: Value, e: bytes)
    requires PayloadForm(cfg, value, e) && Reach(cfg, key, value) && At(b, p, e)
    ensures Reads(ReadPayload(cfg.valkey, TypeByte(cfg, value), b, p), Meaning(value), p + |e|, Carried(cfg, value))
  {
    hide At, ReadString, StringForm, ListInZipList, HashInZipList, AllInts, ZipListPackable, PagesPackable, ComesBack,
      PagesComeBack, HashReadable, HashPackable, RedisTTLs, ValkeyTTLs, ZipListForm, QuickListForm, IntSetForm, SetForm,
      ZipHashForm, RunForm, RedisForm, IsPaging, ReadZipList, ReadQuickList, ReadIntSet, ReadSet, ReadHashMap,
      ReadZipListHash, ReadHashMapEx, ReadHashMapExValkey, Sorted, Names, AllFields;
    match value
    case StringV(s) => ReadStringForm(cfg.compress, b, p, s, e);
    case ListV(values) => ReadListPayload(cfg, b, p, values, e);
    case SetV(members) => ReadSetPayload(cfg, b, p, members, e);
    case HashV(hash) => ReadHashPayload(cfg, b, p, hash, e);
    case HashExV(hash, expire) => ReadHashExPayload(cfg, b, p, hash, expire, e);
  }
}
