/** The encoder of core/encoder.go and the writers of core/string.go, list.go, set.go and hash.go. The
    writer it prints to is a log that never fails. */
module Encoding {
  import opened Bytes
  import opened Decimal
  import opened Strings
  import opened Ziplist
  import opened Lists
  import opened Sets
  import opened Hashes
  import opened Objects
  import opened Document
  import Lzf
  import Crc64

  // Range over a map: its keys in some order.
  method Iterate<V>(m: map<bytes, V>) returns (order: seq<bytes>)
    ensures Enumerates(order, m)
  {
    order := [];
    var left := m.Keys;
    while left != {}
      invariant left <= m.Keys && Distinct(order)
      invariant forall f :: f in order <==> f in m && f !in left
      decreases left
    {
      var f :| f in left;
      left := left - {f};
      order := order + [f];
    }
  }

  // The scan for the minimum field TTL of writeHashEncodingEx.
  method MinExpire(expire: Expiry) returns (min: nat)
    ensures IsMinExpire(expire, min)
  {
    var order := Iterate(expire);
    var minExpire: int := EB_EXPIRE_TIME_INVALID;
    var i := 0;
    while i < |order|
      invariant 0 <= i <= |order| && 0 < minExpire <= EB_EXPIRE_TIME_INVALID
      invariant forall k :: 0 <= k < i && expire[order[k]] > 0 ==> minExpire <= expire[order[k]]
      invariant minExpire < EB_EXPIRE_TIME_INVALID ==> exists k :: 0 <= k < i && expire[order[k]] == minExpire
    {
      var e := expire[order[i]];
      if e > 0 && e < minExpire { minExpire := e; }
      i := i + 1;
    }
    if minExpire == EB_EXPIRE_TIME_INVALID {
      minExpire := 0;
      forall f | f in expire ensures !(0 < expire[f] < EB_EXPIRE_TIME_INVALID) {
        var k :| 0 <= k < |order| && order[k] == f;
      }
    } else {
      forall f | f in expire && 0 < expire[f] < EB_EXPIRE_TIME_INVALID ensures minExpire <= expire[f] {
        var k :| 0 <= k < |order| && order[k] == f;
      }
    }
    min := minExpire;
  }

  // Every string of the hash fits in memory.
  predicate HashFits(hash: Hash) {
    |hash| <= MAX_INT64 && forall f :: f in hash ==> |f| <= MAX_INT64 && |hash[f]| <= MAX_INT64
  }

  ghost predicate ZipHashFits(cfg: Config, hash: Hash) {
    HashInZipList(cfg, hash) ==>
      forall order :: Enumerates(order, hash) && Within(order, hash) ==> InMemory(Flat(hash, order))
  }

  lemma ZipHashOfParts(cfg: Config, hash: Hash, order: seq<bytes>, e: bytes)
    requires HashInZipList(cfg, hash) && Enumerates(order, hash) && Within(order, hash)
    requires ZipListForm(cfg.compress, Flat(hash, order), e)
    ensures PayloadForm(cfg, HashV(hash), e)
  {
    hide ZipListForm, HashInZipList, Enumerates, Flat;
    assert ZipHashForm(cfg.compress, hash, order, e);
  }

  // The size check over the values of a hash.
  method ValuesWithin(hash: Hash, maxValue: int) returns (ok: bool)
    ensures ok <==> forall f :: f in hash ==> |hash[f]| <= maxValue
  {
    var order := Iterate(hash);
    var i := 0;
    while i < |order|
      invariant 0 <= i <= |order| && forall k :: 0 <= k < i ==> |hash[order[k]]| <= maxValue
    {
      if |hash[order[i]]| > maxValue {
        assert order[i] in hash;
        return false;
      }
      i := i + 1;
    }
    forall f | f in hash ensures |hash[f]| <= maxValue { var k :| 0 <= k < |order| && order[k] == f; }
    ok := true;
  }

  lemma FormOfParts(cfg: Config, key: bytes, value: Value, ek: bytes, e: bytes)
    requires |key| < TWO64 && StringForm(cfg.compress, key, ek) && PayloadForm(cfg, value, e)
    ensures ObjectForm(cfg, key, value, [TypeByte(cfg, value)] + ek + e)
  {
    hide StringForm, PayloadForm, TypeByte;
  }

  lemma InMemoryEncodes(values: seq<bytes>)
    requires InMemory(values)
    ensures Encodes(values)
  {}

  lemma InMemorySize(values: seq<bytes>)
    requires InMemory(values)
    ensures |values| < TWO64
  {}

  lemma ConcatNil()
    ensures Concat([]) == []
  {}

  lemma PageInMemory(values: seq<bytes>, pages: seq<seq<bytes>>, i: nat)
    requires InMemory(values) && IsPaging(values, LIST_ZIPLIST_SIZE, pages) && i < |pages|
    ensures InMemory(pages[i])
  {
    FlattenBounds(pages, i);
    FlattenContains(pages, i);
  }

  lemma {:induction false} FlattenBounds(pages: seq<seq<bytes>>, i: nat)
    requires i < |pages|
    ensures |pages[i]| <= |Flatten(pages)| && TotalLen(pages[i]) <= TotalLen(Flatten(pages))
    decreases |pages|
  {
    TotalLenConcat(pages[0], Flatten(pages[1..]));
    if i > 0 { FlattenBounds(pages[1..], i - 1); }
  }

  lemma {:induction false} TotalLenConcat(vs: seq<bytes>, ws: seq<bytes>)
    ensures TotalLen(vs + ws) == TotalLen(vs) + TotalLen(ws)
  {
    if vs == [] {
      assert vs + ws == ws;
    } else {
      assert (vs + ws)[1..] == vs[1..] + ws;
      TotalLenConcat(vs[1..], ws);
    }
  }

  lemma IntSetLen(s: seq<nat>, w: nat)
    ensures |IntSetBytes(s, w)| == 8 + |s| * w
  {}

  lemma EraseEmpty()
    ensures Erase(EMPTY) == EMPTY
  {}

  lemma NotEnded(d: Doc)
    ensures Allowed(PhaseOf(d), AuxP) || Allowed(PhaseOf(d), ObjectP) ==> !d.ended
  {}

  lemma AuxOfParts(a: Aux, ek: bytes, ev: bytes)
    requires |a.key| < TWO64 && |a.value| < TWO64 && StringForm(a.compress, a.key, ek)
      && StringForm(a.compress, a.value, ev)
    requires a.raw == [250] + ek + ev
    ensures AuxForm(a)
  {
    hide StringForm;
  }

  // A TTL already waiting leaves room for the object only.
  lemma PendingPhase(d: Doc, t: u64)
    requires Allowed(PhaseOf(d), TTLP)
    ensures PhaseOf(d.(pending := Some(t))) == TTLP
  {}

  // The entries slice of tryWriteZipListHashMap.
  method FlatEntries(hash: Hash, order: seq<bytes>) returns (entries: seq<bytes>)
    requires Within(order, hash)
    ensures entries == Flat(hash, order)
  {
    entries := [];
    var i := 0;
    while i < |order|
      invariant 0 <= i <= |order| && entries + Flat(hash, order[i..]) == Flat(hash, order)
    {
      assert order[i..][0] == order[i] && order[i..][1..] == order[i + 1..];
      entries := entries + [order[i], hash[order[i]]];
      i := i + 1;
    }
    assert order[i..] == [];
  }

  class Encoder {
    var out: bytes                      // what the writer has received
    const digest: Crc64.Digest
    var existDB: set<u64>               // the databases selected so far
    var compress: bool
    var state: Phase
    var listOpt: Option<ZipListOpt>
    var hashOpt: Option<ZipListOpt>
    const valkey: bool

    ghost predicate InSync()
      reads this`out, digest, digest.tab, digest.jones
    {
      digest.Valid() && digest.poly == Crc64.JONES_REFLECTED && digest.written == Bv(out)
    }

    function GetOpt(opt: Option<ZipListOpt>): ZipListOpt {
      if opt.None? then ZipListOpt(0, 0) else opt.value
    }

    function Settings(): Config
      reads this`compress, this`listOpt, this`hashOpt
    {
      Config(compress, valkey, GetOpt(listOpt), GetOpt(hashOpt))
    }

    // ---------------------------------------------------------------- bytes and strings

    method Write(p: bytes)
      requires InSync()
      modifies this`out, digest
      ensures InSync() && out == old(out) + p
    {
      BvConcat(out, p);
      out := out + p;
      var _ := digest.Write(Bv(p));
    }

    method WriteLength(v: nat)
      requires InSync() && v < TWO64
      modifies this`out, digest
      ensures InSync() && out == old(out) + LengthBytes(v)
    {
      hide InSync, BE;
      var buf: bytes;
      if v <= 0x3f {
        buf := [v];
      } else if v <= 0x3fff {
        buf := [v / 256 + 0x40, v % 256];
      } else if v < TWO32 {
        buf := [0x80] + BE(v, 4);
      } else {
        buf := [0x81] + BE(v, 8);
      }
      Write(buf);
    }

    method WriteSimpleString(s: bytes)
      requires InSync() && |s| <= MAX_INT64
      modifies this`out, digest
      ensures InSync() && out == old(out) + PlainForm(s)
    {
      hide InSync, LengthBytes;
      WriteLength(|s|);
      Write(s);
      assert old(out) + LengthBytes(|s|) + s == old(out) + (LengthBytes(|s|) + s);
    }

    method TryWriteIntString(s: bytes) returns (ok: bool)
      requires InSync()
      modifies this`out, digest
      ensures InSync() && (ok <==> Encodable(s, MAX_INT32).Some?)
      ensures out == old(out) + if ok then IntForm(Encodable(s, MAX_INT32).value) else []
    {
      hide InSync, LE, Encodable;
      var v;
      v, ok := IsEncodable(s, MAX_INT32);
      if !ok { return; }
      if v <= MAX_INT8 {
        Write([0xc0, v]);
      } else if v <= MAX_INT16 {
        Write([0xc1] + LE(v, 2));
      } else {
        Write([0xc2] + LE(v, 4));
      }
    }

    method WriteLZFString(s: bytes) returns (ok: bool, ghost z: bytes)
      requires InSync() && 20 < |s| <= MAX_INT64
      modifies this`out, digest
      ensures InSync()
      ensures ok ==> Packs(z, s) && out == old(out) + PackedForm(s, z)
      ensures !ok ==> out == old(out) && !Shrinks(s)
    {
      hide InSync, LengthBytes, Lzf.Expand, Lzf.NoRepeat, Lzf.Repeats, Lzf.Budget;
      var packed := Lzf.Compress(s);
      if packed.Failed? { return false, []; }
      var stream := packed.data;
      Write([0xc3]);
      WriteLength(|stream|);
      WriteLength(|s|);
      Write(stream);
      ok, z := true, stream;
      ghost var h, l, m := [0xc3], LengthBytes(|z|), LengthBytes(|s|);
      assert old(out) + h + l + m + z == old(out) + (h + l + m + z);
    }

    method WriteString(s: bytes) returns (ghost e: bytes)
      requires InSync() && |s| <= MAX_INT64
      modifies this`out, digest
      ensures InSync() && out == old(out) + e && StringForm(compress, s, e)
    {
      hide InSync, IntForm, Encodable, BlobForm;
      var isInt := TryWriteIntString(s);
      if isInt { return IntForm(Encodable(s, MAX_INT32).value); }
      e := WriteNanString(s);
    }

    // Without the integer attempt.
    method WriteNanString(s: bytes) returns (ghost e: bytes)
      requires InSync() && |s| <= MAX_INT64
      modifies this`out, digest
      ensures InSync() && out == old(out) + e && BlobForm(compress, s, e)
    {
      hide InSync, PackedForm, PlainForm, Packs, Shrinks;
      if compress && |s| > 20 {
        var ok;
        ghost var z;
        ok, z := WriteLZFString(s);
        if ok { // otherwise it does not shrink
          PacksShorter(z, s);
          return PackedForm(s, z);
        }
      }
      WriteSimpleString(s);
      e := PlainForm(s);
    }

    method WriteZipList(values: seq<bytes>) returns (ghost e: bytes)
      requires InSync() && InMemory(values)
      modifies this`out, digest
      ensures InSync() && out == old(out) + e && ZipListForm(compress, values, e)
    {
      hide InSync, ZipListBytes, BlobForm, InMemory;
      ZipListLen(values);
      InMemoryEncodes(values);
      var buf := BuildZipList(values);
      e := WriteNanString(buf);
    }

    // The type byte and the key in front of every payload.
    method WriteTypeAndKey(t: byte, key: bytes) returns (ghost ek: bytes)
      requires InSync() && |key| <= MAX_INT64
      modifies this`out, digest
      ensures InSync() && out == old(out) + [t] + ek && StringForm(compress, key, ek)
    {
      hide InSync, StringForm;
      Write([t]);
      ek := WriteString(key);
    }

    // ---------------------------------------------------------------- lists

    method TryWriteListZipList(key: bytes, values: seq<bytes>) returns (ok: bool, ghost raw: bytes)
      requires InSync() && |key| <= MAX_INT64 && InMemory(values)
      modifies this`out, digest
      ensures InSync() && (ok <==> ListInZipList(Settings(), values))
      ensures out == old(out) + raw
      ensures if ok then ObjectForm(Settings(), key, ListV(values), raw) else raw == []
    {
      hide InSync, StringForm, ZipListForm, InMemory;
      if |values| > GetOpt(listOpt).GetMaxEntries() { return false, []; }
      var maxValue := GetOpt(listOpt).GetMaxValue();
      var i := 0;
      while i < |values|
        invariant 0 <= i <= |values| && forall k :: 0 <= k < i ==> |values[k]| <= maxValue
      {
        if |values[i]| > maxValue { return false, []; }
        i := i + 1;
      }
      ghost var ek := WriteTypeAndKey(10, key);
      ghost var e := WriteZipList(values);
      ok, raw := true, [10] + ek + e;
      FormOfParts(Settings(), key, ListV(values), ek, e);
      assert out == old(out) + raw;
    }

    method WriteQuickList(key: bytes, values: seq<bytes>) returns (ghost raw: bytes)
      requires InSync() && |key| <= MAX_INT64 && InMemory(values) && !ListInZipList(Settings(), values)
      modifies this`out, digest
      ensures InSync() && out == old(out) + raw && ObjectForm(Settings(), key, ListV(values), raw)
    {
      hide InSync, StringForm, ZipListForm, InMemory, LengthBytes, IsPaging, ListInZipList, Concat, PageForms;
      var pages := BuildPages(values, LIST_ZIPLIST_SIZE);
      PageSize(values, pages);
      InMemorySize(values);
      ghost var ek := WriteTypeAndKey(14, key);
      ghost var written := out;
      WriteLength(|pages|);
      ghost var parts := WritePages(values, pages);
      ghost var e := LengthBytes(|pages|) + Concat(parts);
      assert QuickListForm(compress, pages, e);
      raw := [14] + ek + e;
      FormOfParts(Settings(), key, ListV(values), ek, e);
      assert out == written + e;
      assert out == old(out) + raw;
    }

    method WritePages(ghost values: seq<bytes>, pages: seq<seq<bytes>>) returns (ghost parts: seq<bytes>)
      requires InSync() && InMemory(values) && IsPaging(values, LIST_ZIPLIST_SIZE, pages)
      modifies this`out, digest
      ensures InSync() && PageForms(compress, pages, parts) && out == old(out) + Concat(parts)
    {
      hide InSync, ZipListForm, InMemory, IsPaging, Concat;
      parts := [];
      ConcatNil();
      var i := 0;
      while i < |pages|
        invariant 0 <= i <= |pages| == i + (|pages| - i) && |parts| == i && InSync()
        invariant forall k :: 0 <= k < i ==> ZipListForm(compress, pages[k], parts[k])
        invariant out == old(out) + Concat(parts)
      {
        PageInMemory(values, pages, i);
        ghost var e := WriteZipList(pages[i]);
        ConcatSnoc(parts, e);
        parts := parts + [e];
        i := i + 1;
      }
    }

    // ---------------------------------------------------------------- sets

    method TryWriteIntSetEncoding(key: bytes, values: seq<bytes>) returns (ok: bool, ghost raw: bytes)
      requires InSync() && |key| <= MAX_INT64 && 8 + 8 * |values| <= MAX_INT64
      modifies this`out, digest
      ensures InSync() && (ok <==> AllInts(values))
      ensures out == old(out) + raw
      ensures if ok then ObjectForm(Settings(), key, SetV(values), raw) else raw == []
    {
      hide InSync, StringForm, AllInts, IntSetBytes, Sorted, BlobForm, Width;
      var ints, intSize;
      ok, ints, intSize := ScanInts(values);
      if !ok { return false, []; }
      SortedLen(ints);
      ghost var ek := WriteTypeAndKey(11, key);
      CellsLen(|ints|, intSize);
      var buf := BuildIntSet(ints, intSize);
      IntSetLen(Sorted(ints), intSize);
      ghost var e := WriteNanString(buf);
      raw := [11] + ek + e;
      assert IntSetForm(compress, values, e);
      FormOfParts(Settings(), key, SetV(values), ek, e);
      assert out == old(out) + raw;
    }

    method WriteSetEncoding(key: bytes, values: seq<bytes>) returns (ghost raw: bytes)
      requires InSync() && |key| <= MAX_INT64 && !AllInts(values) && |values| <= MAX_INT64
      requires forall i :: 0 <= i < |values| ==> |values[i]| <= MAX_INT64
      modifies this`out, digest
      ensures InSync() && out == old(out) + raw && ObjectForm(Settings(), key, SetV(values), raw)
    {
      hide InSync, StringForm, AllInts, LengthBytes, Concat;
      ghost var ek := WriteTypeAndKey(2, key);
      ghost var written := out;
      WriteLength(|values|);
      ghost var parts: seq<bytes> := [];
      ConcatNil();
      var i := 0;
      while i < |values|
        invariant 0 <= i <= |values| && |parts| == i && InSync()
        invariant forall k :: 0 <= k < i ==> |values[k]| < TWO64 && StringForm(compress, values[k], parts[k])
        invariant out == written + LengthBytes(|values|) + Concat(parts)
      {
        ghost var e := WriteString(values[i]);
        ConcatSnoc(parts, e);
        parts := parts + [e];
        i := i + 1;
      }
      ghost var e := LengthBytes(|values|) + Concat(parts);
      assert StringForms(compress, values, parts);
      assert SetForm(compress, values, e);
      raw := [2] + ek + e;
      FormOfParts(Settings(), key, SetV(values), ek, e);
      assert out == written + e;
      assert out == old(out) + raw;
    }

    // ---------------------------------------------------------------- hashes

    method TryWriteZipListHashMap(key: bytes, hash: Hash) returns (ok: bool, ghost raw: bytes)
      requires InSync() && |key| <= MAX_INT64 && ZipHashFits(Settings(), hash)
      modifies this`out, digest
      ensures InSync() && (ok <==> HashInZipList(Settings(), hash))
      ensures out == old(out) + raw
      ensures if ok then ObjectForm(Settings(), key, HashV(hash), raw) else raw == []
    {
      hide InSync, StringForm, ZipListForm, InMemory, Flat, ObjectForm, PayloadForm;
      if |hash| > GetOpt(hashOpt).GetMaxEntries() { return false, []; }
      ok := ValuesWithin(hash, GetOpt(hashOpt).GetMaxValue());
      if !ok { return false, []; }
      ghost var ek := WriteTypeAndKey(13, key);
      var order := Iterate(hash); // a second range, in its own order
      var entries := FlatEntries(hash, order);
      ghost var e := WriteZipList(entries);
      raw := [13] + ek + e;
      ZipHashOfParts(Settings(), hash, order, e);
      FormOfParts(Settings(), key, HashV(hash), ek, e);
      assert out == old(out) + raw;
    }

    method WriteRun(layout: Layout, hash: Hash, expire: Expiry) returns (ghost e: bytes)
      requires InSync() && HashFits(hash)
      modifies this`out, digest
      ensures InSync() && out == old(out) + e && RunForm(compress, layout, hash, expire, e)
    {
      hide InSync, LengthBytes, Concat, FieldForm;
      var order := Iterate(hash);
      EnumeratesSize(order, hash);
      WriteLength(|hash|);
      ghost var parts: seq<bytes> := [];
      ConcatNil();
      var i := 0;
      while i < |order|
        invariant 0 <= i <= |order| && |parts| == i && InSync()
        invariant forall k :: 0 <= k < i ==>
          FieldForm(compress, layout, order[k], hash[order[k]], TTLOf(expire, order[k]), parts[k])
        invariant out == old(out) + LengthBytes(|hash|) + Concat(parts)
      {
        ghost var part := WriteField(layout, hash, order[i], TTLOf(expire, order[i]));
        ConcatSnoc(parts, part);
        parts := parts + [part];
        i := i + 1;
      }
      e := LengthBytes(|hash|) + Concat(parts);
      assert Within(order, hash);
      assert FieldForms(compress, layout, hash, expire, order, parts);
      assert out == old(out) + e;
    }

    // One turn of the field loops of writeHashEncoding, writeHashEncodingEx and writeHash2Encoding.
    method WriteField(layout: Layout, hash: Hash, f: bytes, ttl: int64) returns (ghost e: bytes)
      requires InSync() && HashFits(hash) && f in hash
      modifies this`out, digest
      ensures InSync() && out == old(out) + e && FieldForm(compress, layout, f, hash[f], ttl, e)
    {
      hide InSync, LengthBytes, StringForm, LE, Stored;
      if layout.Relative? { WriteLength(Stored(layout, ttl)); }
      ghost var ef := WriteString(f);
      ghost var ev := WriteString(hash[f]);
      if layout.Absolute? { Write(LE(Stored(layout, ttl), 8)); }
      e := Before(layout, ttl) + ef + ev + After(layout, ttl);
      assert out == old(out) + e;
    }

    method WriteHashEncoding(key: bytes, hash: Hash) returns (ghost raw: bytes)
      requires InSync() && |key| <= MAX_INT64 && HashFits(hash) && !HashInZipList(Settings(), hash)
      modifies this`out, digest
      ensures InSync() && out == old(out) + raw && ObjectForm(Settings(), key, HashV(hash), raw)
    {
      hide InSync, StringForm, RunForm, HashInZipList, HashFits;
      ghost var ek := WriteTypeAndKey(4, key);
      ghost var e := WriteRun(Plain, hash, map[]);
      raw := [4] + ek + e;
      FormOfParts(Settings(), key, HashV(hash), ek, e);
      assert out == old(out) + raw;
    }

    // writeHashEncodingEx, or writeHash2Encoding for Valkey.
    method WriteHashWithTTLs(key: bytes, hash: Hash, expire: Expiry) returns (ghost raw: bytes)
      requires InSync() && |key| <= MAX_INT64 && HashFits(hash)
      modifies this`out, digest
      ensures InSync() && out == old(out) + raw && ObjectForm(Settings(), key, HashExV(hash, expire), raw)
    {
      hide InSync, StringForm, RunForm, HashFits, LE, IsMinExpire;
      ghost var ek;
      ghost var e;
      if valkey {
        ek := WriteTypeAndKey(22, key);
        e := WriteRun(Absolute, hash, expire);
        raw := [22] + ek + e;
      } else {
        ek := WriteTypeAndKey(24, key);
        var min := MinExpire(expire);
        Write(LE(min, 8));
        ghost var run := WriteRun(Relative(min), hash, expire);
        e := LE(min, 8) + run;
        assert RedisForm(compress, hash, expire, e);
        raw := [24] + ek + e;
      }
      FormOfParts(Settings(), key, HashExV(hash, expire), ek, e);
      assert out == old(out) + raw;
    }

    // ---------------------------------------------------------------- the public calls

    ghost var doc: Doc           // what has been written
    ghost var calls: seq<Call>   // every call so far, accepted or rejected

    // Log, checksum, state and database set all say what the document says.
    ghost predicate Consistent()
      reads this`out, this`existDB, this`state, this`doc, digest, digest.tab, digest.jones
    {
      && digest.Valid() && digest.poly == Crc64.JONES_REFLECTED
      && digest.written == Bv(BodyBytes(valkey, doc))
      && out == FileBytes(valkey, doc, digest.tab[..])
      && WellFormed(doc) && Formed(valkey, doc)
      && state == PhaseOf(doc) && existDB == Dbs(doc)
    }

    // ... and the document is the one the calls ask for.
    ghost predicate Valid()
      reads this, digest, digest.tab, digest.jones
    {
      Consistent() && Run(valkey, calls) == State(Settings(), Erase(doc))
    }

    // NewEncoder, NewEncoderValkey
    constructor (isValkey: bool)
      ensures Valid() && calls == [] && valkey == isValkey && out == [] && fresh(digest)
    {
      digest := new Crc64.Digest();
      out, existDB, compress, state, valkey := [], {}, false, StartP, isValkey;
      listOpt, hashOpt := None, None;
      doc, calls := EMPTY, [];
      new;
      assert Bv([]) == [];
      EraseEmpty();
    }

    // Moves to document d, whose bytes are in the log.
    method Commit(ghost d: Doc, phase: Phase)
      requires InSync() && Grown(valkey, d, phase, out) && existDB == Dbs(d)
      modifies this`doc, this`state
      ensures Consistent() && doc == d && state == phase
    {
      hide BodyBytes, WellFormed, Formed, PhaseOf, Dbs;
      doc, state := d, phase;
    }

    lemma StateIs()
      requires Consistent()
      ensures state == PhaseOf(doc) && existDB == Dbs(doc) && WellFormed(doc) && Formed(valkey, doc)
      ensures !doc.ended ==> InSync() && out == BodyBytes(valkey, doc)
    {
      hide BodyBytes, WellFormed, Formed, PhaseOf, Dbs;
    }

    method WriteHeader() returns (ok: bool)
      requires Valid()
      modifies this, digest
      ensures Valid() && calls == old(calls) + [Call.WriteHeader]
        && ok == Step(Run(valkey, old(calls)), Call.WriteHeader).1
    {
      hide HeaderBytes, BodyBytes, FileBytes, Formed, InSync, Consistent, Erase, Grown, Step, Run, WellFormed;
      StateIs();
      RunSnoc(valkey, calls, Call.WriteHeader);
      HeaderStep(Run(valkey, calls), doc);
      calls := calls + [Call.WriteHeader];
      if !Allowed(state, HeaderP) { return false; }
      HeaderGrows(valkey, doc);
      Write(HeaderBytes(valkey));
      assert out == HeaderBytes(valkey);
      Commit(doc.(header := true), HeaderP);
      ok := true;
    }

    method WriteAux(key: bytes, value: bytes) returns (ok: bool)
      requires Valid() && |key| <= MAX_INT64 && |value| <= MAX_INT64
      modifies this, digest
      ensures Valid() && calls == old(calls) + [Call.WriteAux(key, value)]
      ensures ok == Step(Run(valkey, old(calls)), Call.WriteAux(key, value)).1
    {
      hide BodyBytes, FileBytes, Formed, InSync, Consistent, Erase, Grown, StringForm, WellFormed, AuxForm, Step, Run,
        PhaseOf, Dbs;
      StateIs();
      RunSnoc(valkey, calls, Call.WriteAux(key, value));
      ghost var s := Run(valkey, calls);
      AuxStep(s, doc, key, value, []);
      calls := calls + [Call.WriteAux(key, value)];
      if !Allowed(state, AuxP) { return false; }
      ghost var a := WriteAuxItem(key, value);
      AuxStep(s, doc, key, value, a.raw);
      AuxGrows(valkey, doc, a);
      Commit(doc.(aux := doc.aux + [a]), AuxP);
      ok := true;
    }

    method WriteAuxItem(key: bytes, value: bytes) returns (ghost a: Aux)
      requires Consistent() && Allowed(PhaseOf(doc), AuxP) && |key| <= MAX_INT64 && |value| <= MAX_INT64
      modifies this`out, digest
      ensures InSync() && out == BodyBytes(valkey, doc) + a.raw
      ensures AuxForm(a) && a == Aux(compress, key, value, a.raw)
    {
      hide BodyBytes, FileBytes, Formed, InSync, Consistent, StringForm, WellFormed, AuxForm, Dbs;
      StateIs();
      NotEnded(doc);
      Write([250]);
      ghost var ek := WriteString(key);
      ghost var ev := WriteString(value);
      a := Aux(compress, key, value, [250] + ek + ev);
      AuxOfParts(a, ek, ev);
      assert out == BodyBytes(valkey, doc) + a.raw;
    }

    // The select-db and resize-db items.
    method WriteSelector(dbIndex: u64, keyCount: u64, ttlCount: u64)
      requires InSync()
      modifies this`out, digest
      ensures InSync() && out == old(out) + DbBytes(dbIndex, keyCount, ttlCount)
    {
      hide InSync, LengthBytes;
      Write([254]);
      WriteLength(dbIndex);
      Write([251]);
      WriteLength(keyCount);
      WriteLength(ttlCount);
      assert out == old(out) + DbBytes(dbIndex, keyCount, ttlCount);
    }

    method WriteDBHeader(dbIndex: u64, keyCount: u64, ttlCount: u64) returns (ok: bool)
      requires Valid()
      modifies this, digest
      ensures Valid() && calls == old(calls) + [Call.WriteDBHeader(dbIndex, keyCount, ttlCount)]
      ensures ok == Step(Run(valkey, old(calls)), Call.WriteDBHeader(dbIndex, keyCount, ttlCount)).1
    {
      hide BodyBytes, FileBytes, Formed, InSync, Consistent, Erase, Grown, WellFormed, DbBytes, Dbs, Step, Run, PhaseOf;
      ghost var c := Call.WriteDBHeader(dbIndex, keyCount, ttlCount);
      ghost var s := Section(dbIndex, keyCount, ttlCount, []);
      StateIs();
      RunSnoc(valkey, calls, c);
      DbStep(Run(valkey, calls), doc, dbIndex, keyCount, ttlCount);
      calls := calls + [c];
      if !Allowed(state, DbP) { return false; }
      if dbIndex in existDB { return false; }
      DbGrows(valkey, doc, s);
      existDB := existDB + {dbIndex};
      WriteSelector(dbIndex, keyCount, ttlCount);
      Commit(doc.(sections := doc.sections + [s]), DbP);
      ok := true;
    }

    // The CRC field is the CRC of every byte before it, and over the whole file the CRC is zero.
    method WriteEnd() returns (ok: bool)
      requires Valid()
      modifies this, digest
      ensures Valid() && calls == old(calls) + [Call.WriteEnd] && ok == Step(Run(valkey, old(calls)), Call.WriteEnd).1
      ensures ok ==>
        out == old(out) + [255]
          + Nats(Crc64.LittleEndian(Crc64.Fold(digest.tab[..], 0, Bv(old(out) + [255]))))
      ensures ok ==> Crc64.Fold(digest.tab[..], 0, Bv(out)) == 0
    {
      hide BodyBytes, FileBytes, Formed, InSync, Consistent, Erase, WellFormed, Step, Run, PhaseOf, Dbs,
        Crc64.Fold, Crc64.LittleEndian, Nats, Bv;
      StateIs();
      RunSnoc(valkey, calls, Call.WriteEnd);
      EndStep(Run(valkey, calls), doc);
      calls := calls + [Call.WriteEnd];
      if !Allowed(state, EndP) { return false; }
      EndGrows(valkey, doc);
      Write([255]);
      WriteChecksum();
      ok := true;
    }

    // The trailer goes to the writer directly, past the running checksum.
    method WriteChecksum()
      requires InSync() && !doc.ended && out == BodyBytes(valkey, doc.(ended := true))
      requires var d := doc.(ended := true);
        WellFormed(d) && Formed(valkey, d) && PhaseOf(d) == EndP && Dbs(d) == existDB
      modifies this`out, this`doc, this`state
      ensures Consistent() && doc == old(doc).(ended := true)
      ensures out == old(out) + Nats(Crc64.LittleEndian(Crc64.Fold(digest.tab[..], 0, Bv(old(out)))))
      ensures Crc64.Fold(digest.tab[..], 0, Bv(out)) == 0
    {
      hide BodyBytes, Formed, WellFormed, PhaseOf, Dbs, Crc64.Fold, Crc64.LittleEndian, Nats, Bv, Crc64.IsTable;
      var checkSum := digest.Sum([]);
      assert checkSum == Crc64.LittleEndian(digest.crc);
      out := out + Nats(checkSum);
      doc, state := doc.(ended := true), EndP;
      FileResidue(valkey, doc, digest.tab[..]);
    }

    method WriteTTL(expiration: u64) returns (ok: bool)
      requires Consistent()
      modifies this`out, this`state, this`doc, digest
      ensures Consistent() && (ok <==> Allowed(old(state), TTLP))
      ensures doc == if ok then old(doc).(pending := Some(expiration)) else old(doc)
    {
      hide BodyBytes, FileBytes, Formed, InSync, Consistent, Grown, WellFormed, LE, Dbs;
      StateIs();
      if !Allowed(state, TTLP) { return false; }
      PendingGrows(valkey, doc, expiration);
      Write([252]);
      Write(LE(expiration, 8));
      assert out == BodyBytes(valkey, doc) + ([252] + LE(expiration, 8));
      Commit(doc.(pending := Some(expiration)), TTLP);
      ok := true;
    }

    method BeforeWriteObject(options: seq<u64>) returns (ok: bool)
      requires Consistent()
      modifies this`out, this`state, this`doc, digest
      ensures Consistent() && (ok <==> Accepts(PhaseOf(old(doc)), options)) && doc == WithTTL(old(doc), options)
      ensures ok ==> Allowed(PhaseOf(doc), ObjectP) && !doc.ended
    {
      hide BodyBytes, FileBytes, Formed, InSync, Consistent, Grown, WellFormed, LE, Dbs;
      StateIs();
      if !Allowed(state, ObjectP) { return false; }
      var i := 0;
      while i < |options|
        invariant 0 <= i <= |options| && Consistent()
        invariant i == 0 ==> doc == old(doc) && state == old(state)
        invariant i > 0 ==> i == 1 && Allowed(PhaseOf(old(doc)), TTLP) && doc == old(doc).(pending := Some(options[0]))
        invariant i > 0 ==> state == PhaseOf(doc)
      {
        StateIs();
        if i > 0 { PendingPhase(old(doc), options[0]); }
        ok := WriteTTL(options[i]);
        if !ok { return false; }
        StateIs();
        i := i + 1;
      }
      if i > 0 { PendingPhase(old(doc), options[0]); }
      NotEnded(doc);
      ok := true;
    }

    // The end of every object call: the object's bytes are in the log.
    method FinishObject(ghost key: bytes, ghost value: Value, ghost options: seq<u64>, ghost before: bytes,
                        ghost raw: bytes)
      requires InSync() && before == BodyBytes(valkey, doc) && out == before + raw
      requires WellFormed(doc) && Formed(valkey, doc) && existDB == Dbs(doc) && Allowed(PhaseOf(doc), ObjectP)
      requires ObjectForm(Settings(), key, value, raw)
      modifies this`doc, this`state
      ensures old(doc).sections != [] && Consistent()
      ensures doc == AddEntry(old(doc), Entry(old(doc).pending, OwnTTL(options), Settings(), key, value, raw))
    {
      hide BodyBytes, FileBytes, Formed, InSync, Consistent, Grown, WellFormed, Dbs, ObjectForm;
      ghost var e := Entry(doc.pending, OwnTTL(options), Settings(), key, value, raw);
      EntryGrows(valkey, doc, e);
      Commit(AddEntry(doc, e), ObjectP);
    }

    // What every object call promises.
    twostate predicate Did(c: Call, ok: bool)
      reads this, digest, digest.tab, digest.jones
    {
      Valid() && calls == old(calls) + [c] && ok == Step(Run(valkey, old(calls)), c).1
    }

    method WriteStringObject(key: bytes, value: bytes, options: seq<u64>) returns (ok: bool)
      requires Valid() && |key| <= MAX_INT64 && |value| <= MAX_INT64
      modifies this, digest
      ensures Did(WriteObject(key, StringV(value), options), ok)
    {
      hide BodyBytes, FileBytes, Formed, InSync, Consistent, Erase, WellFormed, Step, Run, PhaseOf, Dbs, StringForm,
        ObjectForm;
      ok := BeginObject(key, StringV(value), options);
      if !ok { return; }
      ghost var before := out;
      ghost var ek := WriteTypeAndKey(0, key);
      ghost var e := WriteString(value);
      FormOfParts(Settings(), key, StringV(value), ek, e);
      assert out == before + ([0] + ek + e);
      FinishObject(key, StringV(value), options, before, [0] + ek + e);
    }

    method WriteListObject(key: bytes, values: seq<bytes>, options: seq<u64>) returns (ok: bool)
      requires Valid() && |key| <= MAX_INT64 && InMemory(values)
      modifies this, digest
      ensures Did(WriteObject(key, ListV(values), options), ok)
    {
      hide BodyBytes, FileBytes, Formed, InSync, Consistent, Erase, WellFormed, Step, Run, PhaseOf, Dbs, ObjectForm,
        InMemory;
      ok := BeginObject(key, ListV(values), options);
      if !ok { return; }
      ghost var before := out;
      var packed;
      ghost var raw;
      packed, raw := TryWriteListZipList(key, values);
      if !packed { raw := WriteQuickList(key, values); }
      FinishObject(key, ListV(values), options, before, raw);
    }

    method WriteSetObject(key: bytes, values: seq<bytes>, options: seq<u64>) returns (ok: bool)
      requires Valid() && |key| <= MAX_INT64 && 8 + 8 * |values| <= MAX_INT64
      requires forall i :: 0 <= i < |values| ==> |values[i]| <= MAX_INT64
      modifies this, digest
      ensures Did(WriteObject(key, SetV(values), options), ok)
    {
      hide BodyBytes, FileBytes, Formed, InSync, Consistent, Erase, WellFormed, Step, Run, PhaseOf, Dbs, ObjectForm,
        AllInts;
      ok := BeginObject(key, SetV(values), options);
      if !ok { return; }
      ghost var before := out;
      var packed;
      ghost var raw;
      packed, raw := TryWriteIntSetEncoding(key, values);
      if !packed { raw := WriteSetEncoding(key, values); }
      FinishObject(key, SetV(values), options, before, raw);
    }

    method WriteHashMapObject(key: bytes, hash: Hash, options: seq<u64>) returns (ok: bool)
      requires Valid() && |key| <= MAX_INT64 && HashFits(hash) && ZipHashFits(Settings(), hash)
      modifies this, digest
      ensures Did(WriteObject(key, HashV(hash), options), ok)
    {
      hide BodyBytes, FileBytes, Formed, InSync, Consistent, Erase, WellFormed, Step, Run, PhaseOf, Dbs, ObjectForm,
        HashFits, ZipHashFits, HashInZipList;
      ok := BeginObject(key, HashV(hash), options);
      if !ok { return; }
      ghost var before := out;
      var packed;
      ghost var raw;
      packed, raw := TryWriteZipListHashMap(key, hash);
      if !packed { raw := WriteHashEncoding(key, hash); }
      FinishObject(key, HashV(hash), options, before, raw);
    }

    method WriteHashMapObjectEx(key: bytes, hash: Hash, expire: Expiry, options: seq<u64>) returns (ok: bool)
      requires Valid() && |key| <= MAX_INT64 && HashFits(hash)
      modifies this, digest
      ensures Did(WriteObject(key, HashExV(hash, expire), options), ok)
    {
      hide BodyBytes, FileBytes, Formed, InSync, Consistent, Erase, WellFormed, Step, Run, PhaseOf, Dbs, ObjectForm,
        HashFits;
      ok := BeginObject(key, HashExV(hash, expire), options);
      if !ok { return; }
      ghost var before := out;
      ghost var raw := WriteHashWithTTLs(key, hash, expire);
      FinishObject(key, HashExV(hash, expire), options, before, raw);
    }

    // Records the call and runs beforeWriteObject. An accepted call leaves the document open for
    // the object's bytes, and closing it there makes the run complete.
    method BeginObject(ghost key: bytes, ghost value: Value, options: seq<u64>) returns (ok: bool)
      requires Valid()
      modifies this, digest
      ensures calls == old(calls) + [WriteObject(key, value, options)]
      ensures ok == Step(Run(valkey, old(calls)), WriteObject(key, value, options)).1
      ensures Settings() == old(Settings()) && Consistent()
      ensures !ok ==> Valid()
      ensures ok ==> InSync() && out == BodyBytes(valkey, doc) && Allowed(PhaseOf(doc), ObjectP) && existDB == Dbs(doc)
      ensures ok ==> WellFormed(doc) && Formed(valkey, doc) && doc.sections != []
      ensures ok ==> forall raw ::
        Run(valkey, calls) == State(Settings(),
          Erase(AddEntry(doc, Entry(doc.pending, OwnTTL(options), Settings(), key, value, raw))))
    {
      hide BodyBytes, FileBytes, Formed, InSync, Consistent, Erase, WellFormed, Step, Run, PhaseOf, Dbs, AddEntry;
      ghost var c := WriteObject(key, value, options);
      ghost var s, d := Run(valkey, calls), doc;
      RunSnoc(valkey, calls, c);
      calls := calls + [c];
      ok := BeforeWriteObject(options);
      StateIs();
      if !ok {
        ObjectRejected(s, d, key, value, options);
        return;
      }
      forall raw ensures doc.sections != [] && Run(valkey, calls) ==
        State(Settings(), Erase(AddEntry(doc, Entry(doc.pending, OwnTTL(options), Settings(), key, value, raw))))
      {
        ObjectAccepted(s, d, key, value, options, raw);
      }
      ObjectAccepted(s, d, key, value, options, []);
    }

    method EnableCompress()
      requires Valid()
      modifies this`compress, this`calls
      ensures Valid() && calls == old(calls) + [Call.EnableCompress]
    {
      hide BodyBytes, FileBytes, Formed, InSync, Consistent, Erase, WellFormed, Run, Dbs;
      RunSnoc(valkey, calls, Call.EnableCompress);
      calls, compress := calls + [Call.EnableCompress], true;
    }

    method SetListZipListOpt(opt: ZipListOpt)
      requires Valid()
      modifies this`listOpt, this`calls
      ensures Valid() && calls == old(calls) + [Call.SetListZipListOpt(opt)]
    {
      hide BodyBytes, FileBytes, Formed, InSync, Consistent, Erase, WellFormed, Run, Dbs;
      RunSnoc(valkey, calls, Call.SetListZipListOpt(opt));
      calls, listOpt := calls + [Call.SetListZipListOpt(opt)], Some(opt);
    }

    method SetHashZipListOpt(opt: ZipListOpt)
      requires Valid()
      modifies this`hashOpt, this`calls
      ensures Valid() && calls == old(calls) + [Call.SetHashZipListOpt(opt)]
    {
      hide BodyBytes, FileBytes, Formed, InSync, Consistent, Erase, WellFormed, Run, Dbs;
      RunSnoc(valkey, calls, Call.SetHashZipListOpt(opt));
      calls, hashOpt := calls + [Call.SetHashZipListOpt(opt)], Some(opt);
    }
  }
}
