/** Hashes (core/hash.go): a ziplist of alternating fields and values, a plain run of pairs, and the
    two layouts with field TTLs. A map is written in some iteration order, given as a sequence. */
module Hashes {
  import opened Bytes
  import opened Strings
  import opened Ziplist
  import opened Lists

  type int64 = v: int | -0x8000_0000_0000_0000 <= v < 0x8000_0000_0000_0000

  type Hash = map<bytes, bytes>
  type Expiry = map<bytes, int64>

  const EB_EXPIRE_TIME_MAX := 0x0000_FFFF_FFFF_FFFF
  const EB_EXPIRE_TIME_INVALID := EB_EXPIRE_TIME_MAX + 1

  // ------------------------------------------------------------------ iteration orders

  predicate Distinct(order: seq<bytes>) {
    forall i, j :: 0 <= i < j < |order| ==> order[i] != order[j]
  }

  // order visits every key of the map exactly once.
  ghost predicate Enumerates<V>(order: seq<bytes>, m: map<bytes, V>) {
    Distinct(order) && forall f :: f in order <==> f in m
  }

  // Every field in order is a field of the map.
  predicate Within(order: seq<bytes>, m: map<bytes, bytes>) {
    forall f :: f in order ==> f in m
  }

  lemma EnumeratesSize<V>(order: seq<bytes>, m: map<bytes, V>)
    requires Enumerates(order, m)
    ensures |order| == |m|
  {
    DistinctSize(order);
    assert (set f | f in order) == m.Keys;
  }

  lemma {:induction false} DistinctSize(order: seq<bytes>)
    requires Distinct(order)
    ensures |set f | f in order| == |order|
  {
    if order != [] {
      var last := order[|order| - 1];
      var init := order[..|order| - 1];
      DistinctSize(init);
      assert (set f | f in order) == (set f | f in init) + {last};
      assert last !in init;
    }
  }

  // ------------------------------------------------------------------ field TTLs

  // expire[field], 0 when absent.
  function TTLOf(expire: Expiry, f: bytes): int64 {
    if f in expire then expire[f] else 0
  }

  // The least TTL in 1..EB_EXPIRE_TIME_MAX, or 0 if there is none.
  ghost predicate IsMinExpire(expire: Expiry, min: nat) {
    && (forall f :: f in expire && 0 < expire[f] < EB_EXPIRE_TIME_INVALID ==> 0 < min <= expire[f])
    && (min > 0 ==> exists f :: f in expire && expire[f] == min < EB_EXPIRE_TIME_INVALID)
  }

  datatype Layout =
    | Plain                // no TTLs
    | Relative(min: int)   // Redis 7.4: TTLs relative to the minimum, before each pair
    | Absolute             // Valkey 9: absolute TTLs, after each pair

  // The TTL as a layout stores it, modulo 2^64.
  function Stored(layout: Layout, ttl: int64): (n: nat)
    ensures n < TWO64
  {
    match layout
    case Plain => 0
    case Relative(min) => if ttl == 0 then 0 else Unsigned(ttl - min + 1, TWO64)
    case Absolute => if ttl == 0 then TWO64 - 1 else Unsigned(ttl, TWO64)
  }

  // The TTL a reader recovers from a stored value; None is a reported error.
  function Recovered(layout: Layout, n: nat): (r: Option<int>)
    requires n < TWO64
  {
    match layout
    case Plain => Some(0)
    case Relative(min) =>
      var expire := if n == 0 then 0 else Wrap64(Signed(n, TWO64) + min - 1);
      if expire > EB_EXPIRE_TIME_MAX then None else Some(expire)
    case Absolute =>
      var expire := Signed(n, TWO64);
      Some(if expire < 0 then 0 else expire)
  }

  // TTLs a layout can carry.
  predicate Carries(layout: Layout, ttl: int64) {
    match layout
    case Plain => ttl == 0
    case Relative(min) => ttl <= EB_EXPIRE_TIME_MAX && (ttl == 0 || ttl != min - 1)
    case Absolute => ttl >= 0
  }

  // A TTL survives storing and reading exactly when its layout carries it.
  lemma TTLRoundTrip(layout: Layout, ttl: int64)
    requires layout.Relative? ==> 0 <= layout.min <= EB_EXPIRE_TIME_MAX
    ensures Recovered(layout, Stored(layout, ttl)) == Some(ttl) <==> Carries(layout, ttl)
  {
    match layout
    case Plain =>
    case Absolute =>
      SignedUnsigned(ttl, TWO64);
      assert Signed(TWO64 - 1, TWO64) == -1;
    case Relative(min) =>
      if ttl != 0 { RelativeRoundTrip(min, ttl); }
  }

  // What becomes of the others: above the maximum they are refused, negative ones are read as none in
  // the absolute layout, and in the relative one so is the one below the minimum.
  lemma LostTTLs(layout: Layout, ttl: int64)
    requires layout.Relative? ==> 0 <= layout.min <= EB_EXPIRE_TIME_MAX
    ensures layout.Relative? && ttl > EB_EXPIRE_TIME_MAX ==> Recovered(layout, Stored(layout, ttl)) == None
    ensures layout.Relative? && ttl == layout.min - 1 ==> Recovered(layout, Stored(layout, ttl)) == Some(0)
    ensures layout.Absolute? && ttl < 0 ==> Recovered(layout, Stored(layout, ttl)) == Some(0)
  {
    match layout
    case Plain =>
    case Absolute => SignedUnsigned(ttl, TWO64);
    case Relative(min) =>
      if ttl != 0 { RelativeRoundTrip(min, ttl); }
  }

  lemma RelativeRoundTrip(min: nat, ttl: int64)
    requires min <= EB_EXPIRE_TIME_MAX && ttl != 0
    ensures Stored(Relative(min), ttl) == 0 <==> ttl == min - 1
    ensures var n := Stored(Relative(min), ttl); n != 0 ==> Wrap64(Signed(n, TWO64) + min - 1) == ttl
  {
    var d := ttl - min + 1;
    var k := if d >= 0 then 0 else -1;
    ModUnique(d, TWO64, k, d - k * TWO64);
    var n := Unsigned(d, TWO64);
    var s := Signed(n, TWO64) + min - 1;
    WrapBack(s, ttl, if s == ttl then 0 else if s < ttl then -1 else 1);
  }

  // int64 arithmetic is exact up to multiples of 2^64.
  lemma WrapBack(s: int, v: int64, k: int)
    requires -1 <= k <= 1 && s == v + k * TWO64
    ensures Wrap64(s) == v
  {
    ModUnique(s, TWO64, if v >= 0 then k else k - 1, if v >= 0 then v else v + TWO64);
  }

  // ------------------------------------------------------------------ one field

  function Before(layout: Layout, ttl: int64): bytes {
    if layout.Relative? then LengthBytes(Stored(layout, ttl)) else []
  }

  function After(layout: Layout, ttl: int64): bytes {
    if layout.Absolute? then LE(Stored(layout, ttl), 8) else []
  }

  // The bytes a layout may produce for one field.
  ghost predicate FieldForm(compress: bool, layout: Layout, f: bytes, v: bytes, ttl: int64, e: bytes) {
    |f| < TWO64 && |v| < TWO64 && exists ef, ev ::
      StringForm(compress, f, ef) && StringForm(compress, v, ev)
        && e == Before(layout, ttl) + ef + ev + After(layout, ttl)
  }

  datatype Field = Field(name: bytes, value: bytes, expire: int)

  // The loop bodies of readHashMap, readHashMapEx and readHashMapExValkey.
  function ReadField(layout: Layout, b: bytes, p: nat): (r: Res<Field>)
    ensures r.Ok? ==> p < r.next <= |b|
  {
    match layout
    case Plain =>
      var (f, p1) :- ReadString(b, p);
      var (v, p2) :- ReadString(b, p1);
      Ok(Field(f, v, 0), p2)
    case Relative(min) =>
      var (l, p1) :- ReadLength(b, p);
      var expire := if l.n == 0 then 0 else Wrap64(Signed(l.n, TWO64) + min - 1);
      if expire > EB_EXPIRE_TIME_MAX then Fail(Corrupt)
      else
        var (f, p2) :- ReadString(b, p1);
        var (v, p3) :- ReadString(b, p2);
        Ok(Field(f, v, expire), p3)
    case Absolute =>
      var (f, p1) :- ReadString(b, p);
      var (v, p2) :- ReadString(b, p1);
      var (expire, p3) :- ReadInt64(b, p2);
      Ok(Field(f, v, if expire < 0 then 0 else expire), p3)
  }

  // readInt64
  function ReadInt64(b: bytes, p: nat): (r: Res<int>)
    ensures r.Ok? ==> r.next == p + 8 <= |b|
  {
    var (e, q) :- ReadBytes(b, p, 8);
    FromLEPow(e); Powers();
    Ok(Signed(FromLE(e), TWO64), q)
  }

  lemma ReadInt64Of(b: bytes, p: nat, n: nat)
    requires n < TWO64 && At(b, p, LE(n, 8))
    ensures ReadInt64(b, p) == Ok(Signed(n, TWO64), p + 8)
  {
    hide LE, FromLE, Pow256;
    FromLEofLE(n, 8);
    Powers();
    SmallMod(n, TWO64);
  }

  // Reading a field gives the name and value back; its TTL is what its stored value means.
  lemma ReadFieldForm(compress: bool, layout: Layout, b: bytes, p: nat, f: bytes, v: bytes, ttl: int64, e: bytes)
    requires FieldForm(compress, layout, f, v, ttl, e) && At(b, p, e)
    requires Packable(compress, f) && Packable(compress, v)
    ensures ReadField(layout, b, p) ==
      match Recovered(layout, Stored(layout, ttl))
      case None => Fail(Corrupt)
      case Some(t) => Ok(Field(f, v, t), p + |e|)
  {
    hide StringForm, At, ReadString, ReadLength, LengthBytes, Stored, LE, ReadInt64;
    var ef, ev :| StringForm(compress, f, ef) && StringForm(compress, v, ev)
      && e == Before(layout, ttl) + ef + ev + After(layout, ttl);
    FieldParts(b, p, Before(layout, ttl), ef, ev, After(layout, ttl));
    var q := p + |Before(layout, ttl)|;
    ReadStringForm(compress, b, q, f, ef);
    ReadStringForm(compress, b, q + |ef|, v, ev);
    var n := Stored(layout, ttl);
    if layout.Relative? { ReadLengthBytes(b, p, n); }
    if layout.Absolute? { ReadInt64Of(b, q + |ef| + |ev|, n); }
  }

  lemma FieldParts(b: bytes, p: nat, pre: bytes, ef: bytes, ev: bytes, post: bytes)
    requires At(b, p, pre + ef + ev + post)
    ensures At(b, p, pre) && At(b, p + |pre|, ef) && At(b, p + |pre| + |ef|, ev) && At(b, p + |pre| + |ef| + |ev|, post)
  {
    hide At;
    AtConcat(b, p, pre + ef + ev, post);
    AtConcat(b, p, pre + ef, ev);
    AtConcat(b, p, pre, ef);
  }

  // ------------------------------------------------------------------ all fields

  datatype Fields = Fields(hash: map<bytes, bytes>, expire: map<bytes, int>)

  function ReadFields(layout: Layout, b: bytes, p: nat, n: nat, acc: Fields): (r: Res<Fields>)
    ensures r.Ok? ==> p <= r.next && (p <= |b| ==> r.next <= |b|)
    decreases n
  {
    if n == 0 then Ok(acc, p)
    else
      var (f, q) :- ReadField(layout, b, p);
      ReadFields(layout, b, q, n - 1, Fields(acc.hash[f.name := f.value], acc.expire[f.name := f.expire]))
  }

  ghost predicate FieldForms(compress: bool, layout: Layout, hash: Hash, expire: Expiry, order: seq<bytes>,
                             parts: seq<bytes>) {
    |order| == |parts| && Within(order, hash)
    && forall i :: 0 <= i < |order| ==>
         FieldForm(compress, layout, order[i], hash[order[i]], TTLOf(expire, order[i]), parts[i])
  }

  predicate HashPackable(compress: bool, hash: Hash) {
    forall f :: f in hash ==> Packable(compress, f) && Packable(compress, hash[f])
  }

  // What the fields in order add to acc, when every TTL is recovered.
  function Gather(layout: Layout, hash: Hash, expire: Expiry, order: seq<bytes>, acc: Fields): Option<Fields>
    requires Within(order, hash)
    decreases |order|
  {
    if order == [] then Some(acc)
    else
      var f := order[0];
      match Recovered(layout, Stored(layout, TTLOf(expire, f)))
      case None => None
      case Some(t) =>
        Gather(layout, hash, expire, order[1..], Fields(acc.hash[f := hash[f]], acc.expire[f := t]))
  }

  lemma {:induction false} ReadFieldForms(compress: bool, layout: Layout, b: bytes, p: nat, hash: Hash, expire: Expiry,
                                          order: seq<bytes>, parts: seq<bytes>, acc: Fields)
    requires FieldForms(compress, layout, hash, expire, order, parts) && HashPackable(compress, hash)
    requires At(b, p, Concat(parts))
    ensures ReadFields(layout, b, p, |order|, acc) ==
      match Gather(layout, hash, expire, order, acc)
      case None => Fail(Corrupt)
      case Some(fields) => Ok(fields, p + |Concat(parts)|)
    decreases |order|
  {
    hide FieldForm, At, ReadField, Recovered, Stored, Packable;
    if order != [] {
      var f := order[0];
      var ttl := TTLOf(expire, f);
      AtConcat(b, p, parts[0], Concat(parts[1..]));
      ReadFieldForm(compress, layout, b, p, f, hash[f], ttl, parts[0]);
      var t := Recovered(layout, Stored(layout, ttl));
      if t.Some? {
        ReadFieldForms(compress, layout, b, p + |parts[0]|, hash, expire, order[1..], parts[1..],
                       Fields(acc.hash[f := hash[f]], acc.expire[f := t.value]));
      }
    }
  }

  // The fields and TTLs of a hash, absent TTLs being 0.
  function AllFields(hash: Hash, expire: Expiry): Fields {
    Fields(hash, map f | f in hash :: TTLOf(expire, f))
  }

  predicate AllCarried(layout: Layout, hash: Hash, expire: Expiry) {
    forall f :: f in hash ==> Carries(layout, TTLOf(expire, f))
  }

  // What gathering promises once the fields in order are done: those in order have their value and
  // recovered TTL, the others are as before.
  lemma {:induction false} GatherIs(layout: Layout, hash: Hash, expire: Expiry, order: seq<bytes>, acc: Fields)
    requires Distinct(order) && Within(order, hash)
    ensures var r := Gather(layout, hash, expire, order, acc);
      && (r.None? <==> exists f :: f in order && Recovered(layout, Stored(layout, TTLOf(expire, f))).None?)
      && (r.Some? ==>
           && (forall f :: f in r.value.hash <==> f in acc.hash || f in order)
           && (forall f :: f in r.value.expire <==> f in acc.expire || f in order)
           && (forall f :: f in order ==>
             && r.value.hash[f] == hash[f]
             && Some(r.value.expire[f]) == Recovered(layout, Stored(layout, TTLOf(expire, f))))
           && (forall f :: f in acc.hash && f !in order ==> r.value.hash[f] == acc.hash[f])
           && (forall f :: f in acc.expire && f !in order ==> r.value.expire[f] == acc.expire[f]))
    decreases |order|
  {
    hide Recovered, Stored, TTLOf;
    if order != [] {
      var f := order[0];
      var t := Recovered(layout, Stored(layout, TTLOf(expire, f)));
      assert order == [f] + order[1..];
      if t.Some? {
        GatherIs(layout, hash, expire, order[1..], Fields(acc.hash[f := hash[f]], acc.expire[f := t.value]));
        assert f !in order[1..];
      }
    }
  }

  // All fields of a hash written in some order: gathered back exactly when every TTL is carried.
  lemma GatherAll(layout: Layout, hash: Hash, expire: Expiry, order: seq<bytes>)
    requires Enumerates(order, hash) && Within(order, hash)
    requires layout.Relative? ==> 0 <= layout.min <= EB_EXPIRE_TIME_MAX
    ensures Gather(layout, hash, expire, order, Fields(map[], map[])) == Some(AllFields(hash, expire))
        <==> AllCarried(layout, hash, expire)
    ensures var r := Gather(layout, hash, expire, order, Fields(map[], map[])); r.Some? ==> r.value.hash == hash
  {
    hide Recovered, Stored, TTLOf, Carries, Gather;
    if AllCarried(layout, hash, expire) {
      GatherCarried(layout, hash, expire, order);
    } else {
      var f :| f in hash && !Carries(layout, TTLOf(expire, f));
      GatherLoses(layout, hash, expire, order, f);
    }
    GatherHash(layout, hash, expire, order);
  }

  lemma GatherHash(layout: Layout, hash: Hash, expire: Expiry, order: seq<bytes>)
    requires Enumerates(order, hash) && Within(order, hash)
    ensures var r := Gather(layout, hash, expire, order, Fields(map[], map[]));
      r.Some? ==> r.value.hash == hash && r.value.expire.Keys == hash.Keys
  {
    hide Recovered, Stored, TTLOf, Gather;
    GatherIs(layout, hash, expire, order, Fields(map[], map[]));
  }

  lemma GatherCarried(layout: Layout, hash: Hash, expire: Expiry, order: seq<bytes>)
    requires Enumerates(order, hash) && Within(order, hash) && AllCarried(layout, hash, expire)
    requires layout.Relative? ==> 0 <= layout.min <= EB_EXPIRE_TIME_MAX
    ensures Gather(layout, hash, expire, order, Fields(map[], map[])) == Some(AllFields(hash, expire))
  {
    hide Recovered, Stored, TTLOf, Gather, Carries;
    GatherIs(layout, hash, expire, order, Fields(map[], map[]));
    GatherHash(layout, hash, expire, order);
    forall f | f in hash ensures Recovered(layout, Stored(layout, TTLOf(expire, f))) == Some(TTLOf(expire, f)) {
      TTLRoundTrip(layout, TTLOf(expire, f));
    }
    var r := Gather(layout, hash, expire, order, Fields(map[], map[]));
    assert r.Some?;
    assert r.value.expire == AllFields(hash, expire).expire;
  }

  lemma GatherLoses(layout: Layout, hash: Hash, expire: Expiry, order: seq<bytes>, f: bytes)
    requires Enumerates(order, hash) && Within(order, hash) && f in hash && !Carries(layout, TTLOf(expire, f))
    requires layout.Relative? ==> 0 <= layout.min <= EB_EXPIRE_TIME_MAX
    ensures Gather(layout, hash, expire, order, Fields(map[], map[])) != Some(AllFields(hash, expire))
  {
    hide Recovered, Stored, TTLOf, Gather, Carries;
    GatherIs(layout, hash, expire, order, Fields(map[], map[]));
    TTLRoundTrip(layout, TTLOf(expire, f));
    var all := AllFields(hash, expire);
    assert all.expire[f] == TTLOf(expire, f);
  }

  // ------------------------------------------------------------------ whole hashes

  // readHashMap; the plain layout reads the same with an empty expiry.
  function ReadHashMap(b: bytes, p: nat): (r: Res<Fields>)
    ensures r.Ok? ==> p < r.next <= |b|
  {
    var (l, q) :- ReadLength(b, p);
    ReadFields(Plain, b, q, AsInt(l.n), Fields(map[], map[]))
  }

  // readHashMapEx for Redis 7.4
  function ReadHashMapEx(b: bytes, p: nat): (r: Res<Fields>)
    ensures r.Ok? ==> p < r.next <= |b|
  {
    var (min, p1) :- ReadInt64(b, p);
    if min > EB_EXPIRE_TIME_INVALID then Fail(Corrupt)
    else
      var (l, p2) :- ReadLength(b, p1);
      if l.n == 0 then Fail(Corrupt)
      else ReadFields(Relative(min), b, p2, AsInt(l.n), Fields(map[], map[]))
  }

  // readHashMapExValkey
  function ReadHashMapExValkey(b: bytes, p: nat): (r: Res<Fields>)
    ensures r.Ok? ==> p < r.next <= |b|
  {
    var (l, q) :- ReadLength(b, p);
    if l.n == 0 then Fail(Corrupt)
    else ReadFields(Absolute, b, q, AsInt(l.n), Fields(map[], map[]))
  }

  // The field count and the fields of a hash, in some order.
  ghost predicate RunForm(compress: bool, layout: Layout, hash: Hash, expire: Expiry, e: bytes) {
    |hash| < TWO64 && exists order, parts ::
      Enumerates(order, hash) && FieldForms(compress, layout, hash, expire, order, parts)
        && e == LengthBytes(|hash|) + Concat(parts)
  }

  lemma ReadRunForm(compress: bool, layout: Layout, b: bytes, p: nat, hash: Hash, expire: Expiry, e: bytes)
    requires RunForm(compress, layout, hash, expire, e) && |hash| <= MAX_INT64 && At(b, p, e)
    requires HashPackable(compress, hash) && (layout.Relative? ==> 0 <= layout.min <= EB_EXPIRE_TIME_MAX)
    ensures var l := ReadLength(b, p);
      && l.Ok? && l.value.n == |hash|
      && var r := ReadFields(layout, b, l.next, |hash|, Fields(map[], map[]));
         && (r == Ok(AllFields(hash, expire), p + |e|) <==> AllCarried(layout, hash, expire))
         && (r.Ok? ==> r.value.hash == hash && r.next == p + |e|)
  {
    hide At, ReadFields, ReadLength, LengthBytes, FieldForms, Gather, AllFields, AllCarried, HashPackable;
    var order, parts :| Enumerates(order, hash) && FieldForms(compress, layout, hash, expire, order, parts)
      && e == LengthBytes(|hash|) + Concat(parts);
    EnumeratesSize(order, hash);
    AtConcat(b, p, LengthBytes(|hash|), Concat(parts));
    ReadLengthBytes(b, p, |hash|);
    ReadFieldForms(compress, layout, b, p + |LengthBytes(|hash|)|, hash, expire, order, parts, Fields(map[], map[]));
    GatherAll(layout, hash, expire, order);
  }

  lemma AllCarriedPlain(hash: Hash)
    ensures AllCarried(Plain, hash, map[])
  {}

  // A plain hash reads back whatever the iteration order was.
  lemma ReadHashForm(compress: bool, b: bytes, p: nat, hash: Hash, e: bytes)
    requires RunForm(compress, Plain, hash, map[], e) && |hash| <= MAX_INT64 && At(b, p, e)
    requires HashPackable(compress, hash)
    ensures ReadHashMap(b, p) == Ok(AllFields(hash, map[]), p + |e|)
  {
    hide RunForm, At, ReadFields, ReadLength, AllFields, HashPackable, AllCarried;
    ReadRunForm(compress, Plain, b, p, hash, map[], e);
    AllCarriedPlain(hash);
  }

  // The bytes of the two TTL layouts.
  ghost predicate RedisForm(compress: bool, hash: Hash, expire: Expiry, e: bytes) {
    exists min: nat, run ::
      IsMinExpire(expire, min) && RunForm(compress, Relative(min), hash, expire, run) && e == LE(min, 8) + run
  }

  // TTLs the Redis layout can carry: none above the maximum, and -1 only beside a positive one.
  ghost predicate RedisTTLs(hash: Hash, expire: Expiry) {
    forall f :: f in hash ==>
      && TTLOf(expire, f) <= EB_EXPIRE_TIME_MAX
      && (TTLOf(expire, f) == -1 ==> exists g :: g in expire && 0 < expire[g] < EB_EXPIRE_TIME_INVALID)
  }

  ghost predicate ValkeyTTLs(hash: Hash, expire: Expiry) {
    forall f :: f in hash ==> TTLOf(expire, f) >= 0
  }

  lemma CarriedByRedis(min: nat, hash: Hash, expire: Expiry)
    requires IsMinExpire(expire, min)
    ensures min <= EB_EXPIRE_TIME_MAX
    ensures AllCarried(Relative(min), hash, expire) <==> RedisTTLs(hash, expire)
  {
    forall f | f in hash
      ensures Carries(Relative(min), TTLOf(expire, f)) <==>
        && TTLOf(expire, f) <= EB_EXPIRE_TIME_MAX
        && (TTLOf(expire, f) == -1 ==> exists g :: g in expire && 0 < expire[g] < EB_EXPIRE_TIME_INVALID)
    {
      var ttl := TTLOf(expire, f);
      if ttl == min - 1 && 0 < ttl { assert expire[f] == ttl; }
    }
  }

  lemma CarriedByValkey(hash: Hash, expire: Expiry)
    ensures AllCarried(Absolute, hash, expire) <==> ValkeyTTLs(hash, expire)
  {}

  // The min-relative layout reads back exactly: a hash with at least one field whose TTLs it carries.
  lemma ReadRedisForm(compress: bool, b: bytes, p: nat, hash: Hash, expire: Expiry, e: bytes)
    requires RedisForm(compress, hash, expire, e) && |hash| <= MAX_INT64 && At(b, p, e) && HashPackable(compress, hash)
    ensures var r := ReadHashMapEx(b, p);
      && (r.Ok? && r.value == AllFields(hash, expire) <==> |hash| > 0 && RedisTTLs(hash, expire))
      && (r.Ok? ==> r.next == p + |e|)
  {
    hide RunForm, At, ReadFields, ReadLength, AllFields, HashPackable, AllCarried, RedisTTLs, LE, ReadInt64,
      IsMinExpire;
    var min: nat, run :| IsMinExpire(expire, min) && RunForm(compress, Relative(min), hash, expire, run)
      && e == LE(min, 8) + run;
    CarriedByRedis(min, hash, expire);
    AtConcat(b, p, LE(min, 8), run);
    ReadInt64Of(b, p, min);
    ReadRunForm(compress, Relative(min), b, p + 8, hash, expire, run);
  }

  // Whatever minimum another writer stores, as long as its layout carries the TTLs.
  lemma ReadAnyMin(compress: bool, b: bytes, p: nat, min: nat, hash: Hash, expire: Expiry, run: bytes)
    requires min <= EB_EXPIRE_TIME_MAX && RunForm(compress, Relative(min), hash, expire, run)
    requires |hash| <= MAX_INT64 && HashPackable(compress, hash) && At(b, p, LE(min, 8) + run)
    ensures var r := ReadHashMapEx(b, p);
      && (r.Ok? && r.value == AllFields(hash, expire) <==> |hash| > 0 && AllCarried(Relative(min), hash, expire))
      && (r.Ok? ==> r.next == p + 8 + |run|)
  {
    hide RunForm, At, ReadFields, ReadLength, AllFields, HashPackable, AllCarried, LE, ReadInt64;
    AtConcat(b, p, LE(min, 8), run);
    ReadInt64Of(b, p, min);
    ReadRunForm(compress, Relative(min), b, p + 8, hash, expire, run);
  }

  // A minimum above the largest TTL and the mark for none is refused, and so are empty hashes.
  lemma MinRefused(b: bytes, p: nat, min: nat, rest: bytes)
    requires min < TWO64 && At(b, p, LE(min, 8) + rest)
    ensures EB_EXPIRE_TIME_MAX + 1 < min <= MAX_INT64 ==> ReadHashMapEx(b, p) == Fail(Corrupt)
    ensures At(rest, 0, [0]) && min <= MAX_INT64 ==> ReadHashMapEx(b, p) == Fail(Corrupt)
  {
    hide LE, ReadInt64, ReadFields, At;
    AtConcat(b, p, LE(min, 8), rest);
    ReadInt64Of(b, p, min);
    if At(rest, 0, [0]) {
      AtIndex(rest, 0, [0]);
      AtBound(rest, 0, [0]);
      AtIndex(b, p + 8, rest);
      AtBound(b, p + 8, rest);
      assert rest[0 + 0] == [0][0];
      assert b[p + 8 + 0] == rest[0];
    }
  }

  // So does the absolute layout, for TTLs that are not negative.
  lemma ReadValkeyForm(compress: bool, b: bytes, p: nat, hash: Hash, expire: Expiry, e: bytes)
    requires RunForm(compress, Absolute, hash, expire, e) && |hash| <= MAX_INT64 && At(b, p, e)
      && HashPackable(compress, hash)
    ensures var r := ReadHashMapExValkey(b, p);
      && (r.Ok? && r.value == AllFields(hash, expire) <==> |hash| > 0 && ValkeyTTLs(hash, expire))
      && (r.Ok? ==> r.next == p + |e|)
  {
    hide RunForm, At, ReadFields, ReadLength, AllFields, HashPackable, AllCarried, ValkeyTTLs;
    CarriedByValkey(hash, expire);
    ReadRunForm(compress, Absolute, b, p, hash, expire, e);
  }

  // A live TTL is never stored as the mark for "no TTL".
  lemma LiveIsMarked(expire: Expiry, min: nat, f: bytes)
    requires IsMinExpire(expire, min) && 0 < TTLOf(expire, f) <= EB_EXPIRE_TIME_MAX
    ensures Stored(Relative(min), TTLOf(expire, f)) != 0
    ensures Stored(Absolute, TTLOf(expire, f)) != TWO64 - 1
  {
    var ttl := TTLOf(expire, f);
    assert 0 < min <= ttl;
    RelativeRoundTrip(min, ttl);
    ModUnique(ttl, TWO64, 0, ttl);
  }

  // ------------------------------------------------------------------ the hash in a ziplist

  // Fields and values alternating.
  function Flat(hash: Hash, order: seq<bytes>): (r: seq<bytes>)
    requires Within(order, hash)
    ensures |r| == 2 * |order|
  {
    if order == [] then [] else [order[0], hash[order[0]]] + Flat(hash, order[1..])
  }

  // The pair loop of readZipListHash.
  function ReadPairs(b: bytes, p: nat, n: nat, acc: map<bytes, bytes>): Res<map<bytes, bytes>>
    decreases n
  {
    if n == 0 then Ok(acc, p)
    else
      var (f, p1) :- ReadEntry(b, p);
      var (v, p2) :- ReadEntry(b, p1);
      ReadPairs(b, p2, n - 1, acc[f := v])
  }

  // i from 0 below size in steps of two: an odd size still reads a last pair.
  function ReadZipHashBlob(buf: bytes): Res<map<bytes, bytes>> {
    if |buf| < 10 then Fail(Panic) else ReadPairs(buf, 10, (FromLE(buf[8..10]) + 1) / 2, map[])
  }

  // readZipListHash
  function ReadZipListHash(b: bytes, p: nat): (r: Res<map<bytes, bytes>>)
    ensures r.Ok? ==> p < r.next <= |b|
  {
    var (buf, q) :- ReadString(b, p);
    var (m, _) :- ReadZipHashBlob(buf);
    Ok(m, q)
  }

  function PairMap(vs: seq<bytes>, acc: map<bytes, bytes>): map<bytes, bytes>
    requires |vs| % 2 == 0
    decreases |vs|
  {
    if vs == [] then acc else PairMap(vs[2..], acc[vs[0] := vs[1]])
  }

  // Reading 2n entries as a list and as pairs agree.
  lemma {:induction false} PairsOfEntries(b: bytes, p: nat, n: nat, entries: seq<bytes>, acc: map<bytes, bytes>)
    requires ReadEntries(b, p, 2 * n, entries).Ok?
    ensures var r := ReadEntries(b, p, 2 * n, entries);
      && |r.value| == |entries| + 2 * n && r.value[..|entries|] == entries
      && ReadPairs(b, p, n, acc) == Ok(PairMap(r.value[|entries|..], acc), r.next)
    decreases n
  {
    hide ReadEntry;
    var r := ReadEntries(b, p, 2 * n, entries);
    if n == 0 {
      assert r.value[|entries|..] == [];
    } else {
      var f := ReadEntry(b, p);
      var v := ReadEntry(b, f.next);
      var two := entries + [f.value] + [v.value];
      assert r == ReadEntries(b, v.next, 2 * (n - 1), two);
      PairsOfEntries(b, v.next, n - 1, two, acc[f.value := v.value]);
      var rest := r.value[|entries|..];
      assert r.value[..|two|] == two;
      assert rest[0] == two[|entries|] && rest[1] == two[|entries| + 1];
      assert rest[2..] == r.value[|two|..];
    }
  }

  // Any ziplist whose counted entries can be read: the map they pair up to, one more entry being read
  // where the count is odd.
  lemma ZipHashPairs(buf: bytes)
    requires |buf| >= 10
    requires var c := FromLE(buf[8..10]); ReadEntries(buf, 10, if c % 2 == 0 then c else c + 1, []).Ok?
    ensures var c := FromLE(buf[8..10]); var r := ReadEntries(buf, 10, if c % 2 == 0 then c else c + 1, []);
      |r.value| % 2 == 0 && ReadZipHashBlob(buf) == Ok(PairMap(r.value, map[]), r.next)
  {
    hide ReadEntries, ReadPairs, PairMap, FromLE;
    var c := FromLE(buf[8..10]);
    PairsOfEntries(buf, 10, (c + 1) / 2, [], map[]);
    var v := ReadEntries(buf, 10, 2 * ((c + 1) / 2), []).value;
    assert v[0..] == v;
  }

  lemma {:induction false} PairMapFlat(hash: Hash, order: seq<bytes>, acc: map<bytes, bytes>)
    requires Distinct(order) && Within(order, hash)
    ensures var m := PairMap(Flat(hash, order), acc);
      && (forall f :: f in m <==> f in acc || f in order)
      && (forall f :: f in order ==> m[f] == hash[f])
      && (forall f :: f in acc && f !in order ==> m[f] == acc[f])
    decreases |order|
  {
    if order != [] {
      var f, rest := order[0], order[1..];
      assert Flat(hash, order)[2..] == Flat(hash, rest);
      assert order == [f] + rest;
      PairMapFlat(hash, rest, acc[f := hash[f]]);
      assert f !in rest;
    }
  }

  ghost predicate ZipHashForm(compress: bool, hash: Hash, order: seq<bytes>, e: bytes) {
    Enumerates(order, hash) && Within(order, hash) && ZipListForm(compress, Flat(hash, order), e)
  }

  lemma ReadZipHashForm(compress: bool, b: bytes, p: nat, hash: Hash, order: seq<bytes>, e: bytes)
    requires ZipHashForm(compress, hash, order, e) && ZipListReadable(Flat(hash, order)) && At(b, p, e)
    ensures ReadZipListHash(b, p) == Ok(hash, p + |e|)
  {
    hide ZipListBytes, BlobForm, ReadBlob, ReadString, At, Flat, ReadZipHashBlob, Encodes;
    var vs := Flat(hash, order);
    ReadableLen(vs);
    ReadBlobForm(compress, b, p, ZipListBytes(vs), e);
    ZipHashBlobRoundTrip(hash, order);
  }

  lemma ZipHashBlobRoundTrip(hash: Hash, order: seq<bytes>)
    requires Enumerates(order, hash) && Within(order, hash)
    requires var vs := Flat(hash, order); Encodes(vs) && Readable(vs) && |vs| < TWO16
    ensures var r := ReadZipHashBlob(ZipListBytes(Flat(hash, order))); r.Ok? && r.value == hash
  {
    hide ZipListBytes, At, Flat, ReadEntries, ReadPairs, PairMap, Encodes, Readable, Entries, Header;
    var vs := Flat(hash, order);
    var buf := ZipListBytes(vs);
    AtSelf(buf);
    BlobParts(buf, vs);
    HeaderFields(buf, vs);
    ReadEntriesStart(buf, vs);
    assert U16(|vs|) == 2 * |order| && vs[..|vs|] == vs;
    PairsOfEntries(buf, 10, |order|, [], map[]);
    var r := ReadEntries(buf, 10, 2 * |order|, []);
    assert r.value[0..] == vs;
    PairMapFlat(hash, order, map[]);
    assert PairMap(vs, map[]) == hash;
  }
}
