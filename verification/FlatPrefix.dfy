/** SepPrefixAnalyse (helper/prefix_stream.go): a flat map from database and separator-terminated key
    prefix to the size and number of the keys below it. */
module FlatPrefix {
  import opened Bytes
  import opened Decimal
  import opened Strings
  import opened Radix
  import opened PrefixTop

  datatype Stats = Stats(size: int, keyCount: nat)

  type Separator = s: bytes | s != [] witness [58]

  const STAR: byte := 42

  // ------------------------------------------------------------------ string functions

  // strings.Index: where t stands first in s, or -1.
  function Index(s: bytes, t: Separator): (i: int)
    ensures -1 <= i && (i >= 0 ==> At(s, i, t) && i + |t| <= |s|)
    ensures forall j: nat :: i == -1 || j < i ==> !At(s, j, t)
  {
    IndexFrom(s, t, 0)
  }

  function IndexFrom(s: bytes, t: Separator, from: nat): (i: int)
    ensures i == -1 || (from <= i && At(s, i, t))
    ensures forall j: nat :: from <= j && (i == -1 || j < i) ==> !At(s, j, t)
    decreases |s| - from
  {
    if from + |t| > |s| then -1
    else if s[from..from + |t|] == t then from
    else IndexFrom(s, t, from + 1)
  }

  // strings.ReplaceAll
  function ReplaceAll(s: bytes, what: Separator, with: bytes): bytes
    decreases |s|
  {
    var i := Index(s, what);
    if i < 0 then s else s[..i] + with + ReplaceAll(s[i + |what|..], what, with)
  }

  // strings.SplitN: at most n parts, or all of them if n is negative.
  function SplitN(s: bytes, t: Separator, n: int): seq<bytes>
    decreases |s|
  {
    var i := Index(s, t);
    if n == 0 then []
    else if n == 1 || i < 0 then [s]
    else [s[..i]] + SplitN(s[i + |t|..], t, n - 1)
  }

  // strings.Join
  function Join(parts: seq<bytes>, t: bytes): bytes {
    if parts == [] then []
    else if |parts| == 1 then parts[0]
    else parts[0] + t + Join(parts[1..], t)
  }

  // A negative limit is no limit.
  lemma {:induction false} NoLimit(s: bytes, t: Separator, n: int)
    requires n < 0
    ensures SplitN(s, t, n) == SplitN(s, t, -1)
    decreases |s|
  {
    hide Index;
    var i := Index(s, t);
    if i >= 0 {
      IndexFits(s, t);
      NoLimit(s[i + |t|..], t, n - 1);
      NoLimit(s[i + |t|..], t, -2);
    }
  }

  lemma IndexFits(s: bytes, t: Separator)
    ensures Index(s, t) >= 0 ==> Index(s, t) + |t| <= |s| && s[Index(s, t)..Index(s, t) + |t|] == t
  {
    hide IndexFrom;
    if Index(s, t) >= 0 { AtSlice(s, Index(s, t), t); }
  }

  // The parts joined by the separator are the string.
  lemma {:induction false} JoinSplit(s: bytes, t: Separator, n: int)
    requires n != 0
    ensures SplitN(s, t, n) != [] && Join(SplitN(s, t, n), t) == s
    decreases |s|
  {
    hide Index;
    var i := Index(s, t);
    if n != 1 && i >= 0 {
      IndexFits(s, t);
      var rest := s[i + |t|..];
      JoinSplit(rest, t, n - 1);
      assert SplitN(s, t, n)[1..] == SplitN(rest, t, n - 1);
      assert s == s[..i] + t + rest;
    }
  }

  // No part contains the separator, but for the last where the limit has been reached.
  lemma {:induction false} PartsApart(s: bytes, t: Separator, n: int, k: nat)
    requires n != 0 && k < |SplitN(s, t, n)| && (k + 1 == |SplitN(s, t, n)| ==> k + 1 != n)
    ensures Index(SplitN(s, t, n)[k], t) == -1
    decreases |s|
  {
    hide Index;
    var i := Index(s, t);
    if n != 1 && i >= 0 {
      IndexFits(s, t);
      if k == 0 {
        FirstPart(s, t);
      } else {
        PartsApart(s[i + |t|..], t, n - 1, k - 1);
      }
    }
  }

  lemma FirstPart(s: bytes, t: Separator)
    requires 0 <= Index(s, t) <= |s|
    ensures Index(s[..Index(s, t)], t) == -1
  {
    hide IndexFrom;
    var i := Index(s, t);
    var j := Index(s[..i], t);
    if j >= 0 {
      AtBound(s[..i], j, t);
      AtTake(s, j, t, i);
    }
  }

  // Replacing all occurrences is joining the parts by something else.
  lemma {:induction false} ReplaceIsJoin(s: bytes, what: Separator, with: bytes)
    ensures ReplaceAll(s, what, with) == Join(SplitN(s, what, -1), with)
    decreases |s|
  {
    hide Index;
    var i := Index(s, what);
    if i >= 0 {
      IndexFits(s, what);
      var rest := s[i + |what|..];
      NoLimit(rest, what, -2);
      ReplaceIsJoin(rest, what, with);
      JoinSplit(rest, what, -2);
      assert SplitN(s, what, -1)[1..] == SplitN(rest, what, -2);
    }
  }

  // ------------------------------------------------------------------ prefixes of a key

  // The part of s up to and including its d-th separator.
  function Head(s: bytes, t: Separator, d: nat): (r: Option<bytes>)
    ensures r.Some? ==> r.value <= s && |r.value| >= d
    decreases d
  {
    if d == 0 then Some([])
    else
      var i := Index(s, t);
      if i < 0 then None
      else
        var rest := s[i + |t|..];
        var r := Head(rest, t, d - 1);
        if r.None? then None
        else
          assert s == s[..i + |t|] + rest;
          Some(s[..i + |t|] + r.value)
  }

  lemma AtTake(s: bytes, j: nat, t: bytes, n: nat)
    requires j + |t| <= n <= |s|
    ensures At(s[..n], j, t) <==> At(s, j, t)
  {
    assert s[..n][j..j + |t|] == s[j..j + |t|];
  }

  // A prefix determines the first separator it contains.
  lemma SameIndex(s: bytes, u: bytes, t: Separator)
    requires Index(s, t) >= 0 && Index(s, t) + |t| <= |u| && s[..Index(s, t) + |t|] == u[..Index(s, t) + |t|]
    ensures Index(u, t) == Index(s, t)
  {
    hide At, Index;
    var i := Index(s, t);
    forall j: nat | j <= i ensures At(u, j, t) <==> At(s, j, t) {
      AtTake(s, j, t, i + |t|);
      AtTake(u, j, t, i + |t|);
    }
  }

  // Every key that starts with the head has the same head.
  lemma {:induction false} HeadStable(s: bytes, u: bytes, t: Separator, d: nat)
    requires Head(s, t, d).Some? && Head(s, t, d).value <= u
    ensures Head(u, t, d) == Head(s, t, d)
    decreases d
  {
    hide Index, At;
    if d > 0 {
      var i := Index(s, t);
      var cut := i + |t|;
      var r := Head(s[cut..], t, d - 1).value;
      var p := s[..cut] + r;
      assert p[..cut] == s[..cut] && u[..cut] == p[..cut];
      SameIndex(s, u, t);
      assert r == p[cut..] && r <= u[cut..] by { assert u[..|p|] == p; }
      HeadStable(s[cut..], u[cut..], t, d - 1);
    }
  }

  // Heads of more separators are longer.
  lemma {:induction false} HeadGrows(s: bytes, t: Separator, d: nat, e: nat)
    requires d < e && Head(s, t, e).Some?
    ensures Head(s, t, d).Some? && |Head(s, t, d).value| < |Head(s, t, e).value|
    decreases d
  {
    hide Index, At;
    if d > 0 {
      HeadGrows(s[Index(s, t) + |t|..], t, d - 1, e - 1);
    }
  }

  // p ends at its d-th separator.
  ghost predicate EndsAt(p: bytes, t: Separator, d: nat) { Head(p, t, d) == Some(p) }

  lemma HeadEnds(s: bytes, t: Separator, d: nat)
    requires Head(s, t, d).Some?
    ensures EndsAt(Head(s, t, d).value, t, d)
  {
    HeadStable(s, Head(s, t, d).value, t, d);
  }

  lemma EndsOnce(p: bytes, t: Separator, d: nat, e: nat)
    requires EndsAt(p, t, d) && EndsAt(p, t, e)
    ensures d == e
  {
    if d < e { HeadGrows(p, t, d, e); }
    if e < d { HeadGrows(p, t, e, d); }
  }

  // The code's prefixes, joined from the first parts, are the heads; it finds one for each
  // separator, up to n - 1 of them if n is positive.
  lemma {:induction false} PartsAreHeads(s: bytes, t: Separator, n: int, d: nat)
    requires n != 0
    ensures var parts := SplitN(s, t, n);
      && |parts| >= 1
      && (n > 0 ==> |parts| <= n)
      && (1 <= d < |parts| ==> Head(s, t, d) == Some(Join(parts[..d], t) + t))
      && (|parts| <= d && (n < 0 || d < n) ==> Head(s, t, d).None?)
    decreases |s|
  {
    hide Index, At, Join;
    var i := Index(s, t);
    if n != 1 && i >= 0 {
      var rest := s[i + |t|..];
      var parts, more := SplitN(s, t, n), SplitN(rest, t, n - 1);
      assert parts == [s[..i]] + more;
      PartsAreHeads(rest, t, n - 1, if d == 0 then 0 else d - 1);
      if 1 <= d < |parts| {
        JoinHead(s[..i], more, t, d);
        AtSlice(s, i, t);
        assert s[..i + |t|] == s[..i] + s[i..i + |t|];
        if d == 1 { assert s[..i + |t|] + [] == s[..i + |t|]; }
      }
    }
  }

  lemma JoinHead(first: bytes, more: seq<bytes>, t: Separator, d: nat)
    requires 1 <= d <= |more|
    ensures Join(([first] + more)[..d], t) + t == first + t + if d == 1 then [] else Join(more[..d - 1], t) + t
  {
    var parts := ([first] + more)[..d];
    if d > 1 { assert parts[1..] == more[..d - 1]; }
  }

  // ------------------------------------------------------------------ keys of the map

  function MapKey(db: int, p: bytes): bytes { Itoa(db) + [0] + (p + [STAR]) }

  lemma MapKeyInjective(db: int, p: bytes, db': int, q: bytes)
    ensures MapKey(db, p) == MapKey(db', q) <==> db == db' && p == q
  {
    hide Itoa;
    if MapKey(db, p) == MapKey(db', q) {
      ItoaChars(db, 0);
      ItoaChars(db', 0);
      TagPrefix(Itoa(db), Itoa(db'), 0, p + [STAR], q + [STAR]);
      TagPrefix(Itoa(db'), Itoa(db), 0, q + [STAR], p + [STAR]);
      ItoaInjective(db, db');
      assert p == (p + [STAR])[..|p|] && q == (q + [STAR])[..|q|];
    }
  }

  // The output splits it at the first zero byte: into the database's numeral and the prefix with a star.
  lemma MapKeySplits(db: int, p: bytes)
    ensures var k := MapKey(db, p); var i := Index(k, [0]);
      0 <= i < |k| && k[..i] == Itoa(db) && k[i + 1..] == p + [42] && Atoi(k[..i]) == Some(db)
  {
    hide Itoa, IndexFrom, Atoi;
    var k := MapKey(db, p);
    ItoaChars(db, 0);
    AtoiItoa(db);
    assert k[|Itoa(db)|] == 0 && k[|Itoa(db)|..|Itoa(db)| + 1] == [0];
    assert At(k, |Itoa(db)|, [0]);
    var i := Index(k, [0]);
    IndexFits(k, [0]);
    assert k[i..i + 1][0] == k[i];
    FirstZero(Itoa(db), p + [STAR], i);
  }

  lemma FirstZero(x: bytes, rest: bytes, i: nat)
    requires 0 !in x && i <= |x| && (x + [0] + rest)[i] == 0
    ensures i == |x| && (x + [0] + rest)[..i] == x && (x + [0] + rest)[i + 1..] == rest
  {}

  // ------------------------------------------------------------------ naive counting

  // All separators turned into the first, one after the other.
  function Normalized(key: bytes, seps: seq<Separator>, i: nat): bytes
    requires seps != []
    decreases |seps| - i
  {
    if i >= |seps| then key else Normalized(ReplaceAll(key, seps[i], seps[0]), seps, i + 1)
  }

  predicate OneByte(seps: seq<Separator>) { forall i :: 0 <= i < |seps| ==> |seps[i]| == 1 }

  // Separators of one byte: each of those bytes becomes the first separator, and no other changes.
  function Swapped(b: byte, seps: seq<Separator>): byte
    requires seps != []
  {
    if [b] in seps then seps[0][0] else b
  }

  lemma {:induction false} NormalizedBytes(key: bytes, seps: seq<Separator>, i: nat, k: nat)
    requires seps != [] && OneByte(seps) && k < |key|
    ensures |Normalized(key, seps, i)| == |key|
    ensures Normalized(key, seps, i)[k] == if i < |seps| && [key[k]] in seps[i..] then seps[0][0] else key[k]
    decreases |seps| - i
  {
    hide ReplaceAll;
    if i < |seps| {
      var r := ReplaceAll(key, seps[i], seps[0]);
      ReplaceOne(key, seps[i], seps[0], k);
      NormalizedBytes(r, seps, i + 1, k);
      assert seps[i..] == [seps[i]] + seps[i + 1..];
      assert [key[k]][0] == key[k] && [seps[i][0]] == seps[i];
    }
  }

  lemma NormalizedIs(key: bytes, seps: seq<Separator>, k: nat)
    requires seps != [] && OneByte(seps) && k < |key|
    ensures |Normalized(key, seps, 1)| == |key| && Normalized(key, seps, 1)[k] == Swapped(key[k], seps)
  {
    hide Normalized;
    NormalizedBytes(key, seps, 1, k);
    assert seps == [seps[0]] + seps[1..];
    assert [seps[0][0]] == seps[0];
    assert [key[k]] == seps[0] ==> key[k] == seps[0][0];
  }

  lemma {:induction false} ReplaceOne(s: bytes, what: Separator, with: bytes, k: nat)
    requires |what| == 1 == |with| && k < |s|
    ensures |ReplaceAll(s, what, with)| == |s|
    ensures ReplaceAll(s, what, with)[k] == if s[k] == what[0] then with[0] else s[k]
    decreases |s|
  {
    hide Index;
    var i := Index(s, what);
    IndexFits(s, what);
    if i < 0 || k < i { BeforeIndex(s, what, k); }
    if i >= 0 {
      assert s[i..i + 1][0] == s[i];
      var rest := s[i + 1..];
      if rest != [] { ReplaceOne(rest, what, with, if k > i then k - i - 1 else 0); }
      assert rest == [] ==> ReplaceAll(rest, what, with) == [] by { NoneInEmpty(what); }
    }
  }

  lemma NoneInEmpty(what: Separator)
    ensures Index([], what) == -1
  {}

  // Before the first occurrence of a byte there is none.
  lemma BeforeIndex(s: bytes, t: Separator, k: nat)
    requires |t| == 1 && k < |s| && (Index(s, t) == -1 || k < Index(s, t))
    ensures s[k] != t[0]
  {
    hide Index, At;
    AtOne(s, k, t);
  }

  lemma AtOne(s: bytes, k: nat, t: Separator)
    requires |t| == 1 && k < |s|
    ensures At(s, k, t) <==> s[k] == t[0]
  {
    assert s[k..k + 1] == [s[k]];
  }

  // The object is of that database and its normalized key starts with p.
  predicate Below(o: RedisObject, seps: seq<Separator>, db: int, p: bytes)
    requires seps != []
  {
    o.db == db && p <= Normalized(o.key, seps, 1)
  }

  function Naive(objects: seq<RedisObject>, seps: seq<Separator>, db: int, p: bytes): Stats
    requires seps != []
  {
    if objects == [] then Stats(0, 0)
    else
      var o, rest := objects[|objects| - 1], Naive(objects[..|objects| - 1], seps, db, p);
      if Below(o, seps, db, p) then Plus(rest, o.size) else rest
  }

  function Plus(s: Stats, size: int): Stats { Stats(s.size + size, s.keyCount + 1) }

  type Prefixes = map<bytes, Stats>

  function Lookup(prefixes: Prefixes, k: bytes): Stats {
    if k in prefixes then prefixes[k] else Stats(0, 0)
  }

  // The map knows, for every prefix that ends at one of the first n separators, its naive totals.
  ghost predicate Agrees(prefixes: Prefixes, objects: seq<RedisObject>, seps: seq<Separator>, n: nat)
    requires seps != []
  {
    forall db: int, p: bytes, d: nat :: 1 <= d <= n && EndsAt(p, seps[0], d) ==>
      Lookup(prefixes, MapKey(db, p)) == Naive(objects, seps, db, p)
  }

  // The same while one more object is being added: its prefixes up to depth done are in.
  ghost predicate AgreesUpTo(prefixes: Prefixes, objects: seq<RedisObject>, seps: seq<Separator>, n: nat,
                             o: RedisObject, done: nat)
    requires seps != []
  {
    forall db: int, p: bytes, d: nat :: 1 <= d <= n && EndsAt(p, seps[0], d) ==>
      Lookup(prefixes, MapKey(db, p)) == Expected(objects, seps, o, done, db, p, d)
  }

  function Expected(objects: seq<RedisObject>, seps: seq<Separator>, o: RedisObject, done: nat, db: int, p: bytes,
                    d: nat): Stats
    requires seps != []
  {
    var before := Naive(objects, seps, db, p);
    if Below(o, seps, db, p) && d <= done then Plus(before, o.size) else before
  }

  // One increment, at the prefix of depth d.
  lemma Increment(prefixes: Prefixes, objects: seq<RedisObject>, seps: seq<Separator>, n: nat, o: RedisObject, d: nat)
    requires seps != [] && 1 <= d <= n && AgreesUpTo(prefixes, objects, seps, n, o, d - 1)
    requires Head(Normalized(o.key, seps, 1), seps[0], d).Some?
    ensures var k := MapKey(o.db, Head(Normalized(o.key, seps, 1), seps[0], d).value);
      AgreesUpTo(prefixes[k := Plus(Lookup(prefixes, k), o.size)], objects, seps, n, o, d)
  {
    hide Head, Normalized, MapKey, Naive;
    var s := Normalized(o.key, seps, 1);
    var h := Head(s, seps[0], d).value;
    var k := MapKey(o.db, h);
    var next := prefixes[k := Plus(Lookup(prefixes, k), o.size)];
    forall db: int, p: bytes, e: nat | 1 <= e <= n && EndsAt(p, seps[0], e)
      ensures Lookup(next, MapKey(db, p)) == Expected(objects, seps, o, d, db, p, e) {
      assert Lookup(prefixes, MapKey(db, p)) == Expected(objects, seps, o, d - 1, db, p, e);
      MapKeyInjective(db, p, o.db, h);
      if db == o.db && p == h {
        HeadEnds(s, seps[0], d);
        EndsOnce(p, seps[0], e, d);
      } else if e == d && Below(o, seps, db, p) {
        HeadStable(p, s, seps[0], d);
      }
    }
  }

  // All separators of the key up to the n-th are done.
  lemma ObjectDone(prefixes: Prefixes, objects: seq<RedisObject>, seps: seq<Separator>, n: nat, o: RedisObject,
                   limit: nat)
    requires seps != [] && limit <= n && AgreesUpTo(prefixes, objects, seps, n, o, limit)
    requires forall d: nat :: limit < d <= n ==> Head(Normalized(o.key, seps, 1), seps[0], d).None?
    ensures Agrees(prefixes, objects + [o], seps, n)
  {
    hide Head, Normalized, MapKey;
    assert (objects + [o])[..|objects|] == objects;
    forall db: int, p: bytes, d: nat | 1 <= d <= n && EndsAt(p, seps[0], d)
      ensures Lookup(prefixes, MapKey(db, p)) == Naive(objects + [o], seps, db, p) {
      if Below(o, seps, db, p) { HeadStable(p, Normalized(o.key, seps, 1), seps[0], d); }
    }
  }

  // ------------------------------------------------------------------ the code

  // An object's prefix of at most n separators.
  ghost predicate HasSource(objects: seq<RedisObject>, seps: seq<Separator>, n: nat, k: bytes)
    requires seps != []
  {
    exists i, d: nat :: 0 <= i < |objects| && 1 <= d <= n && IsPrefixOf(objects[i], seps, d, k)
  }

  predicate IsPrefixOf(o: RedisObject, seps: seq<Separator>, d: nat, k: bytes)
    requires seps != []
  {
    var h := Head(Normalized(o.key, seps, 1), seps[0], d);
    h.Some? && k == MapKey(o.db, h.value)
  }

  method Normalize(key: bytes, separators: seq<Separator>) returns (r: bytes)
    requires separators != []
    ensures r == Normalized(key, separators, 1)
  {
    r := key;
    var i := 1;
    while i < |separators|
      invariant 1 <= i <= |separators| && Normalized(r, separators, i) == Normalized(key, separators, 1)
    {
      r := ReplaceAll(r, separators[i], separators[0]);
      i := i + 1;
    }
  }

  // maxDepth <= 0 means no limit.
  function Depths(maxDepth: int): nat { if maxDepth <= 0 || maxDepth > MAX_INT64 then MAX_INT64 else maxDepth }

  lemma DepthsAre(maxDepth: int, d: nat)
    requires 1 <= d <= MAX_INT64
    ensures d <= Depths(maxDepth) <==> maxDepth <= 0 || d <= maxDepth
  {}

  // The callback: every prefix of the key that ends at a separator gains the object.
  method AddObject(prefixes: Prefixes, item: RedisObject, separators: seq<Separator>, maxDepth: nat,
                   ghost objects: seq<RedisObject>) returns (r: Prefixes)
    requires separators != [] && 1 <= maxDepth <= MAX_INT64
    requires Agrees(prefixes, objects, separators, maxDepth)
    requires forall k :: k in prefixes ==> HasSource(objects, separators, maxDepth, k)
    ensures Agrees(r, objects + [item], separators, maxDepth)
    ensures forall k :: k in r ==> HasSource(objects + [item], separators, maxDepth, k)
  {
    hide Head, Normalized, MapKey, Naive, SplitN, Join, HasSource;
    var primarySep := separators[0];
    var normalizedKey := Normalize(item.key, separators);
    var n := Wrap64(maxDepth + 1);
    WrapNext(maxDepth);
    var parts := SplitN(normalizedKey, primarySep, n);
    PartsAreHeads(normalizedKey, primarySep, n, 0);
    var limit := if |parts| - 1 > maxDepth then maxDepth else |parts| - 1;
    r := prefixes;
    forall k | k in prefixes ensures HasSource(objects + [item], separators, maxDepth, k) {
      StillSourced(objects, item, separators, maxDepth, k);
    }
    var depth := 1;
    while depth <= limit
      invariant 1 <= depth <= limit + 1
      invariant AgreesUpTo(r, objects, separators, maxDepth, item, depth - 1)
      invariant forall k :: k in r ==> HasSource(objects + [item], separators, maxDepth, k)
    {
      PartsAreHeads(normalizedKey, primarySep, n, depth);
      var prefix := Join(parts[..depth], primarySep) + primarySep;
      var mapKey := MapKey(item.db, prefix);
      NewSource(objects, item, separators, maxDepth, depth);
      Increment(r, objects, separators, maxDepth, item, depth);
      var s := Lookup(r, mapKey);
      r := r[mapKey := Stats(s.size + item.size, s.keyCount + 1)];
      depth := depth + 1;
    }
    forall d: nat | limit < d <= maxDepth ensures Head(normalizedKey, primarySep, d).None? {
      PartsAreHeads(normalizedKey, primarySep, n, d);
    }
    ObjectDone(r, objects, separators, maxDepth, item, limit);
  }

  // maxDepth + 1 parts are asked for; from MaxInt the sum wraps to a negative number, which asks for all.
  lemma WrapNext(n: nat)
    requires 1 <= n <= MAX_INT64
    ensures if n == MAX_INT64 then Wrap64(n + 1) < 0 else Wrap64(n + 1) == n + 1
  {
    ModUnique(n + 1, TWO64, 0, n + 1);
  }

  lemma StillSourced(objects: seq<RedisObject>, o: RedisObject, seps: seq<Separator>, n: nat, k: bytes)
    requires seps != [] && HasSource(objects, seps, n, k)
    ensures HasSource(objects + [o], seps, n, k)
  {
    hide IsPrefixOf;
    var i, d: nat :| 0 <= i < |objects| && 1 <= d <= n && IsPrefixOf(objects[i], seps, d, k);
    assert (objects + [o])[i] == objects[i];
  }

  lemma NewSource(objects: seq<RedisObject>, o: RedisObject, seps: seq<Separator>, n: nat, d: nat)
    requires seps != [] && 1 <= d <= n && Head(Normalized(o.key, seps, 1), seps[0], d).Some?
    ensures HasSource(objects + [o], seps, n, MapKey(o.db, Head(Normalized(o.key, seps, 1), seps[0], d).value))
  {
    hide Head, Normalized, MapKey;
    assert (objects + [o])[|objects|] == o;
    assert IsPrefixOf(o, seps, d, MapKey(o.db, Head(Normalized(o.key, seps, 1), seps[0], d).value));
  }

  // The flat map of all objects agrees with naive counting and holds nothing else.
  method CountPrefixes(objects: seq<RedisObject>, separators: seq<Separator>, maxDepth: int)
      returns (prefixes: Prefixes)
    requires separators != []
    ensures Agrees(prefixes, objects, separators, Depths(maxDepth))
    ensures forall k :: k in prefixes ==> HasSource(objects, separators, Depths(maxDepth), k)
    ensures forall db: int, p: bytes, d: nat :: 1 <= d <= MAX_INT64 && EndsAt(p, separators[0], d) ==>
      Lookup(prefixes, MapKey(db, p)) ==
        if maxDepth <= 0 || d <= maxDepth then Naive(objects, separators, db, p) else Stats(0, 0)
  {
    hide HasSource, EndsAt, MapKey, Depths, Naive;
    prefixes := map[];
    var i := 0;
    NothingCounted(objects[..0], separators, Depths(maxDepth));
    while i < |objects|
      invariant 0 <= i <= |objects| && Agrees(prefixes, objects[..i], separators, Depths(maxDepth))
      invariant forall k :: k in prefixes ==> HasSource(objects[..i], separators, Depths(maxDepth), k)
    {
      assert objects[..i + 1] == objects[..i] + [objects[i]];
      DepthsAre(maxDepth, 1);
      DepthsBound(maxDepth);
      prefixes := AddObject(prefixes, objects[i], separators, Depths(maxDepth), objects[..i]);
      i := i + 1;
    }
    assert objects[..i] == objects;
    forall db: int, p: bytes, d: nat | 1 <= d <= MAX_INT64 && EndsAt(p, separators[0], d)
      ensures Lookup(prefixes, MapKey(db, p)) ==
        if maxDepth <= 0 || d <= maxDepth then Naive(objects, separators, db, p) else Stats(0, 0)
    {
      DepthsAre(maxDepth, d);
      if d > Depths(maxDepth) { TooDeep(prefixes, objects, separators, Depths(maxDepth), db, p, d); }
    }
  }

  lemma NothingCounted(objects: seq<RedisObject>, seps: seq<Separator>, n: nat)
    requires seps != [] && objects == []
    ensures Agrees(map[], objects, seps, n)
  {
    hide EndsAt, MapKey;
  }

  lemma DepthsBound(maxDepth: int)
    ensures 1 <= Depths(maxDepth) <= MAX_INT64
  {}

  // Prefixes of more separators than the limit are not in the map.
  lemma TooDeep(prefixes: Prefixes, objects: seq<RedisObject>, seps: seq<Separator>, n: nat, db: int, p: bytes, d: nat)
    requires seps != [] && EndsAt(p, seps[0], d) && n < d
    requires forall k :: k in prefixes ==> HasSource(objects, seps, n, k)
    ensures MapKey(db, p) !in prefixes
  {
    hide Normalized, MapKey;
    if MapKey(db, p) in prefixes {
      var i, e: nat :| 0 <= i < |objects| && 1 <= e <= n && IsPrefixOf(objects[i], seps, e, MapKey(db, p));
      var o := objects[i];
      var h := Head(Normalized(o.key, seps, 1), seps[0], e).value;
      MapKeyInjective(db, p, o.db, h);
      HeadEnds(Normalized(o.key, seps, 1), seps[0], e);
      EndsOnce(p, seps[0], d, e);
    }
  }

  // Separators ":" and "-", one key "a-b-c": the prefixes "a:" and "a:b:" are counted.
  lemma DashesToo(prefixes: Prefixes, size: int)
    requires var objects := [RedisObject(0, [97, 45, 98, 45, 99], size)];
      Agrees(prefixes, objects, [[58], [45]], 2)
    ensures Lookup(prefixes, MapKey(0, [97, 58])) == Stats(size, 1)
    ensures Lookup(prefixes, MapKey(0, [97, 58, 98, 58])) == Stats(size, 1)
  {
    hide MapKey, Normalized, Index;
    var key: bytes, seps: seq<Separator> := [97, 45, 98, 45, 99], [[58], [45]];
    var objects := [RedisObject(0, key, size)];
    var s := Normalized(key, seps, 1);
    NormalizedIs(key, seps, 0);
    NormalizedIs(key, seps, 1);
    NormalizedIs(key, seps, 2);
    NormalizedIs(key, seps, 3);
    NormalizedIs(key, seps, 4);
    assert s == [97, 58, 98, 58, 99];
    OneObject(objects, seps, [97, 58], size);
    OneObject(objects, seps, [97, 58, 98, 58], size);
    Colons([97, 58], 1);
    Colons([97, 58, 98, 58], 1);
    Colons([98, 58], 1);
    OneSeparator([97, 58], [58]);
    OneSeparator([98, 58], [58]);
    assert [97, 58] + [98, 58] == [97, 58, 98, 58];
    TwoSeparators([97, 58], [98, 58], [58]);
  }

  lemma OneSeparator(p: bytes, t: Separator)
    requires 0 <= Index(p, t) == |p| - |t|
    ensures EndsAt(p, t, 1)
  {
    hide Index;
    var cut := Index(p, t) + |t|;
    assert p[..cut] == p && p + [] == p;
    assert Head(p[cut..], t, 0) == Some([]);
  }

  lemma TwoSeparators(p: bytes, q: bytes, t: Separator)
    requires EndsAt(q, t, 1) && 0 <= Index(p + q, t) == |p| - |t|
    ensures EndsAt(p + q, t, 2)
  {
    hide Index;
    var cut := Index(p + q, t) + |t|;
    assert (p + q)[cut..] == q && (p + q)[..cut] == p;
  }

  lemma OneObject(objects: seq<RedisObject>, seps: seq<Separator>, p: bytes, size: int)
    requires |objects| == 1 && objects[0].size == size && objects[0].db == 0 && seps != []
    requires p <= Normalized(objects[0].key, seps, 1)
    ensures Naive(objects, seps, 0, p) == Stats(size, 1)
  {
    hide Normalized;
    assert objects[..0] == [];
  }

  lemma Colons(s: bytes, i: nat)
    requires i < |s| && s[i] == 58 && forall k :: 0 <= k < i ==> s[k] != 58
    ensures Index(s, [58]) == i
  {
    hide IndexFrom;
    var t: Separator := [58];
    assert s[i..i + 1] == t && At(s, i, t);
    var j := Index(s, t);
    IndexFits(s, t);
    assert j >= 0 ==> s[j..j + 1][0] == s[j];
  }

  // ------------------------------------------------------------------ flat map and radix tree

  lemma {:induction false} NaiveIsRadix(objects: seq<RedisObject>, t: Separator, db: int, p: bytes)
    ensures Naive(objects, [t], db, p)
      == Stats(Sum(LogOf(objects), GenKey(db, p)), Count(LogOf(objects), GenKey(db, p)))
  {
    hide GenKey;
    if objects != [] {
      var o, init := objects[|objects| - 1], objects[..|objects| - 1];
      NaiveIsRadix(init, t, db, p);
      assert LogOf(objects)[..|init|] == LogOf(init);
      GenKeyPrefix(db, p, o.db, o.key);
      assert Normalized(o.key, [t], 1) == o.key;
    }
  }

  // With one separator, the map and any radix node for the same database and prefix agree.
  lemma RadixAgrees(v: View, root: RadixNode, objects: seq<RedisObject>, node: RadixNode, db: int, p: bytes,
                    t: Separator, d: nat,
                    prefixes: Prefixes, n: nat)
    requires Tree(v, root, LogOf(objects)) && node in v && v[node].full == GenKey(db, p)
    requires 1 <= d <= n && EndsAt(p, t, d) && Agrees(prefixes, objects, [t], n)
    ensures var s := Lookup(prefixes, MapKey(db, p)); s.size == v[node].total && s.keyCount == v[node].count
  {
    hide GenKey, Shape, Ends, ForksBut, MapKey, EndsAt, Sum, Count, Naive, LogOf;
    NaiveIsRadix(objects, t, db, p);
    assert Exact(LogOf(objects), v[node]);
    assert [t][0] == t;
  }
}
