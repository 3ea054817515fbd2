/** Which prefixes PrefixAnalyse reports, in terms of the keys (helper/prefix.go), and what
    parseNodeKey (helper/radix.go) makes of them. */
module PrefixRows {
  import opened Bytes
  import opened Decimal
  import opened Radix
  import opened TopLists
  import opened PrefixTop

  // ------------------------------------------------------------------ depth, from the words alone

  // x is the full path of a node (NodesAre).
  ghost predicate IsPath(log: seq<Entry>, x: bytes) { x == [] || Inserted(log, x) || Parting(log, x) }

  // The lengths of the proper prefixes of p that are full paths.
  ghost function Above(log: seq<Entry>, p: bytes): set<nat> {
    set i: nat | i < |p| && IsPath(log, p[..i])
  }

  // A node's depth is one more than the number of full paths properly before its own.
  lemma {:induction false} DepthIs(v: View, root: RadixNode, log: seq<Entry>, n: RadixNode)
    requires Tree(v, root, log) && n in v
    ensures Depth(v, root, n) == 1 + |Above(log, v[n].full)|
    decreases |v[n].full|
  {
    hide Branches, HasParent, Ends, ForksBut, Exact, IsPath, Prefixes;
    if n == root {
      assert Above(log, v[n].full) == {};
    } else {
      var p := Parent(v, root, n);
      DepthIs(v, root, log, p);
      forall i: nat | i < |v[n].full|
        ensures i in Above(log, v[n].full) <==> i in Above(log, v[p].full) || i == |v[p].full|
      {
        PathBefore(v, root, log, n, i);
      }
      assert Above(log, v[n].full) == Above(log, v[p].full) + {|v[p].full|};
    }
  }

  // Before a node's full path there are its parent's, those before that, and no other.
  lemma PathBefore(v: View, root: RadixNode, log: seq<Entry>, n: RadixNode, i: nat)
    requires Tree(v, root, log) && n in v && n != root && i < |v[n].full|
    ensures var f := v[Parent(v, root, n)].full;
      IsPath(log, v[n].full[..i]) <==> i == |f| || (i < |f| && IsPath(log, f[..i]))
  {
    hide Branches, HasParent, Ends, ForksBut, Exact, IsPath;
    var p := Parent(v, root, n);
    var f, x := v[p].full, v[n].full[..i];
    PathHasNode(v, root, log, x);
    if i < |f| {
      assert x == f[..i];
    } else if i == |f| {
      assert x == f;
      HasThis(v, p);
    } else if HasNode(v, x) {
      var m: RadixNode :| m in v && v[m].full == x;
      PrefixIsAncestor(v, root, m, n);
    }
  }

  lemma PathHasNode(v: View, root: RadixNode, log: seq<Entry>, x: bytes)
    requires Tree(v, root, log)
    ensures HasNode(v, x) <==> IsPath(log, x)
  {
    NodesAre(v, root, log, x);
  }

  // ------------------------------------------------------------------ rows

  // Some item of the list is the node of path p.
  ghost predicate Holds(v: View, items: seq<Sized<RadixNode>>, p: bytes) {
    exists i :: 0 <= i < |items| && PathAt(v, items, i, p)
  }

  ghost predicate PathAt(v: View, items: seq<Sized<RadixNode>>, i: int, p: bytes)
    requires 0 <= i < |items|
  {
    items[i].item in v && v[items[i].item].full == p
  }

  // A path is handed to the top list exactly if it is a full path with at least two, and at most
  // limit - 1, properly before it.
  lemma CandidateIs(v: View, root: RadixNode, log: seq<Entry>, limit: int, ranked: seq<Sized<RadixNode>>, p: bytes)
    requires Tree(v, root, log) && ListsNodes(v, root, v.Keys, limit, ranked)
    ensures Holds(v, ranked, p) <==> IsPath(log, p) && 2 <= |Above(log, p)| <= limit - 1
  {
    hide Shape, Ends, ForksBut, Exact, Depth, IsPath, Above;
    PathHasNode(v, root, log, p);
    if Holds(v, ranked, p) {
      var i :| 0 <= i < |ranked| && PathAt(v, ranked, i, p);
      assert Listed(v, root, v.Keys, limit, ranked[i]);
      DepthIs(v, root, log, ranked[i].item);
      HasThis(v, ranked[i].item);
    }
    if HasNode(v, p) && 2 <= |Above(log, p)| <= limit - 1 {
      var n: RadixNode :| n in v && v[n].full == p;
      DepthIs(v, root, log, n);
      assert Sized(n, v[n].total) in ranked;
      var i :| 0 <= i < |ranked| && ranked[i] == Sized(n, v[n].total);
      assert PathAt(v, ranked, i, p);
    }
  }

  // The candidates that rank ahead of the node of path p: those of larger total, and those of the same
  // total that come later in the walk.
  ghost function Outranking(v: View, ranked: seq<Sized<RadixNode>>, p: bytes): set<nat> {
    set k: nat | k < |ranked| && Outranks(v, ranked, k, p)
  }

  ghost predicate Outranks(v: View, ranked: seq<Sized<RadixNode>>, k: nat, p: bytes)
    requires k < |ranked|
  {
    exists a: nat :: a < |ranked| && PathAt(v, ranked, a, p) && Ahead(ranked, k, a)
  }

  // Every node stands in the ranking once.
  lemma OnePlace(v: View, root: RadixNode, limit: int, ranked: seq<Sized<RadixNode>>, p: bytes, a: nat, i: nat)
    requires Shape(v, root) && ListsNodes(v, root, v.Keys, limit, ranked)
    requires a < |ranked| && i < |ranked| && PathAt(v, ranked, a, p) && PathAt(v, ranked, i, p)
    ensures a == i
  {
    hide Shape, Depth, Listed;
    SameFull(v, root, ranked[a].item, ranked[i].item);
    assert a < i ==> Precedes(v, root, ranked[a], ranked[i]);
    assert i < a ==> Precedes(v, root, ranked[i], ranked[a]);
  }

  // A candidate is in the list exactly if fewer than n others rank ahead of it.
  lemma {:induction false} ListedIs(v: View, root: RadixNode, limit: int, ranked: seq<Sized<RadixNode>>, n: nat,
                                    list: seq<Sized<RadixNode>>, p: bytes)
    requires Shape(v, root) && ListsNodes(v, root, v.Keys, limit, ranked) && IsTop(ranked, n, list)
    ensures Holds(v, list, p) <==> Holds(v, ranked, p) && |Outranking(v, ranked, p)| < n
  {
    hide Shape, ListsNodes, Selects, Ahead, PathAt, IsTop;
    var idx := TopPlaces(ranked, n, list);
    PickedPaths(v, ranked, idx, p);
    if Holds(v, ranked, p) {
      var a: nat :| a < |ranked| && PathAt(v, ranked, a, p);
      AmongTop(ranked, idx, n, a);
      forall i: nat | i < |ranked| && PathAt(v, ranked, i, p) ensures a == i {
        OnePlace(v, root, limit, ranked, p, a, i);
      }
      assert Outranking(v, ranked, p) == Aheads(ranked, a);
    }
  }

  lemma TopPlaces(ranked: seq<Sized<RadixNode>>, n: nat, list: seq<Sized<RadixNode>>) returns (idx: seq<nat>)
    requires IsTop(ranked, n, list)
    ensures Selects(ranked, idx) && |idx| == Min(n, |ranked|) && InRange(ranked, idx) && list == Picked(ranked, idx)
  {
    idx :| Selects(ranked, idx) && |idx| == Min(n, |ranked|) && list == Picked(ranked, idx);
  }

  lemma PickedPaths(v: View, ranked: seq<Sized<RadixNode>>, idx: seq<nat>, p: bytes)
    requires InRange(ranked, idx)
    ensures Holds(v, Picked(ranked, idx), p) <==> exists a: nat :: a in idx && a < |ranked| && PathAt(v, ranked, a, p)
  {
    var list := Picked(ranked, idx);
    if Holds(v, list, p) {
      var i :| 0 <= i < |list| && PathAt(v, list, i, p);
      assert idx[i] in idx && PathAt(v, ranked, idx[i], p);
    }
    if a: nat :| a in idx && a < |ranked| && PathAt(v, ranked, a, p) {
      var i :| 0 <= i < |idx| && idx[i] == a;
      assert PathAt(v, list, i, p);
    }
  }

  // A path has a row exactly if it is a full path with at least two, and at most limit - 1, properly
  // before it, and fewer than n candidates rank ahead of it.
  lemma RowIs(v: View, root: RadixNode, log: seq<Entry>, limit: int, ranked: seq<Sized<RadixNode>>, n: nat,
              list: seq<Sized<RadixNode>>, p: bytes)
    requires Tree(v, root, log) && ListsNodes(v, root, v.Keys, limit, ranked) && IsTop(ranked, n, list)
    ensures Holds(v, list, p) <==>
      IsPath(log, p) && 2 <= |Above(log, p)| <= limit - 1 && |Outranking(v, ranked, p)| < n
  {
    hide Shape, Ends, ForksBut, Exact, ListsNodes, IsTop, IsPath, Above, Holds, Outranking;
    CandidateIs(v, root, log, limit, ranked, p);
    ListedIs(v, root, limit, ranked, n, list, p);
  }

  // Where there is room for all candidates, all of them have a row.
  lemma RoomForAll(v: View, root: RadixNode, limit: int, ranked: seq<Sized<RadixNode>>, n: nat,
                   list: seq<Sized<RadixNode>>, p: bytes)
    requires Shape(v, root) && ListsNodes(v, root, v.Keys, limit, ranked) && IsTop(ranked, n, list) && |ranked| <= n
    ensures Holds(v, list, p) <==> Holds(v, ranked, p)
  {
    hide Shape, ListsNodes, IsTop, PathAt;
    ListedIs(v, root, limit, ranked, n, list, p);
    if a: nat :| a < |ranked| && PathAt(v, ranked, a, p) {
      if Outranks(v, ranked, a, p) {
        var i: nat :| i < |ranked| && PathAt(v, ranked, i, p) && Ahead(ranked, a, i);
        OnePlace(v, root, limit, ranked, p, a, i);
      }
      SubsetSize(Outranking(v, ranked, p), UpTo(|ranked|) - {a});
    }
  }

  // How many rows there are: topN, but no more than candidates, and all of them for 0.
  lemma RowCount(ranked: seq<Sized<RadixNode>>, topN: nat, list: seq<Sized<RadixNode>>)
    requires IsTop(ranked, Capacity(topN), list) && |ranked| <= 0x7fff_ffff_ffff_ffff
    ensures |list| == if topN == 0 || |ranked| < topN then |ranked| else topN
  {
    hide Selects;
    var idx := TopPlaces(ranked, Capacity(topN), list);
  }

  // The rows of topN over a database's prefixes, by its keys.
  lemma PrefixRow(v: View, root: RadixNode, objects: seq<RedisObject>, limit: int, ranked: seq<Sized<RadixNode>>,
                  topN: nat, list: seq<Sized<RadixNode>>, db: int, q: bytes)
    requires Tree(v, root, LogOf(objects)) && ListsNodes(v, root, v.Keys, limit, ranked)
    requires IsTop(ranked, Capacity(topN), list)
    ensures Holds(v, list, GenKey(db, q)) <==>
      && ((exists i: nat :: IsKey(objects, i, db, q)) || (exists i: nat, j: nat :: KeysPart(objects, i, j, db, q)))
      && 2 <= |Above(LogOf(objects), GenKey(db, q))| <= limit - 1
      && |Outranking(v, ranked, GenKey(db, q))| < Capacity(topN)
  {
    hide Tree, ListsNodes, IsTop, IsPath, Above, GenKey, Holds, LogOf, Outranking, Capacity;
    RowIs(v, root, LogOf(objects), limit, ranked, Capacity(topN), list, GenKey(db, q));
    PrefixNodes(v, root, objects, db, q);
    PathHasNode(v, root, LogOf(objects), GenKey(db, q));
  }

  // ------------------------------------------------------------------ the level of databases

  ghost predicate Present(objects: seq<RedisObject>, db: int) { exists i :: 0 <= i < |objects| && objects[i].db == db }

  // The nodes of depth 2 are the databases present.
  ghost predicate DatabasesAtTwo(v: View, root: RadixNode, objects: seq<RedisObject>)
    requires Shape(v, root)
  {
    forall p: bytes :: AtDepthTwo(v, root, p) <==> exists db: int :: Present(objects, db) && p == GenKey(db, [])
  }

  ghost predicate AtDepthTwo(v: View, root: RadixNode, p: bytes)
    requires Shape(v, root)
  {
    exists n :: n in v && v[n].full == p && Depth(v, root, n) == 2
  }

  // The database has an empty key or two keys with different first bytes.
  ghost predicate Spread(objects: seq<RedisObject>, db: int) {
    (exists i: nat :: IsKey(objects, i, db, [])) || (exists i: nat, j: nat :: KeysPart(objects, i, j, db, []))
  }

  // No two databases present have numerals with the same first byte.
  ghost predicate FirstBytesDiffer(objects: seq<RedisObject>) {
    forall a: int, b: int :: Present(objects, a) && Present(objects, b) && Itoa(a)[0] == Itoa(b)[0] ==> a == b
  }

  // A full path of depth 2 has only the empty one properly before it.
  lemma TwoIs(v: View, root: RadixNode, log: seq<Entry>, p: bytes)
    requires Tree(v, root, log)
    ensures AtDepthTwo(v, root, p)
      <==> p != [] && IsPath(log, p) && forall i: nat :: 0 < i < |p| ==> !IsPath(log, p[..i])
  {
    hide Shape, Ends, ForksBut, Exact, Depth;
    PathHasNode(v, root, log, p);
    if p == [] {
      assert Above(log, p) == {};
    } else {
      OneAbove(log, p);
    }
    if AtDepthTwo(v, root, p) {
      var n: RadixNode :| n in v && v[n].full == p && Depth(v, root, n) == 2;
      DepthIs(v, root, log, n);
      HasThis(v, n);
    }
    if HasNode(v, p) {
      var n: RadixNode :| n in v && v[n].full == p;
      DepthIs(v, root, log, n);
    }
  }

  lemma OneAbove(log: seq<Entry>, p: bytes)
    requires p != []
    ensures 0 in Above(log, p)
    ensures |Above(log, p)| == 1 <==> forall i: nat :: 0 < i < |p| ==> !IsPath(log, p[..i])
  {
    var above := Above(log, p);
    assert p[..0] == [];
    if forall i: nat :: 0 < i < |p| ==> !IsPath(log, p[..i]) {
      assert above == {0};
    }
    if i: nat :| 0 < i < |p| && IsPath(log, p[..i]) {
      assert i in above;
      TwoMembers(above, 0, i);
    }
  }

  lemma TwoMembers(s: set<nat>, i: nat, j: nat)
    requires i in s && j in s && i != j
    ensures |s| >= 2
  {
    assert |s - {i}| == |s| - 1;
    assert j in s - {i};
  }

  lemma RootKey(db: int)
    ensures var r := GenKey(db, []); r == Itoa(db) + [SPACE] && SPACE !in Itoa(db) && r[0] == Itoa(db)[0]
    ensures forall i: nat :: i < |GenKey(db, [])| ==> SPACE !in GenKey(db, [])[..i]
  {
    hide Itoa;
    ItoaChars(db, SPACE);
    assert GenKey(db, []) == Itoa(db) + [SPACE];
  }

  // A key of the database begins with the database's path.
  lemma KeyBegins(o: RedisObject)
    ensures GenKey(o.db, []) <= GenKey(o.db, o.key) && SPACE in GenKey(o.db, o.key)
    ensures GenKey(o.db, o.key)[0] == Itoa(o.db)[0]
  {
    hide Itoa;
    GenKeyPrefix(o.db, [], o.db, o.key);
    assert GenKey(o.db, o.key)[|Itoa(o.db)|] == SPACE;
  }

  // Where no two databases share a first byte, no full path ends inside a database's numeral.
  lemma NoneBefore(objects: seq<RedisObject>, db: int, i: nat)
    requires Present(objects, db) && FirstBytesDiffer(objects) && 0 < i < |GenKey(db, [])|
    ensures !IsPath(LogOf(objects), GenKey(db, [])[..i])
  {
    hide GenKey, Itoa;
    var log, r := LogOf(objects), GenKey(db, []);
    var x := r[..i];
    RootKey(db);
    if Inserted(log, x) {
      var k :| 0 <= k < |log| && log[k].word == x;
      KeyBegins(objects[k]);
    } else if Parting(log, x) {
      var j, k :| 0 <= j < |log| && 0 <= k < |log| && x < log[j].word && x < log[k].word
        && log[j].word[|x|] != log[k].word[|x|];
      SameDatabase(objects, db, i, j);
      SameDatabase(objects, db, i, k);
    }
  }

  lemma SameDatabase(objects: seq<RedisObject>, db: int, i: nat, k: nat)
    requires Present(objects, db) && FirstBytesDiffer(objects) && 0 < i < |GenKey(db, [])| && k < |objects|
    requires GenKey(db, [])[..i] < GenKey(objects[k].db, objects[k].key)
    ensures GenKey(objects[k].db, objects[k].key)[i] == GenKey(db, [])[i]
  {
    hide GenKey, Itoa;
    RootKey(db);
    KeyBegins(objects[k]);
    assert GenKey(db, [])[..i][0] == GenKey(objects[k].db, objects[k].key)[0];
    assert Present(objects, objects[k].db);
  }

  lemma {:induction false} FirstDifference(x: bytes, y: bytes) returns (i: nat)
    requires !(x <= y) && !(y <= x)
    ensures i < |x| && i < |y| && x[..i] == y[..i] && x[i] != y[i]
  {
    if x[0] != y[0] {
      i := 0;
    } else {
      assert x == [x[0]] + x[1..] && y == [y[0]] + y[1..];
      var j := FirstDifference(x[1..], y[1..]);
      i := j + 1;
      assert x[..i] == [x[0]] + x[1..][..j] && y[..i] == [y[0]] + y[1..][..j];
    }
  }

  // Two databases with the same first byte make a full path that ends inside their numerals.
  lemma SharedByte(objects: seq<RedisObject>, a: int, b: int) returns (i: nat)
    requires Present(objects, a) && Present(objects, b) && a != b && Itoa(a)[0] == Itoa(b)[0]
    ensures 0 < i < |GenKey(a, [])| && IsPath(LogOf(objects), GenKey(a, [])[..i])
  {
    hide GenKey, Itoa;
    var x, y, log := GenKey(a, []), GenKey(b, []), LogOf(objects);
    RootKey(a);
    RootKey(b);
    GenKeyPrefix(a, [], b, []);
    GenKeyPrefix(b, [], a, []);
    i := FirstDifference(x, y);
    var j :| 0 <= j < |objects| && objects[j].db == a;
    var k :| 0 <= k < |objects| && objects[k].db == b;
    KeyBegins(objects[j]);
    KeyBegins(objects[k]);
    assert log[j].word[i] == x[i] && log[k].word[i] == y[i];
    assert x[..i] < log[j].word && x[..i] < log[k].word;
    assert Parting(log, x[..i]);
  }

  lemma PathBelow(log: seq<Entry>, x: bytes) returns (k: nat)
    requires x != [] && IsPath(log, x)
    ensures k < |log| && x <= log[k].word
  {
    if Inserted(log, x) {
      k :| 0 <= k < |log| && log[k].word == x;
    } else {
      var i: nat, j: nat :| i < |log| && j < |log| && x < log[i].word && x < log[j].word
        && log[i].word[|x|] != log[j].word[|x|];
      k := i;
    }
  }

  lemma SpreadIs(v: View, root: RadixNode, objects: seq<RedisObject>, db: int)
    requires Tree(v, root, LogOf(objects))
    ensures Spread(objects, db) <==> IsPath(LogOf(objects), GenKey(db, []))
  {
    hide Tree, IsPath, GenKey, LogOf;
    PrefixNodes(v, root, objects, db, []);
    PathHasNode(v, root, LogOf(objects), GenKey(db, []));
  }

  // The nodes of depth 2 are the databases present exactly if every database present has an empty
  // key or keys with different first bytes, and no two of them have numerals with the same first
  // byte.
  lemma DatabaseLevel(v: View, root: RadixNode, objects: seq<RedisObject>)
    requires Tree(v, root, LogOf(objects))
    ensures DatabasesAtTwo(v, root, objects) <==>
      (forall db: int :: Present(objects, db) ==> Spread(objects, db)) && FirstBytesDiffer(objects)
  {
    hide IsPath, GenKey, Itoa, Present, Spread, AtDepthTwo, Shape, Ends, ForksBut;
    if DatabasesAtTwo(v, root, objects) {
      LevelNeeds(v, root, objects);
    }
    if (forall db: int :: Present(objects, db) ==> Spread(objects, db)) && FirstBytesDiffer(objects) {
      forall p: bytes
        ensures AtDepthTwo(v, root, p) <==> exists db: int :: Present(objects, db) && p == GenKey(db, []) {
        if db: int :| Present(objects, db) && p == GenKey(db, []) { LevelHas(v, root, objects, db); }
        if AtDepthTwo(v, root, p) { var db := LevelOnly(v, root, objects, p); }
      }
    }
  }

  lemma LevelNeeds(v: View, root: RadixNode, objects: seq<RedisObject>)
    requires Tree(v, root, LogOf(objects)) && DatabasesAtTwo(v, root, objects)
    ensures (forall db: int :: Present(objects, db) ==> Spread(objects, db)) && FirstBytesDiffer(objects)
  {
    hide IsPath, GenKey, Itoa, Present, Spread, AtDepthTwo, Shape, Ends, ForksBut;
    var log := LogOf(objects);
    forall db: int | Present(objects, db) ensures Spread(objects, db) {
      assert AtDepthTwo(v, root, GenKey(db, []));
      TwoIs(v, root, log, GenKey(db, []));
      SpreadIs(v, root, objects, db);
    }
    forall a: int, b: int | Present(objects, a) && Present(objects, b) && Itoa(a)[0] == Itoa(b)[0] ensures a == b {
      if a != b {
        assert AtDepthTwo(v, root, GenKey(a, []));
        TwoIs(v, root, log, GenKey(a, []));
        var i := SharedByte(objects, a, b);
      }
    }
  }

  lemma LevelHas(v: View, root: RadixNode, objects: seq<RedisObject>, db: int)
    requires Tree(v, root, LogOf(objects)) && Present(objects, db) && Spread(objects, db) && FirstBytesDiffer(objects)
    ensures AtDepthTwo(v, root, GenKey(db, []))
  {
    hide Tree, IsPath, GenKey, Itoa, Present, Spread, FirstBytesDiffer, AtDepthTwo, LogOf;
    TwoIs(v, root, LogOf(objects), GenKey(db, []));
    SpreadIs(v, root, objects, db);
    RootKey(db);
    forall i: nat | 0 < i < |GenKey(db, [])| ensures !IsPath(LogOf(objects), GenKey(db, [])[..i]) {
      NoneBefore(objects, db, i);
    }
  }

  lemma LevelOnly(v: View, root: RadixNode, objects: seq<RedisObject>, p: bytes) returns (db: int)
    requires Tree(v, root, LogOf(objects)) && AtDepthTwo(v, root, p) && FirstBytesDiffer(objects)
    requires forall d: int :: Present(objects, d) ==> Spread(objects, d)
    ensures Present(objects, db) && p == GenKey(db, [])
  {
    hide Tree, IsPath, GenKey, Itoa, Spread, FirstBytesDiffer, AtDepthTwo;
    var log := LogOf(objects);
    TwoIs(v, root, log, p);
    var k := PathBelow(log, p);
    db := objects[k].db;
    var r := GenKey(db, []);
    assert Present(objects, db);
    SpreadIs(v, root, objects, db);
    KeyBegins(objects[k]);
    assert |r| <= |p| ==> r == p[..|r|];
    if |p| < |r| {
      assert p == r[..|p|];
      NoneBefore(objects, db, |p|);
    } else if |p| > |r| {
      RootKey(db);
    }
  }

  // ------------------------------------------------------------------ two inputs

  lemma Numerals()
    ensures Itoa(0) == [48] && Itoa(1) == [49] && Itoa(10) == [49, 48] && Itoa(100) == [49, 48, 48]
  {
    assert Numeral(10) == Numeral(1) + [48];
    assert Numeral(100) == Numeral(10) + [48];
  }

  // Databases 1 and 10, and keys with different first bytes in 1: depth 2 holds "1", and the node of
  // database 1 is handed to the top list.
  lemma SharedNumeral(v: View, root: RadixNode, limit: int, ranked: seq<Sized<RadixNode>>, x: int, y: int, z: int)
    requires var objects := [RedisObject(1, [97], x), RedisObject(1, [98], y), RedisObject(10, [99], z)];
      Tree(v, root, LogOf(objects))
    requires ListsNodes(v, root, v.Keys, limit, ranked)
    ensures AtDepthTwo(v, root, [49])
    ensures Holds(v, ranked, GenKey(1, [])) <==> 3 <= limit
  {
    hide Tree, Shape, ListsNodes, Itoa, IsPath, AtDepthTwo, Holds;
    var objects := [RedisObject(1, [97], x), RedisObject(1, [98], y), RedisObject(10, [99], z)];
    var log := LogOf(objects);
    Numerals();
    var p := GenKey(1, []);
    assert p == [49, 32];
    assert Present(objects, 1) by { assert objects[0].db == 1; }
    assert Present(objects, 10) by { assert objects[2].db == 10; }
    var i := SharedByte(objects, 1, 10);
    assert i == 1 && p[..1] == [49];
    assert IsKey(objects, 0, 1, [97]) && KeysPart(objects, 0, 1, 1, []);
    SpreadIs(v, root, objects, 1);
    CandidateIs(v, root, log, limit, ranked, p);
    EmptyPath(log);
    assert p[..0] == [];
    assert Above(log, p) == {0, 1};
    TwoIs(v, root, log, [49]);
  }

  lemma EmptyPath(log: seq<Entry>)
    ensures IsPath(log, [])
  {}

  // One database whose keys share their first byte: depth 2 holds that byte too, the database has no
  // node, and neither is handed to the top list.
  lemma SharedKeyByte(v: View, root: RadixNode, limit: int, ranked: seq<Sized<RadixNode>>, x: int, y: int)
    requires Tree(v, root, LogOf([RedisObject(0, [117, 97], x), RedisObject(0, [117, 98], y)]))
    requires ListsNodes(v, root, v.Keys, limit, ranked)
    ensures AtDepthTwo(v, root, GenKey(0, [117])) && !HasNode(v, GenKey(0, []))
    ensures !Holds(v, ranked, GenKey(0, [117])) && !Holds(v, ranked, GenKey(0, []))
  {
    hide Tree, Shape, ListsNodes, Itoa, IsPath, AtDepthTwo, Holds, Above;
    var objects := [RedisObject(0, [117, 97], x), RedisObject(0, [117, 98], y)];
    var log := LogOf(objects);
    Numerals();
    var r, p := GenKey(0, []), GenKey(0, [117]);
    assert r == [48, 32] && p == [48, 32, 117];
    assert Present(objects, 0) by { assert objects[0].db == 0; }
    assert FirstBytesDiffer(objects);
    NoneBefore(objects, 0, 1);
    SpreadIs(v, root, objects, 0);
    assert !Spread(objects, 0) by { assert objects[0].key[0] == objects[1].key[0] == 117; }
    assert p[..1] == r[..1] && p[..2] == r;
    assert KeysPart(objects, 0, 1, 0, [117]);
    PrefixNodes(v, root, objects, 0, [117]);
    PathHasNode(v, root, log, p);
    PathHasNode(v, root, log, r);
    TwoIs(v, root, log, p);
    OneAbove(log, p);
    CandidateIs(v, root, log, limit, ranked, p);
    CandidateIs(v, root, log, limit, ranked, r);
  }

  // ------------------------------------------------------------------ printing a row

  // strings.Index for a single byte.
  function IndexOf(s: bytes, c: byte): (i: int)
    ensures i == -1 <==> c !in s
    ensures i != -1 ==> 0 <= i < |s| && s[i] == c && c !in s[..i]
  {
    if s == [] then -1
    else if s[0] == c then 0
    else
      var i := IndexOf(s[1..], c);
      assert s == [s[0]] + s[1..];
      assert i >= 0 ==> s[..i + 1] == [s[0]] + s[1..][..i];
      if i < 0 then -1 else i + 1
  }

  // parseNodeKey; None where it slices up to -1.
  function ParseNodeKey(key: bytes): Option<(int, bytes)> {
    if key == [] then Some((-1, []))
    else
      var i := IndexOf(key, SPACE);
      if i < 0 then None
      else
        var db := Atoi(key[..i]);
        Some((if db.Some? then db.value else 0, if i + 1 < |key| then key[i + 1..] else []))
  }

  // A prefix of a database's keys is printed as that.
  lemma ParseGenKey(db: int, q: bytes)
    ensures ParseNodeKey(GenKey(db, q)) == Some((db, q))
  {
    hide Itoa, Atoi;
    var k := GenKey(db, q);
    var i := IndexOf(k, SPACE);
    ItoaChars(db, SPACE);
    assert k[|Itoa(db)|] == SPACE;
    assert i == |Itoa(db)|;
    AtoiItoa(db);
    assert k[..i] == Itoa(db) && k[i + 1..] == q;
  }

  ghost predicate Unprintable(v: View, list: seq<Sized<RadixNode>>) {
    exists p: bytes :: Holds(v, list, p) && ParseNodeKey(p).None?
  }

  // Some row cannot be printed exactly if database numerals part twice within themselves: after some
  // x, and before that already after a part of x, and fewer than n candidates rank ahead of x.
  lemma RowsUnprintable(v: View, root: RadixNode, objects: seq<RedisObject>, limit: int, ranked: seq<Sized<RadixNode>>,
                        n: nat, list: seq<Sized<RadixNode>>)
    requires Tree(v, root, LogOf(objects)) && ListsNodes(v, root, v.Keys, limit, ranked) && IsTop(ranked, n, list)
    ensures Unprintable(v, list) <==>
      exists x: bytes :: SplitsTwice(LogOf(objects), limit, x) && |Outranking(v, ranked, x)| < n
  {
    hide Tree, ListsNodes, IsTop, Above, GenKey, Itoa, Parting, Holds, Outranking;
    var log := LogOf(objects);
    if Unprintable(v, list) {
      var x: bytes :| Holds(v, list, x) && ParseNodeKey(x).None?;
      RowIs(v, root, log, limit, ranked, n, list, x);
      OnlyParting(objects, x);
    }
    if x: bytes :| SplitsTwice(log, limit, x) && |Outranking(v, ranked, x)| < n {
      RowIs(v, root, log, limit, ranked, n, list, x);
      assert ParseNodeKey(x).None?;
    }
  }

  // Words part after x, which has no space, and already after a part of x; within the limit.
  ghost predicate SplitsTwice(log: seq<Entry>, limit: int, x: bytes) {
    x != [] && SPACE !in x && Parting(log, x) && 2 <= |Above(log, x)| <= limit - 1
  }

  lemma OnlyParting(objects: seq<RedisObject>, x: bytes)
    requires SPACE !in x
    ensures !Inserted(LogOf(objects), x)
  {
    hide GenKey, Itoa;
    var log := LogOf(objects);
    if Inserted(log, x) {
      var k :| 0 <= k < |log| && log[k].word == x;
      KeyBegins(objects[k]);
    }
  }

  // ------------------------------------------------------------------ databases 1, 10 and 100

  function Three(a: bytes, b: bytes, c: bytes, x: int, y: int, z: int): seq<RedisObject> {
    [RedisObject(1, a, x), RedisObject(10, b, y), RedisObject(100, c, z)]
  }

  // Their words part after "1" and after "10", and after nothing else.
  lemma ThreeWords(a: bytes, b: bytes, c: bytes, x: int, y: int, z: int)
    ensures var log := LogOf(Three(a, b, c, x, y, z));
      && |log| == 3 && log[0].word == [49, 32] + a && log[1].word == [49, 48, 32] + b
      && log[2].word == [49, 48, 48, 32] + c
      && log[0].size == x && log[1].size == y && log[2].size == z
  {
    hide Itoa;
    Numerals();
    var log := LogOf(Three(a, b, c, x, y, z));
    assert log[0].word == [49] + ([32] + a) == [49, 32] + a;
    assert log[1].word == [49, 48] + ([32] + b) == [49, 48, 32] + b;
    assert log[2].word == [49, 48, 48] + ([32] + c) == [49, 48, 48, 32] + c;
  }

  // What begins two of the words is at most "10".
  lemma SharedBeginning(a: bytes, b: bytes, c: bytes, q: bytes)
    requires |q| >= 2
    ensures q <= [49, 32] + a ==> !(q <= [49, 48, 32] + b) && !(q <= [49, 48, 48, 32] + c)
    ensures q <= [49, 48, 32] + b && q <= [49, 48, 48, 32] + c <==> q == [49, 48]
  {
    if q <= [49, 48, 32] + b && q <= [49, 48, 48, 32] + c {
      if |q| > 2 { ThirdByte(b, c, q); }
      assert q[0] == ([49, 48, 32] + b)[0] && q[1] == ([49, 48, 32] + b)[1];
    }
    if q <= [49, 32] + a { assert q[1] == ([49, 32] + a)[1]; }
    if q <= [49, 48, 32] + b { assert q[1] == ([49, 48, 32] + b)[1]; }
    if q <= [49, 48, 48, 32] + c { assert q[1] == ([49, 48, 48, 32] + c)[1]; }
    if q == [49, 48] {
      assert ([49, 48, 32] + b)[..2] == q && ([49, 48, 48, 32] + c)[..2] == q;
    }
  }

  lemma ThirdByte(b: bytes, c: bytes, q: bytes)
    requires |q| > 2 && q <= [49, 48, 32] + b
    ensures !(q <= [49, 48, 48, 32] + c)
  {
    assert q[2] == ([49, 48, 32] + b)[2] != ([49, 48, 48, 32] + c)[2];
  }

  // "10" comes third in depth.
  lemma TenSplits(a: bytes, b: bytes, c: bytes, x: int, y: int, z: int)
    ensures var log := LogOf(Three(a, b, c, x, y, z)); Parting(log, [49, 48]) && Above(log, [49, 48]) == {0, 1}
  {
    hide Itoa, LogOf;
    var log, p := LogOf(Three(a, b, c, x, y, z)), [49, 48];
    ThreeWords(a, b, c, x, y, z);
    assert log[0].word[..1] == [49] == log[1].word[..1] && log[0].word[1] == 32 && log[1].word[1] == 48;
    assert Parting(log, [49]);
    assert log[1].word[..2] == p == log[2].word[..2] && log[1].word[2] == 32 && log[2].word[2] == 48;
    assert Parting(log, p);
    EmptyPath(log);
    assert p[..0] == [] && p[..1] == [49];
  }

  lemma SumOfThree(log: seq<Entry>, q: bytes)
    requires |log| == 3
    ensures Sum(log, q) == (if q <= log[0].word then log[0].size else 0)
      + (if q <= log[1].word then log[1].size else 0) + (if q <= log[2].word then log[2].size else 0)
  {
    var two, one := log[..2], log[..1];
    assert two[..1] == one && one[..0] == [];
    assert Sum(one, q) == if q <= log[0].word then log[0].size else 0;
    assert Sum(two, q) == Sum(one, q) + if q <= log[1].word then log[1].size else 0;
  }

  // A candidate's size is the total of the words it begins.
  lemma SizeIs(v: View, root: RadixNode, log: seq<Entry>, limit: int, ranked: seq<Sized<RadixNode>>, k: nat)
    returns (q: bytes)
    requires Tree(v, root, log) && ListsNodes(v, root, v.Keys, limit, ranked) && k < |ranked|
    ensures PathAt(v, ranked, k, q) && Holds(v, ranked, q) && ranked[k].size == Sum(log, q)
  {
    hide Shape, Ends, ForksBut, Depth, Precedes;
    assert Listed(v, root, v.Keys, limit, ranked[k]);
    q := v[ranked[k].item].full;
    assert Exact(log, v[ranked[k].item]);
    assert PathAt(v, ranked, k, q);
  }

  lemma AboveBound(log: seq<Entry>, p: bytes)
    ensures |Above(log, p)| <= |p|
  {
    hide IsPath;
    SubsetSize(Above(log, p), UpTo(|p|));
  }

  // Of the candidates, only "10" begins two of the words.
  lemma OtherSum(log: seq<Entry>, a: bytes, b: bytes, c: bytes, q: bytes)
    requires |log| == 3 && log[0].word == [49, 32] + a && log[1].word == [49, 48, 32] + b
    requires log[2].word == [49, 48, 48, 32] + c && |q| >= 2
    requires log[1].size > 0 && log[2].size > 0 && log[0].size < log[1].size + log[2].size
    ensures Sum(log, [49, 48]) == log[1].size + log[2].size
    ensures q != [49, 48] ==> Sum(log, q) < Sum(log, [49, 48])
  {
    hide Sum;
    SumOfThree(log, q);
    SumOfThree(log, [49, 48]);
    SharedBeginning(a, b, c, q);
    SharedBeginning(a, b, c, [49, 48]);
  }

  lemma NoneAhead(v: View, root: RadixNode, limit: int, ranked: seq<Sized<RadixNode>>, a: bytes, b: bytes, c: bytes,
                  x: int, y: int, z: int, k: nat)
    requires Tree(v, root, LogOf(Three(a, b, c, x, y, z))) && ListsNodes(v, root, v.Keys, limit, ranked)
    requires y > 0 && z > 0 && x < y + z && k < |ranked|
    ensures !Outranks(v, ranked, k, [49, 48])
  {
    hide Tree, ListsNodes, Holds, Itoa, LogOf, Above, Shape, Sum, IsPath;
    var log, p: bytes := LogOf(Three(a, b, c, x, y, z)), [49, 48];
    ThreeWords(a, b, c, x, y, z);
    if Outranks(v, ranked, k, p) {
      var i: nat :| i < |ranked| && PathAt(v, ranked, i, p) && Ahead(ranked, k, i);
      var q := SizeIs(v, root, log, limit, ranked, k);
      var p' := SizeIs(v, root, log, limit, ranked, i);
      CandidateIs(v, root, log, limit, ranked, q);
      AboveBound(log, q);
      OtherSum(log, a, b, c, q);
      TreeShape(v, root, log);
      if q == p { OnePlace(v, root, limit, ranked, p, i, k); }
    }
  }

  lemma TreeShape(v: View, root: RadixNode, log: seq<Entry>)
    requires Tree(v, root, log)
    ensures Shape(v, root)
  {}

  // Where the other sizes do not outweigh it, "10" is the first candidate: it has a row whatever topN is,
  // and cannot be split.
  lemma ThreeNumerals(v: View, root: RadixNode, limit: int, ranked: seq<Sized<RadixNode>>, n: nat,
                      list: seq<Sized<RadixNode>>, a: bytes, b: bytes, c: bytes, x: int, y: int, z: int)
    requires Tree(v, root, LogOf(Three(a, b, c, x, y, z)))
    requires ListsNodes(v, root, v.Keys, limit, ranked) && IsTop(ranked, n, list)
    requires y > 0 && z > 0 && x < y + z && n > 0
    ensures Holds(v, list, [49, 48]) <==> 3 <= limit
    ensures ParseNodeKey([49, 48]).None?
  {
    hide Tree, ListsNodes, Holds, Itoa, LogOf, IsTop, Above, Outranks;
    var log, p: bytes := LogOf(Three(a, b, c, x, y, z)), [49, 48];
    TenSplits(a, b, c, x, y, z);
    RowIs(v, root, log, limit, ranked, n, list, p);
    forall k: nat | k < |ranked| ensures !Outranks(v, ranked, k, p) {
      NoneAhead(v, root, limit, ranked, a, b, c, x, y, z, k);
    }
    assert Outranking(v, ranked, p) == {};
  }

  // Sizes 5, 1 and 1, limit 3 and topN 1: "10" is a candidate, but outranked by the key in database 1,
  // and every row can be printed.
  lemma OutrankedNumeral(v: View, root: RadixNode, ranked: seq<Sized<RadixNode>>, list: seq<Sized<RadixNode>>)
    requires Tree(v, root, LogOf(Three([97], [97], [97], 5, 1, 1)))
    requires ListsNodes(v, root, v.Keys, 3, ranked) && IsTop(ranked, Capacity(1), list)
    ensures Unprintable(v, ranked) && !Unprintable(v, list)
  {
    hide Tree, ListsNodes, Holds, Itoa, LogOf, IsTop, Above, Outranking, Parting, ParseNodeKey, Three;
    var a: bytes := [97];
    var objects := Three(a, a, a, 5, 1, 1);
    var log, p: bytes, one: bytes := LogOf(objects), [49, 48], [49, 32, 97];
    TenSplits(a, a, a, 5, 1, 1);
    CandidateIs(v, root, log, 3, ranked, p);
    assert ParseNodeKey(p).None? by { NoSpace(p); }
    RowsUnprintable(v, root, objects, 3, ranked, 1, list);
    forall x: bytes | SplitsTwice(log, 3, x) ensures |Outranking(v, ranked, x)| >= 1 {
      OnlyTen(log, a, a, a, 5, 1, 1, 3, x);
      KeyAhead(v, root, ranked);
    }
  }

  lemma NoSpace(key: bytes)
    requires key != [] && SPACE !in key
    ensures ParseNodeKey(key).None?
  {}

  lemma OnlyTen(log: seq<Entry>, a: bytes, b: bytes, c: bytes, x: int, y: int, z: int, limit: int, q: bytes)
    requires log == LogOf(Three(a, b, c, x, y, z)) && SplitsTwice(log, limit, q)
    ensures q == [49, 48]
  {
    hide LogOf, Above, Three, Parting;
    ThreeWords(a, b, c, x, y, z);
    AboveBound(log, q);
    var i, j := TwoWords(log, q);
    SharedBeginning(a, b, c, q);
    LastTwo(q, log[0].word, log[1].word, log[2].word, log[i].word, log[j].word, i, j);
  }

  // What begins two of three words, and not the first with another, begins the last two.
  lemma LastTwo(q: bytes, x: bytes, y: bytes, z: bytes, u: bytes, w: bytes, i: nat, j: nat)
    requires i != j && i < 3 && j < 3 && q <= u && q <= w && (q <= x ==> !(q <= y) && !(q <= z))
    requires u == (if i == 0 then x else if i == 1 then y else z)
    requires w == (if j == 0 then x else if j == 1 then y else z)
    ensures q <= y && q <= z
  {}

  lemma TwoWords(log: seq<Entry>, x: bytes) returns (i: nat, j: nat)
    requires Parting(log, x)
    ensures i < |log| && j < |log| && i != j && x <= log[i].word && x <= log[j].word
  {
    i, j :| i < |log| && j < |log| && x < log[i].word && x < log[j].word && log[i].word[|x|] != log[j].word[|x|];
  }

  // "1 a" ranks ahead of "10".
  lemma KeyAhead(v: View, root: RadixNode, ranked: seq<Sized<RadixNode>>)
    requires Tree(v, root, LogOf(Three([97], [97], [97], 5, 1, 1))) && ListsNodes(v, root, v.Keys, 3, ranked)
    ensures |Outranking(v, ranked, [49, 48])| >= 1
  {
    hide Tree, ListsNodes, Itoa, LogOf, Above, Shape, IsPath, Parting, Sum;
    var a: bytes := [97];
    var log, p: bytes, one: bytes := LogOf(Three(a, a, a, 5, 1, 1)), [49, 48], [49, 32, 97];
    ThreeWords(a, a, a, 5, 1, 1);
    TenSplits(a, a, a, 5, 1, 1);
    KeyIsPath(log);
    CandidateIs(v, root, log, 3, ranked, p);
    CandidateIs(v, root, log, 3, ranked, one);
    PartingIsPath(log, p);
    var i: nat :| i < |ranked| && PathAt(v, ranked, i, p);
    var k: nat :| k < |ranked| && PathAt(v, ranked, k, one);
    var q := SizeIs(v, root, log, 3, ranked, i);
    var q' := SizeIs(v, root, log, 3, ranked, k);
    TwoSums(log);
    assert Ahead(ranked, k, i);
    assert k in Outranking(v, ranked, p);
  }

  lemma KeyIsPath(log: seq<Entry>)
    requires log == LogOf(Three([97], [97], [97], 5, 1, 1))
    ensures IsPath(log, [49, 32, 97]) && Above(log, [49, 32, 97]) == {0, 1}
  {
    hide LogOf, IsPath, Parting, Three;
    var a: bytes, one: bytes, ten: bytes := [97], [49, 32, 97], [49, 48];
    TenSplits(a, a, a, 5, 1, 1);
    EmptyPath(log);
    OnlyThisKey(log);
    assert 1 in Above(log, ten);
    assert one[..0] == [] && one[..1] == [49] == ten[..1] && one[..2] == [49, 32];
    TwoAbove(log, one);
  }

  lemma TwoAbove(log: seq<Entry>, p: bytes)
    requires |p| == 3 && IsPath(log, p[..0]) && IsPath(log, p[..1]) && !IsPath(log, p[..2])
    ensures Above(log, p) == {0, 1}
  {
    hide IsPath;
  }

  lemma OnlyThisKey(log: seq<Entry>)
    requires log == LogOf(Three([97], [97], [97], 5, 1, 1))
    ensures IsPath(log, [49, 32, 97]) && !IsPath(log, [49, 32])
  {
    hide LogOf, Three, IsPath;
    var a: bytes, x: bytes := [97], [49, 32];
    ThreeWords(a, a, a, 5, 1, 1);
    SharedBeginning(a, a, a, x);
    assert log[0].word == [49, 32, 97];
    InsertedIsPath(log, 0);
    NoPath(log, x, 0);
  }

  lemma InsertedIsPath(log: seq<Entry>, i: nat)
    requires i < |log|
    ensures IsPath(log, log[i].word)
  {}

  // Nothing parts after what begins a single, longer word.
  lemma NoPath(log: seq<Entry>, x: bytes, i: nat)
    requires x != [] && forall k :: 0 <= k < |log| ==> |x| < |log[k].word| && (x <= log[k].word ==> k == i)
    ensures !IsPath(log, x)
  {}

  lemma PartingIsPath(log: seq<Entry>, p: bytes)
    requires Parting(log, p)
    ensures IsPath(log, p)
  {}

  lemma TwoSums(log: seq<Entry>)
    requires log == LogOf(Three([97], [97], [97], 5, 1, 1))
    ensures Sum(log, [49, 32, 97]) == 5 && Sum(log, [49, 48]) == 2
  {
    hide LogOf, Sum;
    var a: bytes := [97];
    ThreeWords(a, a, a, 5, 1, 1);
    SumOfThree(log, [49, 32, 97]);
    SumOfThree(log, [49, 48]);
    SharedBeginning(a, a, a, [49, 48]);
    SharedBeginning(a, a, a, [49, 32, 97]);
    assert log[0].word == [49, 32, 97];
  }
}
