/** PrefixAnalyse (helper/prefix.go): insert every key into a radix tree, walk the tree breadth first
    (traverse in helper/radix.go) down to a depth, and keep the largest prefixes. */
module PrefixTop {
  import opened Bytes
  import opened Decimal
  import opened Radix
  import opened RadixTrees
  import opened TopLists
  import opened Strings

  // ------------------------------------------------------------------ depth

  // The root has depth 1.
  ghost function Depth(v: View, root: RadixNode, n: RadixNode): (d: nat)
    requires Shape(v, root) && n in v
    ensures d >= 1 && (d == 1 <==> n == root)
    decreases |v[n].full|
  {
    if n == root then 1 else Depth(v, root, Parent(v, root, n)) + 1
  }

  lemma ParentIs(v: View, root: RadixNode, p: RadixNode, c: RadixNode)
    requires Shape(v, root) && p in v && c in v[p].children
    ensures c in v && c != root && Parent(v, root, c) == p && Depth(v, root, c) == Depth(v, root, p) + 1
  {
    assert Branches(v, root, p);
    assert exists i :: 0 <= i < |v[p].children| && v[p].children[i] == c && IsChild(v, root, p, v[p].children[i]);
    var q := Parent(v, root, c);
    assert v[q].full == v[c].full[..|v[c].full| - |v[c].path|] == v[p].full;
    SameFull(v, root, p, q);
  }

  // The nodes whose full path is a prefix of n's.
  ghost function Prefixes(v: View, n: RadixNode): set<RadixNode>
    requires n in v
  {
    set m | m in v && v[m].full <= v[n].full
  }

  // Depth counts the nodes whose full path is a prefix of this one's.
  lemma {:induction false} DepthCounts(v: View, root: RadixNode, n: RadixNode)
    requires Shape(v, root) && n in v
    ensures Depth(v, root, n) == |Prefixes(v, n)|
    decreases |v[n].full|
  {
    hide Branches, HasParent;
    if n == root {
      forall m | m in Prefixes(v, n) ensures m == root { SameFull(v, root, m, root); }
      assert Prefixes(v, n) == {root};
    } else {
      var p := Parent(v, root, n);
      DepthCounts(v, root, p);
      forall m | m in Prefixes(v, n) && m != n ensures m in Prefixes(v, p) { PrefixIsAncestor(v, root, m, n); }
      forall m | m in Prefixes(v, p) ensures m in Prefixes(v, n) && m != n {
        assert v[m].full <= v[p].full <= v[n].full;
      }
      assert Prefixes(v, n) == Prefixes(v, p) + {n};
    }
  }

  // ------------------------------------------------------------------ breadth first

  predicate Distinct(s: seq<RadixNode>) { forall i, j :: 0 <= i < j < |s| ==> s[i] != s[j] }

  ghost predicate Known(v: View, s: seq<RadixNode>) { forall i :: 0 <= i < |s| ==> s[i] in v }

  // Depths do not fall along s.
  ghost predicate Descending(v: View, root: RadixNode, s: seq<RadixNode>)
    requires Shape(v, root) && Known(v, s)
  {
    forall i, j :: 0 <= i < j < |s| ==> Depth(v, root, s[i]) <= Depth(v, root, s[j])
  }

  ghost predicate Within(v: View, root: RadixNode, s: seq<RadixNode>, d: nat)
    requires Shape(v, root) && Known(v, s)
  {
    forall i :: 0 <= i < |s| ==> Depth(v, root, s[i]) <= d
  }

  // Parents have been visited; children of visited nodes have been met.
  ghost predicate Linked(v: View, root: RadixNode, visited: seq<RadixNode>, all: seq<RadixNode>)
    requires Shape(v, root) && Known(v, all)
  {
    && (forall i :: 0 <= i < |all| && all[i] != root ==> Parent(v, root, all[i]) in visited)
    && (forall n, c :: n in visited && n in v && c in v[n].children ==> c in all)
  }

  // The walk: visited nodes, then the queue.
  ghost predicate Walk(v: View, root: RadixNode, visited: seq<RadixNode>, queue: seq<RadixNode>)
    requires Shape(v, root)
  {
    var all := visited + queue;
    && Known(v, all) && Distinct(all) && root in all
    && Linked(v, root, visited, all) && Descending(v, root, all)
    && (queue != [] ==> queue[0] in v && Within(v, root, all, Depth(v, root, queue[0]) + 1))
  }

  lemma WalkStarts(v: View, root: RadixNode)
    requires Shape(v, root)
    ensures Walk(v, root, [], [root])
  {
    assert [] + [root] == [root];
  }

  // One turn: the head leaves the queue and its children join it.
  lemma WalkStep(v: View, root: RadixNode, visited: seq<RadixNode>, queue: seq<RadixNode>)
    requires Shape(v, root) && Walk(v, root, visited, queue) && queue != []
    ensures queue[0] in v && Walk(v, root, visited + [queue[0]], queue[1..] + v[queue[0]].children)
  {
    hide Shape, Depth, Parent, Linked, Descending, Within, Distinct;
    var h, all := queue[0], visited + queue;
    var cs := v[h].children;
    var next := queue[1..] + cs;
    assert visited + [h] + next == all + cs;
    forall k | 0 <= k < |cs| ensures Newcomer(v, root, all, h, cs[k]) { NewChild(v, root, visited, queue, cs[k]); }
    DistinctChildren(v, root, h);
    StepDistinct(v, root, all, h, cs);
    StepLinked(v, root, visited, queue, cs);
    StepDepths(v, root, visited, queue, cs);
  }

  ghost predicate Newcomer(v: View, root: RadixNode, all: seq<RadixNode>, h: RadixNode, c: RadixNode)
    requires Shape(v, root) && h in v
  {
    c in v && c != root && c !in all && Parent(v, root, c) == h && Depth(v, root, c) == Depth(v, root, h) + 1
  }

  lemma StepDistinct(v: View, root: RadixNode, all: seq<RadixNode>, h: RadixNode, cs: seq<RadixNode>)
    requires Shape(v, root) && h in v && Known(v, all) && Distinct(all) && Distinct(cs)
    requires forall k :: 0 <= k < |cs| ==> Newcomer(v, root, all, h, cs[k])
    ensures Known(v, all + cs) && Distinct(all + cs)
  {
    hide Shape, Depth, Parent;
    assert forall k :: 0 <= k < |cs| ==> cs[k] !in all;
  }

  lemma StepLinked(v: View, root: RadixNode, visited: seq<RadixNode>, queue: seq<RadixNode>, cs: seq<RadixNode>)
    requires Shape(v, root) && queue != [] && Known(v, visited + queue) && Linked(v, root, visited, visited + queue)
    requires queue[0] in v && cs == v[queue[0]].children && Known(v, visited + queue + cs)
    requires forall k :: 0 <= k < |cs| ==> Newcomer(v, root, visited + queue, queue[0], cs[k])
    ensures Linked(v, root, visited + [queue[0]], visited + queue + cs)
  {
    hide Shape, Depth, Parent;
    var h, all := queue[0], visited + queue;
    forall i | 0 <= i < |all + cs| && (all + cs)[i] != root ensures Parent(v, root, (all + cs)[i]) in visited + [h] {
      if i < |all| {
        assert (all + cs)[i] == all[i];
      } else {
        assert Newcomer(v, root, all, h, cs[i - |all|]);
      }
    }
  }

  lemma StepDepths(v: View, root: RadixNode, visited: seq<RadixNode>, queue: seq<RadixNode>, cs: seq<RadixNode>)
    requires Shape(v, root) && Walk(v, root, visited, queue) && queue != [] && Known(v, visited + queue + cs)
    requires forall k :: 0 <= k < |cs| ==> Newcomer(v, root, visited + queue, queue[0], cs[k])
    ensures Descending(v, root, visited + queue + cs)
    ensures var next := queue[1..] + cs;
      next != [] ==> next[0] in v && Within(v, root, visited + queue + cs, Depth(v, root, next[0]) + 1)
  {
    hide Shape, Depth, Parent, Linked, Distinct;
    var h, all := queue[0], visited + queue;
    var more, d := all + cs, Depth(v, root, h);
    assert forall i :: 0 <= i < |more| ==> more[i] == if i < |all| then all[i] else cs[i - |all|];
    assert forall k :: 0 <= k < |cs| ==> Depth(v, root, cs[k]) == d + 1;
    assert Within(v, root, more, d + 1);
    var next := queue[1..] + cs;
    if next != [] {
      assert next[0] == more[|visited| + 1] && all[|visited|] == more[|visited|] == h;
    }
  }

  // A child of the head has not been met before.
  lemma NewChild(v: View, root: RadixNode, visited: seq<RadixNode>, queue: seq<RadixNode>, c: RadixNode)
    requires Shape(v, root) && Walk(v, root, visited, queue) && queue != []
    requires queue[0] in v && c in v[queue[0]].children
    ensures c in v && c != root && c !in visited + queue
    ensures Parent(v, root, c) == queue[0] && Depth(v, root, c) == Depth(v, root, queue[0]) + 1
  {
    hide Shape, Depth, Descending, Within;
    var all := visited + queue;
    ParentIs(v, root, queue[0], c);
    assert all[|visited|] == queue[0];
    forall j | 0 <= j < |visited| ensures visited[j] != queue[0] { assert all[j] == visited[j]; }
    forall i | 0 <= i < |all| ensures all[i] != c {
      assert all[i] != root ==> Parent(v, root, all[i]) in visited;
    }
  }

  lemma DistinctChildren(v: View, root: RadixNode, n: RadixNode)
    requires Shape(v, root) && n in v
    ensures Distinct(v[n].children)
  {
    hide HasParent;
    assert Branches(v, root, n);
  }

  // Every node still to be visited is at least as deep as the head of the queue.
  lemma {:induction false} Unseen(v: View, root: RadixNode, visited: seq<RadixNode>, queue: seq<RadixNode>,
                                  m: RadixNode)
    requires Shape(v, root) && Walk(v, root, visited, queue) && m in v && m !in visited
    ensures queue != [] && queue[0] in v && Depth(v, root, queue[0]) <= Depth(v, root, m)
    decreases |v[m].full|
  {
    hide Branches, HasParent;
    var all := visited + queue;
    if m in queue {
      var i :| 0 <= i < |queue| && queue[i] == m;
      assert all[|visited|] == queue[0] && all[|visited| + i] == m;
    } else {
      assert m !in all && m != root;
      Unseen(v, root, visited, queue, Parent(v, root, m));
    }
  }

  // ------------------------------------------------------------------ the code

  // The nodes of depth 3 to limit among those visited, with their sizes.
  ghost function Chosen(v: View, root: RadixNode, visited: seq<RadixNode>, limit: int): seq<Sized<RadixNode>>
    requires Shape(v, root) && Known(v, visited)
  {
    if visited == [] then []
    else
      var n := visited[|visited| - 1];
      Chosen(v, root, visited[..|visited| - 1], limit)
      + if 3 <= Depth(v, root, n) <= limit then [Sized(n, v[n].total)] else []
  }

  // The closure PrefixAnalyse hands to traverse.
  class Callback {
    const topList: TopList<RadixNode>
    const maxDepth: int

    constructor (topList: TopList<RadixNode>, maxDepth: int)
      ensures this.topList == topList && this.maxDepth == maxDepth
    {
      this.topList, this.maxDepth := topList, maxDepth;
    }

    method Call(node: RadixNode, depth: nat) returns (more: bool)
      requires topList.Valid()
      modifies topList
      ensures topList.Valid() && (more <==> depth <= maxDepth)
      ensures topList.log == old(topList.log) + if 3 <= depth <= maxDepth then [Sized(node, node.totalSize)] else []
    {
      if depth > maxDepth { return false; }
      if depth <= 2 { return true; }
      topList.Add(Sized(node, node.totalSize));
      more := true;
    }
  }

  datatype NodeDepth = NodeDepth(node: RadixNode, depth: nat)

  ghost function Nodes(queue: seq<NodeDepth>): (r: seq<RadixNode>)
    ensures |r| == |queue| && forall i :: 0 <= i < |queue| ==> r[i] == queue[i].node
  {
    seq(|queue|, i requires 0 <= i < |queue| => queue[i].node)
  }

  ghost predicate DepthsRight(v: View, root: RadixNode, queue: seq<NodeDepth>)
    requires Shape(v, root)
  {
    forall i :: 0 <= i < |queue| ==> queue[i].node in v && queue[i].depth == Depth(v, root, queue[i].node)
  }

  // The walk in step with the queue and with what the callback has collected.
  ghost predicate InStep(v: View, root: RadixNode, visited: seq<RadixNode>, queue: seq<NodeDepth>, limit: int,
                         start: seq<Sized<RadixNode>>, log: seq<Sized<RadixNode>>)
    requires Shape(v, root)
  {
    && Walk(v, root, visited, Nodes(queue)) && DepthsRight(v, root, queue) && Known(v, visited)
    && log == start + Chosen(v, root, visited, limit)
  }

  // Breadth first until the callback says no. Whatever was not visited is deeper than the limit.
  method Traverse(tree: RadixTree, cb: Callback) returns (ghost visited: seq<RadixNode>)
    requires tree.Valid() && cb.topList.Valid()
    modifies cb.topList
    ensures tree.Valid() && tree.Snapshot() == old(tree.Snapshot()) && tree.log == old(tree.log) && cb.topList.Valid()
    ensures Complete(tree.Snapshot(), tree.root, visited, cb.maxDepth)
    ensures cb.topList.log == old(cb.topList.log) + Chosen(tree.Snapshot(), tree.root, visited, cb.maxDepth)
  {
    hide *;
    ghost var v, root, start := tree.Snapshot(), tree.root, cb.topList.log;
    TreeShape(tree);
    visited := [];
    var queue := [NodeDepth(tree.root, 1)];
    Begin(v, root, cb.maxDepth, start);
    while |queue| > 0
      invariant tree.Snapshot() == v && cb.topList.Valid()
      invariant InStep(v, root, visited, queue, cb.maxDepth, start, cb.topList.log)
      decreases |v| - |visited|
    {
      var head := queue[0];
      Head(v, root, visited, queue, cb.maxDepth, start, cb.topList.log);
      NodeFields(tree, head.node);
      ghost var before := cb.topList.log;
      var more := cb.Call(head.node, head.depth);
      if !more {
        Stopped(v, root, visited, queue, cb.maxDepth, start, before);
        return;
      }
      var grown := PushChildren(queue[1..], head.node, head.depth + 1);
      Turn(v, root, visited, queue, grown, cb.maxDepth, start, before);
      visited, queue := visited + [head.node], grown;
    }
    Stopped(v, root, visited, queue, cb.maxDepth, start, cb.topList.log);
  }

  method PushChildren(queue: seq<NodeDepth>, node: RadixNode, depth: nat) returns (r: seq<NodeDepth>)
    ensures r == queue + Pushed(node.children, depth)
  {
    r := queue;
    var i := 0;
    while i < |node.children|
      invariant 0 <= i <= |node.children| && r == queue + Pushed(node.children[..i], depth)
    {
      r := r + [NodeDepth(node.children[i], depth)];
      i := i + 1;
    }
    assert node.children[..i] == node.children;
  }

  function Pushed(children: seq<RadixNode>, depth: nat): (r: seq<NodeDepth>)
    ensures |r| == |children|
  {
    seq(|children|, i requires 0 <= i < |children| => NodeDepth(children[i], depth))
  }

  // What the walk has established when it ends.
  ghost predicate Complete(v: View, root: RadixNode, visited: seq<RadixNode>, limit: int) {
    && Shape(v, root) && Known(v, visited) && Distinct(visited) && Descending(v, root, visited)
    && (forall n :: n in v && n !in visited ==> Depth(v, root, n) > limit)
  }

  lemma Begin(v: View, root: RadixNode, limit: int, start: seq<Sized<RadixNode>>)
    requires Shape(v, root)
    ensures InStep(v, root, [], [NodeDepth(root, 1)], limit, start, start)
  {
    hide Branches, HasParent;
    WalkStarts(v, root);
    assert Nodes([NodeDepth(root, 1)]) == [root];
  }

  lemma Head(v: View, root: RadixNode, visited: seq<RadixNode>, queue: seq<NodeDepth>, limit: int,
             start: seq<Sized<RadixNode>>, log: seq<Sized<RadixNode>>)
    requires Shape(v, root) && queue != [] && InStep(v, root, visited, queue, limit, start, log)
    ensures queue[0].node in v && |visited| < |v|
  {
    hide Shape, Depth, Linked, Descending, Within, Chosen;
    var all := visited + Nodes(queue);
    DistinctBound(v, all);
  }

  lemma {:induction false} DistinctBound(v: View, s: seq<RadixNode>)
    requires Known(v, s) && Distinct(s)
    ensures |s| <= |v|
  {
    if s != [] {
      var n, init := s[|s| - 1], s[..|s| - 1];
      DistinctBound(v - {n}, init);
      assert v.Keys == (v - {n}).Keys + {n};
    }
  }

  lemma Turn(v: View, root: RadixNode, visited: seq<RadixNode>, queue: seq<NodeDepth>, grown: seq<NodeDepth>,
             limit: int,
             start: seq<Sized<RadixNode>>, log: seq<Sized<RadixNode>>)
    requires Shape(v, root) && queue != [] && InStep(v, root, visited, queue, limit, start, log)
    requires queue[0].node in v && grown == queue[1..] + Pushed(v[queue[0].node].children, queue[0].depth + 1)
    ensures var h := queue[0];
      InStep(v, root, visited + [h.node], grown, limit, start, log
        + if 3 <= h.depth <= limit then [Sized(h.node, v[h.node].total)] else [])
  {
    hide Shape, Depth, Walk, Chosen;
    var h := queue[0].node;
    WalkStep(v, root, visited, Nodes(queue));
    assert Nodes(grown) == Nodes(queue)[1..] + v[h].children;
    forall i | 0 <= i < |grown| ensures grown[i].node in v && grown[i].depth == Depth(v, root, grown[i].node) {
      if i >= |queue| - 1 { ParentIs(v, root, h, grown[i].node); }
    }
    ChosenSnoc(v, root, visited, h, limit);
  }

  lemma ChosenSnoc(v: View, root: RadixNode, visited: seq<RadixNode>, h: RadixNode, limit: int)
    requires Shape(v, root) && Known(v, visited) && h in v
    ensures Known(v, visited + [h])
    ensures Chosen(v, root, visited + [h], limit)
      == Chosen(v, root, visited, limit) + if 3 <= Depth(v, root, h) <= limit then [Sized(h, v[h].total)] else []
  {
    hide Shape, Depth;
    assert (visited + [h])[..|visited|] == visited;
  }

  lemma Stopped(v: View, root: RadixNode, visited: seq<RadixNode>, queue: seq<NodeDepth>, limit: int,
                start: seq<Sized<RadixNode>>, log: seq<Sized<RadixNode>>)
    requires Shape(v, root) && InStep(v, root, visited, queue, limit, start, log)
    requires queue == [] || queue[0].depth > limit
    ensures Complete(v, root, visited, limit) && log == start + Chosen(v, root, visited, limit)
  {
    hide Shape, Depth, Linked, Within, Chosen;
    var all := visited + Nodes(queue);
    assert forall i :: 0 <= i < |visited| ==> visited[i] == all[i];
    forall n | n in v && n !in visited ensures Depth(v, root, n) > limit {
      Unseen(v, root, visited, Nodes(queue), n);
    }
  }

  lemma TreeShape(tree: RadixTree)
    requires tree.Valid()
    ensures Shape(tree.Snapshot(), tree.root)
  {}

  lemma NodeFields(tree: RadixTree, n: RadixNode)
    requires n in tree.Snapshot()
    ensures tree.Snapshot()[n].children == n.children && tree.Snapshot()[n].total == n.totalSize
  {}

  // ------------------------------------------------------------------ the whole analysis

  datatype RedisObject = RedisObject(db: int, key: bytes, size: int)

  const SPACE: byte := 32

  // genKey
  function GenKey(db: int, key: bytes): bytes { Itoa(db) + [SPACE] + key }

  // A tag that lacks the delimiter is recovered from what it is prepended to.
  lemma TagPrefix(x: bytes, y: bytes, c: byte, u: bytes, w: bytes)
    requires c !in x && c !in y
    ensures x + [c] + u <= y + [c] + w <==> x == y && u <= w
  {
    var a, b := x + [c] + u, y + [c] + w;
    if a <= b {
      assert a[|x|] == c && b[|y|] == c;
      assert forall i :: 0 <= i < |x| ==> a[i] == x[i];
      assert forall i :: 0 <= i < |y| ==> b[i] == y[i];
      assert |x| == |y|;
      assert x == a[..|x|] == b[..|x|] == y;
      assert u == a[|x| + 1..] && w == b[|x| + 1..];
    }
  }

  // The radix tree's key of a database and a prefix is a prefix of the keys below that prefix.
  lemma GenKeyPrefix(db: int, p: bytes, db': int, key: bytes)
    ensures GenKey(db, p) <= GenKey(db', key) <==> db == db' && p <= key
  {
    hide Itoa;
    ItoaChars(db, SPACE);
    ItoaChars(db', SPACE);
    TagPrefix(Itoa(db), Itoa(db'), SPACE, p, key);
    if Itoa(db) == Itoa(db') { ItoaInjective(db, db'); }
  }

  function LogOf(objects: seq<RedisObject>): (r: seq<Entry>)
    ensures |r| == |objects|
    ensures forall i :: 0 <= i < |objects| ==> r[i] == Entry(GenKey(objects[i].db, objects[i].key), objects[i].size)
  {
    seq(|objects|, i requires 0 <= i < |objects| => Entry(GenKey(objects[i].db, objects[i].key), objects[i].size))
  }

  // topN == 0 asks for everything.
  function Capacity(topN: nat): nat { if topN == 0 then MAX_INT64 else topN }

  // maxDepth == 0 asks for every depth; otherwise two levels are added in int arithmetic.
  function DepthLimit(maxDepth: int): int { if maxDepth == 0 then MAX_INT64 else Wrap64(maxDepth + 2) }

  // A limit of d levels reaches depth d + 2; the two largest limits wrap and reach nothing.
  lemma DepthLimitReaches(maxDepth: int, depth: nat)
    requires -0x8000_0000_0000_0000 <= maxDepth <= MAX_INT64 && 3 <= depth <= MAX_INT64
    ensures depth <= DepthLimit(maxDepth) <==> maxDepth == 0 || (maxDepth <= MAX_INT64 - 2 && depth <= maxDepth + 2)
  {
    var v := maxDepth + 2;
    if v > MAX_INT64 {
      ModUnique(v, TWO64, 0, v);
    } else {
      SignedUnsigned(v, TWO64);
    }
  }

  // ranked lists each of the nodes of depth 3 to limit once, with its total, shallower nodes first.
  ghost predicate ListsNodes(v: View, root: RadixNode, nodes: set<RadixNode>, limit: int, ranked: seq<Sized<RadixNode>>)
    requires Shape(v, root)
  {
    && (forall i :: 0 <= i < |ranked| ==> Listed(v, root, nodes, limit, ranked[i]))
    && (forall n :: n in nodes && n in v && 3 <= Depth(v, root, n) <= limit ==> Sized(n, v[n].total) in ranked)
    && (forall i, j :: 0 <= i < j < |ranked| ==> Precedes(v, root, ranked[i], ranked[j]))
  }

  ghost predicate Precedes(v: View, root: RadixNode, x: Sized<RadixNode>, y: Sized<RadixNode>)
    requires Shape(v, root)
  {
    x.item in v && y.item in v && x.item != y.item && Depth(v, root, x.item) <= Depth(v, root, y.item)
  }

  ghost predicate Listed(v: View, root: RadixNode, nodes: set<RadixNode>, limit: int, x: Sized<RadixNode>)
    requires Shape(v, root)
  {
    x.item in nodes && x.item in v && x.size == v[x.item].total && 3 <= Depth(v, root, x.item) <= limit
  }

  ghost function SetOf(s: seq<RadixNode>): set<RadixNode> { set n | n in s }

  // The walk chooses among the nodes it visits.
  lemma {:induction false} ChosenAmong(v: View, root: RadixNode, visited: seq<RadixNode>, limit: int)
    requires Shape(v, root) && Known(v, visited) && Distinct(visited) && Descending(v, root, visited)
    ensures ListsNodes(v, root, SetOf(visited), limit, Chosen(v, root, visited, limit))
  {
    hide Shape, Depth, Chosen, ListsNodes, SetOf;
    if visited == [] {
      NoneListed(v, root, limit);
    } else {
      var last := |visited| - 1;
      var n, init := visited[last], visited[..last];
      assert forall k :: 0 <= k < last ==> init[k] == visited[k] && visited[k] != n;
      assert visited == init + [n];
      ChosenAmong(v, root, init, limit);
      ChosenSnoc(v, root, init, n, limit);
      OneMore(v, root, init, n, limit, Chosen(v, root, init, limit));
      SetSnoc(init, n);
    }
  }

  lemma NoneListed(v: View, root: RadixNode, limit: int)
    requires Shape(v, root)
    ensures Known(v, []) && ListsNodes(v, root, SetOf([]), limit, Chosen(v, root, [], limit))
  {
    hide Shape, Depth;
  }

  lemma SetSnoc(init: seq<RadixNode>, n: RadixNode)
    ensures SetOf(init + [n]) == SetOf(init) + {n}
  {}

  lemma OneMore(v: View, root: RadixNode, init: seq<RadixNode>, n: RadixNode, limit: int, c: seq<Sized<RadixNode>>)
    requires Shape(v, root) && Known(v, init) && n in v && n !in init && ListsNodes(v, root, SetOf(init), limit, c)
    requires forall k :: 0 <= k < |init| ==> Depth(v, root, init[k]) <= Depth(v, root, n)
    ensures ListsNodes(v, root, SetOf(init) + {n}, limit, c
      + if 3 <= Depth(v, root, n) <= limit then [Sized(n, v[n].total)] else [])
  {
    hide Shape, Depth, Listed, Precedes;
    forall i | 0 <= i < |c|
      ensures Listed(v, root, SetOf(init) + {n}, limit, c[i]) && Precedes(v, root, c[i], Sized(n, v[n].total))
    {
      BeforeLast(v, root, init, n, limit, c[i]);
    }
    if 3 <= Depth(v, root, n) <= limit {
      LastListed(v, root, SetOf(init) + {n}, n, limit);
    } else {
      assert c + [] == c;
    }
  }

  lemma BeforeLast(v: View, root: RadixNode, init: seq<RadixNode>, n: RadixNode, limit: int, x: Sized<RadixNode>)
    requires Shape(v, root) && n in v && Known(v, init) && n !in init && Listed(v, root, SetOf(init), limit, x)
    requires forall k :: 0 <= k < |init| ==> Depth(v, root, init[k]) <= Depth(v, root, n)
    ensures Listed(v, root, SetOf(init) + {n}, limit, x) && Precedes(v, root, x, Sized(n, v[n].total))
  {
    hide Shape, Depth;
    var k :| 0 <= k < |init| && init[k] == x.item;
  }

  lemma LastListed(v: View, root: RadixNode, nodes: set<RadixNode>, n: RadixNode, limit: int)
    requires Shape(v, root) && n in v && n in nodes && 3 <= Depth(v, root, n) <= limit
    ensures Listed(v, root, nodes, limit, Sized(n, v[n].total))
  {
    hide Shape, Depth;
  }

  lemma ChosenLists(v: View, root: RadixNode, visited: seq<RadixNode>, limit: int, log: seq<Sized<RadixNode>>)
    requires Complete(v, root, visited, limit) && log == [] + Chosen(v, root, visited, limit)
    ensures ListsNodes(v, root, v.Keys, limit, log)
  {
    hide Shape, Depth, Chosen;
    ChosenAmong(v, root, visited, limit);
    assert log == Chosen(v, root, visited, limit);
    forall i | 0 <= i < |log| ensures Listed(v, root, v.Keys, limit, log[i]) {
      assert Listed(v, root, SetOf(visited), limit, log[i]);
    }
  }

  // The callback given to Parse, once per object.
  method BuildTree(objects: seq<RedisObject>) returns (tree: RadixTree)
    ensures fresh(tree) && fresh(tree.nodes) && tree.Valid() && tree.log == LogOf(objects)
  {
    hide Tree, Itoa, GenKey;
    tree := new RadixTree();
    var i := 0;
    while i < |objects|
      invariant 0 <= i <= |objects| && tree.log == LogOf(objects)[..i]
      invariant fresh(tree) && fresh(tree.nodes) && tree.Valid()
    {
      var key := GenKey(objects[i].db, objects[i].key);
      tree.Insert(key, objects[i].size);
      i := i + 1;
    }
  }

  // The nodes below the database level down to maxDepth more, largest first; the totals of each
  // are those of the keys it is a prefix of.
  method PrefixAnalyse(objects: seq<RedisObject>, topN: int, maxDepth: int)
      returns (ok: bool, tree: RadixTree, list: seq<Sized<RadixNode>>, ghost ranked: seq<Sized<RadixNode>>)
    ensures ok <==> topN >= 0
    ensures fresh(tree) && fresh(tree.nodes)
    ensures ok ==>
      && Tree(tree.Snapshot(), tree.root, LogOf(objects))
      && ListsNodes(tree.Snapshot(), tree.root, tree.nodes, DepthLimit(maxDepth), ranked)
      && IsTop(ranked, Capacity(topN), list)
  {
    hide *;
    ranked, list := [], [];
    if topN < 0 {
      ok := false;
      tree := new RadixTree();
      return;
    }
    tree := BuildTree(objects);
    var topList := new TopList<RadixNode>(Capacity(topN));
    var callback := new Callback(topList, DepthLimit(maxDepth));
    ghost var visited := Traverse(tree, callback);
    ChosenLists(tree.Snapshot(), tree.root, visited, DepthLimit(maxDepth), topList.log);
    topList.ValidIsTop();
    TreeIs(tree);
    ok, list, ranked := true, topList.list, topList.log;
  }

  lemma TreeIs(tree: RadixTree)
    requires tree.Valid()
    ensures Tree(tree.Snapshot(), tree.root, tree.log) && tree.Snapshot().Keys == tree.nodes
  {}

  // ------------------------------------------------------------------ which prefixes are reported

  predicate IsKey(objects: seq<RedisObject>, i: nat, db: int, key: bytes) {
    i < |objects| && objects[i].db == db && objects[i].key == key
  }

  // Two keys of the database part right after q.
  predicate KeysPart(objects: seq<RedisObject>, i: nat, j: nat, db: int, q: bytes) {
    && i < |objects| && j < |objects| && objects[i].db == db == objects[j].db
    && q < objects[i].key && q < objects[j].key && objects[i].key[|q|] != objects[j].key[|q|]
  }

  lemma GenKeyTail(db: int, q: bytes, key: bytes)
    requires q < key
    ensures GenKey(db, q) < GenKey(db, key) && GenKey(db, key)[|GenKey(db, q)|] == key[|q|]
  {
    GenKeyPrefix(db, q, db, key);
  }

  // A database's prefix has a node exactly if it is a key there or two keys there part right after
  // it. For the empty prefix: the node of the database itself exists exactly if the database has
  // an empty key or keys with different first bytes.
  lemma PrefixNodes(v: View, root: RadixNode, objects: seq<RedisObject>, db: int, q: bytes)
    requires Tree(v, root, LogOf(objects))
    ensures HasNode(v, GenKey(db, q)) <==>
      (exists i: nat :: IsKey(objects, i, db, q)) || (exists i: nat, j: nat :: KeysPart(objects, i, j, db, q))
  {
    hide Tree, HasNode, GenKey, Itoa, Shape;
    var log, p := LogOf(objects), GenKey(db, q);
    NodesAre(v, root, log, p);
    GenKeyNonEmpty(db, q);
    if Inserted(log, p) {
      var i: nat :| i < |log| && log[i].word == p;
      SameGenKey(objects[i].db, objects[i].key, db, q);
      assert IsKey(objects, i, db, q);
    }
    if Parting(log, p) {
      var i: nat, j: nat :| i < |log| && j < |log| && p < log[i].word && p < log[j].word
        && log[i].word[|p|] != log[j].word[|p|];
      GenKeyBelow(objects[i], db, q);
      GenKeyBelow(objects[j], db, q);
      assert KeysPart(objects, i, j, db, q);
    }
    if i: nat :| IsKey(objects, i, db, q) {
      assert log[i].word == p;
    }
    if i: nat, j: nat :| KeysPart(objects, i, j, db, q) {
      GenKeyTail(db, q, objects[i].key);
      GenKeyTail(db, q, objects[j].key);
      assert log[i].word[|p|] != log[j].word[|p|];
    }
  }

  lemma GenKeyNonEmpty(db: int, q: bytes)
    ensures GenKey(db, q) != []
  {}

  lemma SameGenKey(db: int, key: bytes, db': int, q: bytes)
    requires GenKey(db, key) == GenKey(db', q)
    ensures db == db' && key == q
  {
    GenKeyPrefix(db, key, db', q);
    GenKeyPrefix(db', q, db, key);
  }

  lemma GenKeyBelow(o: RedisObject, db: int, q: bytes)
    requires GenKey(db, q) < GenKey(o.db, o.key)
    ensures o.db == db && q < o.key && GenKey(o.db, o.key)[|GenKey(db, q)|] == o.key[|q|]
  {
    GenKeyPrefix(db, q, o.db, o.key);
  }
}
