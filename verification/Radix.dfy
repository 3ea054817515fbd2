/** What holds of the radix tree of helper/radix.go, stated over a snapshot of its heap: a map from
    nodes to their fields. Each in-place update is a function on snapshots that keeps it. */
module Radix {
  import opened Bytes

  class RadixNode {
    var path: bytes
    var end: bool
    var children: seq<RadixNode>
    var totalSize: int
    var keyCount: int
    var fullpath: bytes

    constructor (path: bytes, end: bool, children: seq<RadixNode>, totalSize: int, keyCount: int, fullpath: bytes)
      ensures Fields() == Data(path, end, children, totalSize, keyCount, fullpath)
    {
      this.path, this.end, this.children := path, end, children;
      this.totalSize, this.keyCount, this.fullpath := totalSize, keyCount, fullpath;
    }

    ghost function Fields(): Data
      reads this
    {
      Data(path, end, children, totalSize, keyCount, fullpath)
    }
  }

  datatype Data = Data(path: bytes, end: bool, children: seq<RadixNode>, total: int, count: int, full: bytes)

  type View = map<RadixNode, Data>

  // ------------------------------------------------------------------ the naive totals

  datatype Entry = Entry(word: bytes, size: int)

  function Sum(log: seq<Entry>, prefix: bytes): int {
    if log == [] then 0
    else
      var e := log[|log| - 1];
      Sum(log[..|log| - 1], prefix) + if prefix <= e.word then e.size else 0
  }

  function Count(log: seq<Entry>, prefix: bytes): nat {
    if log == [] then 0
    else Count(log[..|log| - 1], prefix) + if prefix <= log[|log| - 1].word then 1 else 0
  }

  ghost predicate Inserted(log: seq<Entry>, w: bytes) { exists i :: 0 <= i < |log| && log[i].word == w }

  // Two prefixes of the same inserted words have the same totals.
  lemma {:induction false} SameWords(log: seq<Entry>, x: bytes, y: bytes)
    requires forall i :: 0 <= i < |log| ==> (x <= log[i].word <==> y <= log[i].word)
    ensures Sum(log, x) == Sum(log, y) && Count(log, x) == Count(log, y)
  {
    if log != [] { SameWords(log[..|log| - 1], x, y); }
  }

  lemma {:induction false} NoWords(log: seq<Entry>, x: bytes)
    requires forall i :: 0 <= i < |log| ==> !(x <= log[i].word)
    ensures Sum(log, x) == 0 && Count(log, x) == 0
  {
    if log != [] { NoWords(log[..|log| - 1], x); }
  }

  // ------------------------------------------------------------------ shape

  function First(v: View, c: RadixNode): int {
    if c in v && v[c].path != [] then v[c].path[0] else -1
  }

  predicate IsChild(v: View, root: RadixNode, n: RadixNode, c: RadixNode)
    requires n in v
  {
    c in v && c != root && v[c].path != [] && v[c].full == v[n].full + v[c].path
  }

  // Children continue their parent's full path, and siblings differ in their first byte.
  predicate Branches(v: View, root: RadixNode, n: RadixNode)
    requires n in v
  {
    var cs := v[n].children;
    && (forall i :: 0 <= i < |cs| ==> IsChild(v, root, n, cs[i]))
    && (forall i, j :: 0 <= i < j < |cs| ==> First(v, cs[i]) != First(v, cs[j]))
  }

  ghost predicate HasParent(v: View, c: RadixNode) { exists p :: p in v && c in v[p].children }

  ghost predicate Shape(v: View, root: RadixNode) {
    && root in v && v[root].path == [] && v[root].full == []
    && (forall n :: n in v ==> Branches(v, root, n))
    && (forall c :: c in v && c != root ==> HasParent(v, c))
  }

  ghost function Parent(v: View, root: RadixNode, c: RadixNode): (p: RadixNode)
    requires Shape(v, root) && c in v && c != root
    ensures p in v && c in v[p].children && v[c].full == v[p].full + v[c].path && v[c].path != []
  {
    assert HasParent(v, c);
    var p :| p in v && c in v[p].children;
    assert Branches(v, root, p);
    p
  }

  // Siblings are told apart by any byte after their parent's path.
  lemma SiblingsDiffer(v: View, root: RadixNode, p: RadixNode, c: RadixNode, d: RadixNode)
    requires Shape(v, root) && p in v && c in v[p].children && d in v[p].children
    requires First(v, c) == First(v, d)
    ensures c == d
  {
    assert Branches(v, root, p);
  }

  // The full paths decide ancestry: a node whose full path is a prefix of another's is that node or
  // its full path is already a prefix of the other's parent's.
  lemma {:induction false} PrefixIsAncestor(v: View, root: RadixNode, n: RadixNode, m: RadixNode)
    requires Shape(v, root) && n in v && m in v && v[n].full <= v[m].full
    ensures n == m || (m != root && v[n].full <= v[Parent(v, root, m)].full)
    decreases |v[n].full| + |v[m].full|
  {
    hide Branches, HasParent, IsChild;
    if n == root {
    } else {
      var q := Parent(v, root, n);
      PrefixIsAncestor(v, root, q, m);
      var p := Parent(v, root, m);
      var f, g := v[p].full, v[n].full;
      if !(g <= f) {
        assert f <= v[m].full && |f| < |g| && f <= g;
        PrefixIsAncestor(v, root, p, n);
        assert f == v[q].full;
        PrefixIsAncestor(v, root, q, p);
        assert p == q;
        assert v[n].path[0] == v[m].full[|f|] == v[m].path[0];
        SiblingsDiffer(v, root, p, n, m);
      }
    }
  }

  lemma SameFull(v: View, root: RadixNode, n: RadixNode, m: RadixNode)
    requires Shape(v, root) && n in v && m in v && v[n].full == v[m].full
    ensures n == m
  {
    hide Branches, HasParent, IsChild;
    PrefixIsAncestor(v, root, n, m);
  }

  // A path that ends inside the edge above n continues to n in every node's full path.
  lemma {:induction false} InsideEdge(v: View, root: RadixNode, n: RadixNode, x: bytes, e: RadixNode)
    requires Shape(v, root) && n in v && n != root && e in v
    requires x <= v[n].full && |x| > |v[n].full| - |v[n].path| && x <= v[e].full
    ensures v[n].full <= v[e].full
    decreases |v[e].full|
  {
    hide Branches, HasParent, IsChild;
    var p, q := Parent(v, root, n), Parent(v, root, e);
    if |v[q].full| >= |x| {
      assert x <= v[q].full;
      InsideEdge(v, root, n, x, q);
    } else {
      assert v[p].full <= v[e].full && v[q].full <= v[n].full;
      PrefixIsAncestor(v, root, p, e);
      PrefixIsAncestor(v, root, q, n);
      SameFull(v, root, p, q);
      assert v[n].path[0] == x[|v[p].full|] == v[e].path[0];
      SiblingsDiffer(v, root, p, n, e);
    }
  }

  // Below a node, every full path goes through one of its children.
  lemma {:induction false} ThroughChild(v: View, root: RadixNode, n: RadixNode, e: RadixNode)
      returns (c: RadixNode)
    requires Shape(v, root) && n in v && e in v && v[n].full <= v[e].full && n != e
    ensures c in v && c in v[n].children && v[c].full <= v[e].full
    decreases |v[e].full|
  {
    hide Branches, HasParent, IsChild;
    PrefixIsAncestor(v, root, n, e);
    var q := Parent(v, root, e);
    if q == n {
      c := e;
    } else {
      c := ThroughChild(v, root, n, q);
    }
  }

  // ------------------------------------------------------------------ marks and totals

  ghost predicate HasNode(v: View, w: bytes) { exists n :: n in v && v[n].full == w }

  ghost predicate Marked(log: seq<Entry>, d: Data) { d.end <==> Inserted(log, d.full) }

  // end marks exactly the inserted words, and every inserted word has its node.
  ghost predicate Ends(v: View, log: seq<Entry>) {
    (forall n :: n in v ==> Marked(log, v[n])) && AllPresent(v, log)
  }

  ghost predicate AllPresent(v: View, log: seq<Entry>) {
    forall i :: 0 <= i < |log| ==> HasNode(v, log[i].word)
  }

  // A node other than the root and ex that marks no word has at least two children.
  predicate ForksBut(v: View, root: RadixNode, ex: RadixNode) {
    forall n :: n in v && n != root && n != ex && !v[n].end ==> |v[n].children| >= 2
  }

  // What inserting e adds to the totals of a full path once the walk has passed done bytes.
  function Added(e: Entry, done: int, full: bytes): bool { full <= e.word && |full| <= done }

  predicate Accounts(log: seq<Entry>, e: Entry, done: int, d: Data) {
    && d.total == Sum(log, d.full) + (if Added(e, done, d.full) then e.size else 0)
    && d.count == Count(log, d.full) + if Added(e, done, d.full) then 1 else 0
  }

  predicate Totals(v: View, log: seq<Entry>, e: Entry, done: int) {
    forall n :: n in v ==> Accounts(log, e, done, v[n])
  }

  // The totals agree with the naive ones.
  predicate Exact(log: seq<Entry>, d: Data) { d.total == Sum(log, d.full) && d.count == Count(log, d.full) }

  // The tree between two inserts: shape, forks, marks and the naive totals at every node.
  ghost predicate Tree(v: View, root: RadixNode, log: seq<Entry>) {
    && Shape(v, root) && ForksBut(v, root, root) && Ends(v, log)
    && forall n :: n in v ==> Exact(log, v[n])
  }

  // The tree while e is being inserted: done bytes of its word are accounted for.
  ghost predicate Walking(v: View, root: RadixNode, log: seq<Entry>, e: Entry, done: int, ex: RadixNode) {
    Shape(v, root) && ForksBut(v, root, ex) && Ends(v, log) && Totals(v, log, e, done)
  }

  // No inserted word has a full path that ends inside the edge above n.
  lemma EdgeWords(v: View, root: RadixNode, log: seq<Entry>, n: RadixNode, x: bytes)
    requires Shape(v, root) && Ends(v, log) && n in v && n != root
    requires x <= v[n].full && |x| > |v[n].full| - |v[n].path|
    ensures Sum(log, x) == Sum(log, v[n].full) && Count(log, x) == Count(log, v[n].full)
    ensures x != v[n].full ==> !Inserted(log, x)
  {
    hide Shape, Sum, Count;
    forall i | 0 <= i < |log| && x <= log[i].word ensures v[n].full <= log[i].word {
      assert HasNode(v, log[i].word);
      var m :| m in v && v[m].full == log[i].word;
      InsideEdge(v, root, n, x, m);
    }
    SameWords(log, x, v[n].full);
  }

  // ------------------------------------------------------------------ the four updates

  // The node keeps the first i bytes of its path; child takes the rest and everything below.
  function Split(v: View, node: RadixNode, child: RadixNode, i: nat): View
    requires node in v && i <= |v[node].path| <= |v[node].full|
  {
    var d := v[node];
    v[child := d.(path := d.path[i..])]
     [node := d.(path := d.path[..i], end := false, children := [child], full := d.full[..|d.full| - (|d.path| - i)])]
  }

  function Bump(v: View, node: RadixNode, size: int): View
    requires node in v
  {
    v[node := v[node].(total := v[node].total + size, count := v[node].count + 1)]
  }

  function Mark(v: View, node: RadixNode): View
    requires node in v
  {
    v[node := v[node].(end := true)]
  }

  function Leaf(v: View, node: RadixNode, child: RadixNode, rest: bytes, e: Entry): View
    requires node in v
  {
    v[child := Data(rest, true, [], e.size, 1, e.word)][node := v[node].(children := v[node].children + [child])]
  }

  // A node's path is the end of its full path.
  lemma PathInFull(v: View, root: RadixNode, n: RadixNode)
    requires Shape(v, root) && n in v
    ensures |v[n].path| <= |v[n].full| && v[n].full[|v[n].full| - |v[n].path|..] == v[n].path
    ensures n != root ==> v[n].path != []
  {
    hide Branches;
    if n != root { var _ := Parent(v, root, n); }
  }

  lemma SplitShape(v: View, root: RadixNode, node: RadixNode, child: RadixNode, i: nat)
    requires Shape(v, root) && node in v && node != root && child !in v
    requires 0 < i < |v[node].path| <= |v[node].full|
    ensures Shape(Split(v, node, child, i), root)
  {
    hide Branches;
    var w := Split(v, node, child, i);
    PathInFull(v, root, node);
    var p := Parent(v, root, node);
    assert v[node].full == v[p].full + v[node].path;
    assert w[node].full == v[p].full + w[node].path;
    forall n | n in w ensures Branches(w, root, n) { SplitBranches(v, root, node, child, i, n); }
    forall c | c in w && c != root ensures HasParent(w, c) {
      if c == child {
        assert child in w[node].children;
      } else {
        var q := Parent(v, root, c);
        assert if q == node then c in w[child].children else c in w[q].children;
      }
    }
  }

  lemma SplitBranches(v: View, root: RadixNode, node: RadixNode, child: RadixNode, i: nat, n: RadixNode)
    requires Shape(v, root) && node in v && node != root && child !in v
    requires 0 < i < |v[node].path| <= |v[node].full|
    requires n in Split(v, node, child, i)
    ensures Branches(Split(v, node, child, i), root, n)
  {
    var w := Split(v, node, child, i);
    PathInFull(v, root, node);
    if n == node {
      assert w[child].full == w[node].full + w[child].path;
    } else {
      var o := if n == child then node else n;
      assert Branches(v, root, o) && w[n].children == v[o].children && w[n].full == v[o].full;
      forall k | 0 <= k < |w[n].children|
        ensures IsChild(w, root, n, w[n].children[k]) && First(w, w[n].children[k]) == First(v, w[n].children[k])
      {
        assert IsChild(v, root, o, v[o].children[k]);
      }
    }
  }

  // Every full path of v is one of w's.
  ghost predicate KeepsPaths(v: View, w: View) { forall n :: n in v ==> HasNode(w, v[n].full) }

  lemma StillPresent(v: View, w: View, log: seq<Entry>)
    requires AllPresent(v, log) && KeepsPaths(v, w)
    ensures AllPresent(w, log)
  {
    forall i | 0 <= i < |log| ensures HasNode(w, log[i].word) {
      assert HasNode(v, log[i].word);
      var n: RadixNode :| n in v && v[n].full == log[i].word;
      assert HasNode(w, v[n].full);
    }
  }

  // Splitting a node whose full path the word leaves inside the edge keeps everything but the fork.
  lemma SplitKeeps(v: View, root: RadixNode, log: seq<Entry>, e: Entry, done: int, node: RadixNode, child: RadixNode,
                   i: nat)
    requires Walking(v, root, log, e, done, root) && node in v && node != root && child !in v
    requires 0 < i < |v[node].path| <= |v[node].full|
    requires done == |v[node].full| - |v[node].path| && !(v[node].full <= e.word)
    ensures Walking(Split(v, node, child, i), root, log, e, done, node)
  {
    hide Shape, Sum, Count, Inserted, AllPresent, HasNode;
    var w := Split(v, node, child, i);
    SplitShape(v, root, node, child, i);
    EdgeWords(v, root, log, node, w[node].full);
    forall n | n in v ensures HasNode(w, v[n].full) {
      HasThis(w, if n == node then child else n);
    }
    StillPresent(v, w, log);
  }

  lemma HasThis(v: View, n: RadixNode)
    requires n in v
    ensures HasNode(v, v[n].full)
  {}

  // The walk passes a node on the word's way.
  lemma BumpKeeps(v: View, root: RadixNode, log: seq<Entry>, e: Entry, done: int, node: RadixNode, ex: RadixNode)
    requires Walking(v, root, log, e, done, ex) && node in v && v[node].full <= e.word
    requires done == if node == root then -1 else |v[node].full| - |v[node].path|
    ensures Walking(Bump(v, node, e.size), root, log, e, |v[node].full|, ex)
  {
    hide Sum, Count, Shape, Inserted, AllPresent, HasNode, Accounts;
    var w := Bump(v, node, e.size);
    SameLinks(v, w, root);
    PathInFull(v, root, node);
    forall n | n in v ensures Accounts(log, e, |v[node].full|, w[n]) {
      assert Accounts(log, e, done, v[n]);
      if n == node {
        BumpNode(log, e, done, v[n]);
      } else {
        OnlyThisNode(v, root, e.word, done, node, n);
        OtherNode(log, e, done, |v[node].full|, v[n]);
      }
    }
    forall n | n in v ensures HasNode(w, v[n].full) { HasThis(w, n); }
    StillPresent(v, w, log);
    forall n | n in w ensures Marked(log, w[n]) { assert Marked(log, v[n]); }
  }

  lemma BumpNode(log: seq<Entry>, e: Entry, done: int, d: Data)
    requires Accounts(log, e, done, d) && d.full <= e.word && done < |d.full|
    ensures Accounts(log, e, |d.full|, d.(total := d.total + e.size, count := d.count + 1))
  {}

  lemma OtherNode(log: seq<Entry>, e: Entry, done: int, next: int, d: Data)
    requires Accounts(log, e, done, d) && done <= next
    requires d.full <= e.word ==> |d.full| <= done || next < |d.full|
    ensures Accounts(log, e, next, d)
  {}

  // Only this node's full path ends on this stretch of the word.
  lemma OnlyThisNode(v: View, root: RadixNode, word: bytes, done: int, node: RadixNode, n: RadixNode)
    requires Shape(v, root) && node in v && n in v && n != node && v[node].full <= word
    requires done == if node == root then -1 else |v[node].full| - |v[node].path|
    ensures v[n].full <= word ==> |v[n].full| <= done || |v[node].full| < |v[n].full|
  {
    hide Branches;
    PathInFull(v, root, node);
    if v[n].full <= word && |v[n].full| <= |v[node].full| {
      assert v[n].full <= v[node].full;
      PrefixIsAncestor(v, root, n, node);
    }
  }

  // Shape depends on paths, full paths and children only.
  lemma SameLinks(v: View, w: View, root: RadixNode)
    requires Shape(v, root) && v.Keys == w.Keys
    requires forall n :: n in v ==> w[n].path == v[n].path && w[n].full == v[n].full && w[n].children == v[n].children
    ensures Shape(w, root)
  {
    forall n | n in w ensures Branches(w, root, n) {
      assert Branches(v, root, n);
      forall k | 0 <= k < |w[n].children| ensures IsChild(w, root, n, w[n].children[k]) {
        assert IsChild(v, root, n, v[n].children[k]);
      }
    }
    forall c | c in w && c != root ensures HasParent(w, c) {
      var p := Parent(v, root, c);
      assert c in w[p].children;
    }
  }

  // ------------------------------------------------------------------ finishing an insert

  lemma InsertedSnoc(log: seq<Entry>, e: Entry, x: bytes)
    ensures Inserted(log + [e], x) <==> Inserted(log, x) || x == e.word
    ensures Sum(log + [e], x) == Sum(log, x) + if x <= e.word then e.size else 0
    ensures Count(log + [e], x) == Count(log, x) + if x <= e.word then 1 else 0
  {
    var more := log + [e];
    assert more[..|log|] == log;
    if Inserted(log, x) {
      var i :| 0 <= i < |log| && log[i].word == x;
      assert more[i].word == x;
    }
    assert more[|log|] == e;
  }

  // The finished insert at one full path.
  lemma Finish(log: seq<Entry>, e: Entry, done: int, d: Data)
    requires Accounts(log, e, done, d) && (d.full <= e.word ==> |d.full| <= done)
    ensures Exact(log + [e], d)
  {
    InsertedSnoc(log, e, d.full);
  }

  lemma MarkedStill(log: seq<Entry>, e: Entry, d: Data)
    requires Marked(log, d) && d.full != e.word
    ensures Marked(log + [e], d)
  {
    InsertedSnoc(log, e, d.full);
  }

  lemma PresentSnoc(v: View, log: seq<Entry>, e: Entry)
    requires AllPresent(v, log) && HasNode(v, e.word)
    ensures AllPresent(v, log + [e])
  {}

  // The word ends at a node.
  lemma MarkKeeps(v: View, root: RadixNode, log: seq<Entry>, e: Entry, node: RadixNode)
    requires Walking(v, root, log, e, |e.word|, node) && node in v && v[node].full == e.word
    ensures Tree(Mark(v, node), root, log + [e])
  {
    hide Sum, Count, Shape, Inserted, AllPresent, HasNode, Accounts, Marked, Exact;
    var w := Mark(v, node);
    SameLinks(v, w, root);
    forall n | n in v ensures Exact(log + [e], w[n]) && Marked(log + [e], w[n]) && HasNode(w, v[n].full) {
      Finish(log, e, |e.word|, v[n]);
      HasThis(w, n);
      if n == node {
        MarkedNow(log, e, v[n]);
      } else {
        if v[n].full == e.word { SameFull(v, root, n, node); }
        MarkedStill(log, e, v[n]);
      }
    }
    StillPresent(v, w, log);
    PresentSnoc(w, log, e);
  }

  lemma MarkedNow(log: seq<Entry>, e: Entry, d: Data)
    requires d.full == e.word
    ensures Marked(log + [e], d.(end := true))
    ensures Exact(log + [e], d) ==> Exact(log + [e], d.(end := true))
  {
    InsertedSnoc(log, e, d.full);
  }

  // A full path that goes on below a node has the first byte of one of its children next.
  lemma NextByte(v: View, root: RadixNode, node: RadixNode, n: RadixNode)
    requires Shape(v, root) && node in v && n in v && v[node].full <= v[n].full && n != node
    ensures |v[n].full| > |v[node].full|
    ensures exists c :: c in v[node].children && First(v, c) == v[n].full[|v[node].full|]
  {
    var c := ThroughChild(v, root, node, n);
    assert Branches(v, root, node);
    assert First(v, c) == v[n].full[|v[node].full|];
  }

  // No child of the node starts with the word's next byte.
  predicate DeadEnd(v: View, node: RadixNode, word: bytes)
    requires node in v
  {
    v[node].full < word && forall c :: c in v[node].children ==> First(v, c) != word[|v[node].full|]
  }

  // Then no full path goes further along the word.
  lemma NothingBelow(v: View, root: RadixNode, node: RadixNode, word: bytes, n: RadixNode)
    requires Shape(v, root) && node in v && n in v && DeadEnd(v, node, word)
    ensures v[n].full <= word ==> |v[n].full| <= |v[node].full|
    ensures !(word <= v[n].full)
  {
    hide Shape, First;
    if v[n].full <= word && |v[n].full| > |v[node].full| {
      assert v[node].full <= v[n].full;
      NextByte(v, root, node, n);
    } else if word <= v[n].full {
      NextByte(v, root, node, n);
    }
  }

  lemma NoWordBelow(v: View, root: RadixNode, log: seq<Entry>, node: RadixNode, word: bytes)
    requires Shape(v, root) && AllPresent(v, log) && node in v && DeadEnd(v, node, word)
    ensures Sum(log, word) == 0 && Count(log, word) == 0
  {
    hide Sum, Count, Shape, DeadEnd;
    forall i | 0 <= i < |log| ensures !(word <= log[i].word) {
      assert HasNode(v, log[i].word);
      var n: RadixNode :| n in v && v[n].full == log[i].word;
      NothingBelow(v, root, node, word, n);
    }
    NoWords(log, word);
  }

  lemma LeafShape(v: View, root: RadixNode, node: RadixNode, child: RadixNode, rest: bytes, e: Entry)
    requires Shape(v, root) && node in v && child !in v && rest != [] && e.word == v[node].full + rest
    requires DeadEnd(v, node, e.word)
    ensures Shape(Leaf(v, node, child, rest, e), root)
  {
    hide Branches, First, DeadEnd;
    var w := Leaf(v, node, child, rest, e);
    forall n | n in w ensures Branches(w, root, n) { LeafBranches(v, root, node, child, rest, e, n); }
    forall c | c in w && c != root ensures HasParent(w, c) {
      if c == child {
        assert child in w[node].children;
      } else {
        var p := Parent(v, root, c);
        assert c in w[p].children;
      }
    }
  }

  lemma LeafBranches(v: View, root: RadixNode, node: RadixNode, child: RadixNode, rest: bytes, e: Entry, n: RadixNode)
    requires Shape(v, root) && node in v && child !in v && rest != [] && e.word == v[node].full + rest
    requires DeadEnd(v, node, e.word) && n in Leaf(v, node, child, rest, e)
    ensures Branches(Leaf(v, node, child, rest, e), root, n)
  {
    hide HasParent;
    var w := Leaf(v, node, child, rest, e);
    if n != child {
      assert Branches(v, root, n);
      var cs := v[n].children;
      forall k | 0 <= k < |cs| ensures cs[k] in v && IsChild(w, root, n, cs[k]) && First(w, cs[k]) == First(v, cs[k]) {
        assert IsChild(v, root, n, cs[k]);
      }
      if n == node {
        assert forall k :: 0 <= k < |cs| ==> cs[k] in v[node].children && First(w, cs[k]) != First(w, child);
      }
    }
  }

  // The rest of the word becomes a new leaf.
  lemma LeafKeeps(v: View, root: RadixNode, log: seq<Entry>, e: Entry, node: RadixNode, child: RadixNode, rest: bytes)
    requires node in v && child !in v && Walking(v, root, log, e, |v[node].full|, node)
    requires rest != [] && e.word == v[node].full + rest && DeadEnd(v, node, e.word)
    requires node == root || v[node].end || v[node].children != []
    ensures Tree(Leaf(v, node, child, rest, e), root, log + [e])
  {
    hide Sum, Count, Shape, Inserted, AllPresent, HasNode, Accounts, Marked, Exact, First;
    var w := Leaf(v, node, child, rest, e);
    LeafShape(v, root, node, child, rest, e);
    NoWordBelow(v, root, log, node, e.word);
    LeafData(log, e, rest);
    forall n | n in v ensures Exact(log + [e], w[n]) && Marked(log + [e], w[n]) && HasNode(w, v[n].full) {
      NothingBelow(v, root, node, e.word, n);
      Finish(log, e, |v[node].full|, v[n]);
      MarkedStill(log, e, v[n]);
      MoreChildren(log + [e], v[n], w[n].children);
      HasThis(w, n);
    }
    StillPresent(v, w, log);
    HasThis(w, child);
    PresentSnoc(w, log, e);
  }

  lemma LeafData(log: seq<Entry>, e: Entry, rest: bytes)
    requires Sum(log, e.word) == 0 && Count(log, e.word) == 0
    ensures var d := Data(rest, true, [], e.size, 1, e.word); Exact(log + [e], d) && Marked(log + [e], d)
  {
    InsertedSnoc(log, e, e.word);
  }

  lemma MoreChildren(log: seq<Entry>, d: Data, children: seq<RadixNode>)
    ensures Exact(log, d) ==> Exact(log, d.(children := children))
    ensures Marked(log, d) ==> Marked(log, d.(children := children))
  {}

  // ------------------------------------------------------------------ which prefixes are nodes

  // Two inserted words part right after p.
  ghost predicate Parting(log: seq<Entry>, p: bytes) {
    exists i, j :: 0 <= i < |log| && 0 <= j < |log| && p < log[i].word && p < log[j].word
      && log[i].word[|p|] != log[j].word[|p|]
  }

  ghost function Longer(v: View, n: RadixNode): set<RadixNode>
    requires n in v
  {
    set m | m in v && |v[m].full| > |v[n].full|
  }

  // Every node but a childless root lies on the way to an inserted word.
  lemma {:induction false} WordBelow(v: View, root: RadixNode, log: seq<Entry>, n: RadixNode) returns (i: nat)
    requires Tree(v, root, log) && n in v && n != root
    ensures i < |log| && v[n].full <= log[i].word
    decreases Longer(v, n)
  {
    hide Exact, AllPresent, HasParent;
    assert Branches(v, root, n) && Marked(log, v[n]);
    if v[n].end {
      i :| 0 <= i < |log| && log[i].word == v[n].full;
    } else {
      var c := v[n].children[0];
      assert IsChild(v, root, n, c);
      assert c in Longer(v, n) && c !in Longer(v, c);
      i := WordBelow(v, root, log, c);
    }
  }

  // The node whose edge or full path a prefix of e's full path ends in.
  lemma {:induction false} Covering(v: View, root: RadixNode, e: RadixNode, p: bytes) returns (n: RadixNode)
    requires Shape(v, root) && e in v && p <= v[e].full
    ensures n in v && p <= v[n].full <= v[e].full && (n == root || |v[n].full| - |v[n].path| < |p|)
    decreases |v[e].full|
  {
    hide Branches, HasParent;
    n := e;
    if e != root {
      var q := Parent(v, root, e);
      if p <= v[q].full { n := Covering(v, root, q, p); }
    }
  }

  lemma PartingHasNode(v: View, root: RadixNode, log: seq<Entry>, p: bytes)
    requires Tree(v, root, log) && Parting(log, p)
    ensures HasNode(v, p)
  {
    hide Branches, HasParent, Exact, Marked, ForksBut;
    var i, j :| 0 <= i < |log| && 0 <= j < |log| && p < log[i].word && p < log[j].word
      && log[i].word[|p|] != log[j].word[|p|];
    assert HasNode(v, log[i].word) && HasNode(v, log[j].word);
    var e: RadixNode :| e in v && v[e].full == log[i].word;
    var f: RadixNode :| f in v && v[f].full == log[j].word;
    var n := Covering(v, root, e, p);
    if |v[n].full| > |p| {
      InsideEdge(v, root, n, p, f);
    }
    assert v[n].full == p;
  }

  lemma NodeIsParting(v: View, root: RadixNode, log: seq<Entry>, n: RadixNode)
    requires Tree(v, root, log) && n in v && n != root && !v[n].end
    ensures Parting(log, v[n].full)
  {
    hide Exact, HasParent, Ends;
    assert Branches(v, root, n);
    var c, d := v[n].children[0], v[n].children[1];
    assert IsChild(v, root, n, c) && IsChild(v, root, n, d) && First(v, c) != First(v, d);
    var i := WordBelow(v, root, log, c);
    var j := WordBelow(v, root, log, d);
    assert log[i].word[|v[n].full|] == v[c].path[0] && log[j].word[|v[n].full|] == v[d].path[0];
  }

  // The order of the inserts does not matter: the nodes are the empty prefix, the inserted words
  // and the prefixes after which two of them part.
  lemma NodesAre(v: View, root: RadixNode, log: seq<Entry>, p: bytes)
    requires Tree(v, root, log)
    ensures HasNode(v, p) <==> p == [] || Inserted(log, p) || Parting(log, p)
  {
    hide Exact, ForksBut, Parting, HasParent, Branches;
    if HasNode(v, p) {
      var n: RadixNode :| n in v && v[n].full == p;
      assert Marked(log, v[n]);
      if n != root && !v[n].end { NodeIsParting(v, root, log, n); }
    }
    if p == [] { HasThis(v, root); }
    if Inserted(log, p) {
      var i :| 0 <= i < |log| && log[i].word == p;
      assert HasNode(v, log[i].word);
    }
    if Parting(log, p) { PartingHasNode(v, root, log, p); }
  }
}
