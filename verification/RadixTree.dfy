/** The radix tree of helper/radix.go: a heap of nodes that insert splits and extends in place while
    it keeps running totals. */
module RadixTrees {
  import opened Bytes
  import opened Radix

  method CommonPrefixLen(a: bytes, b: bytes) returns (i: nat)
    ensures i <= |a| && i <= |b| && a[..i] == b[..i]
    ensures i < |a| && i < |b| ==> a[i] != b[i]
  {
    i := 0;
    while i < |a| && i < |b| && a[i] == b[i]
      invariant i <= |a| && i <= |b| && a[..i] == b[..i]
    {
      i := i + 1;
    }
  }

  // The walk stands before node with the rest of the word to place: the node's first byte fits, and
  // done bytes are accounted for.
  ghost predicate Before(v: View, root: RadixNode, word: bytes, node: RadixNode, rest: bytes, done: int) {
    && node in v && |v[node].path| <= |v[node].full|
    && var base := |v[node].full| - |v[node].path|;
    && base <= |word| && rest == word[base..] && v[node].full == word[..base] + v[node].path
    && if node == root then done == -1 else done == base && rest != [] && First(v, node) == rest[0]
  }

  // Where the common prefix of the rest and the node's path ends.
  lemma PrefixEnds(word: bytes, base: nat, path: bytes, i: nat)
    requires base <= |word| && i <= |path| && i <= |word| - base && word[base..][..i] == path[..i]
    requires i < |path| && i < |word| - base ==> word[base + i] != path[i]
    ensures var full := word[..base] + path;
      && (i == |path| <==> full <= word)
      && full[..base + i] == word[..base + i]
      && word == word[..base + i] + word[base..][i..]
  {
    var full := word[..base] + path;
    assert forall k :: 0 <= k < i ==> word[base + k] == word[base..][..i][k] == path[k];
    assert i < |path| ==> full[base + i] == path[i];
  }

  // What one turn of the walk has established when it has counted the word at a node.
  ghost predicate AtNode(w: View, root: RadixNode, log: seq<Entry>, e: Entry, node: RadixNode, rest: bytes,
                         ex: RadixNode) {
    node in w && Walking(w, root, log, e, |w[node].full|, ex) && e.word == w[node].full + rest
  }

  lemma ArriveWhole(v: View, root: RadixNode, log: seq<Entry>, e: Entry, done: int, node: RadixNode, rest: bytes)
    requires Walking(v, root, log, e, done, root) && Before(v, root, e.word, node, rest, done)
    requires v[node].path <= rest
    ensures AtNode(Bump(v, node, e.size), root, log, e, node, rest[|v[node].path|..], root)
    ensures done < |Bump(v, node, e.size)[node].full| && (node != root ==> v[node].path != [])
  {
    hide Walking, Shape, Bump, First;
    var base, i := |v[node].full| - |v[node].path|, |v[node].path|;
    RootPath(v, root, log, e, done, root);
    BeforeByte(v, root, e.word, node, rest, done);
    PrefixEnds(e.word, base, v[node].path, i);
    BumpKeeps(v, root, log, e, done, node, root);
    BumpLinks(v, node, e.size, node);
    assert v[node].full == e.word[..base + i];
  }

  lemma BeforeByte(v: View, root: RadixNode, word: bytes, node: RadixNode, rest: bytes, done: int)
    requires Before(v, root, word, node, rest, done)
    ensures node != root ==> v[node].path != [] && rest != [] && rest[0] == v[node].path[0]
  {}

  // The word leaves the edge above the node after i bytes: what the split leaves to repair is the
  // node's missing fork.
  lemma ArriveSplit(v: View, root: RadixNode, log: seq<Entry>, e: Entry, done: int, node: RadixNode, rest: bytes,
                    child: RadixNode, i: nat)
    requires Walking(v, root, log, e, done, root) && Before(v, root, e.word, node, rest, done) && child !in v
    requires i <= |rest| && i < |v[node].path| && rest[..i] == v[node].path[..i]
    requires i < |rest| ==> rest[i] != v[node].path[i]
    ensures i > 0 && node != root
    ensures var w := Bump(Split(v, node, child, i), node, e.size);
      && AtNode(w, root, log, e, node, rest[i..], node) && done < |w[node].full|
      && w[node].children == [child] && First(w, child) == v[node].path[i]
  {
    hide Walking, Shape, Split, Bump, First;
    var base := |v[node].full| - |v[node].path|;
    RootPath(v, root, log, e, done, root);
    BeforeByte(v, root, e.word, node, rest, done);
    assert i > 0;
    PrefixEnds(e.word, base, v[node].path, i);
    var u := Split(v, node, child, i);
    SplitKeeps(v, root, log, e, done, node, child, i);
    SplitNode(v, node, child, i);
    assert u[node].full == e.word[..base + i];
    BumpKeeps(u, root, log, e, done, node, node);
    BumpLinks(u, node, e.size, child);
  }

  lemma RootPath(v: View, root: RadixNode, log: seq<Entry>, e: Entry, done: int, ex: RadixNode)
    requires Walking(v, root, log, e, done, ex)
    ensures root in v && v[root].path == [] && v[root].full == []
  {}

  lemma SplitNode(v: View, node: RadixNode, child: RadixNode, i: nat)
    requires node in v && child !in v && i < |v[node].path| <= |v[node].full|
    ensures var w := Split(v, node, child, i);
      && w.Keys == v.Keys + {child}
      && w[node].path == v[node].path[..i] && w[node].full == v[node].full[..|v[node].full| - (|v[node].path| - i)]
      && w[node].children == [child] && First(w, child) == v[node].path[i]
  {}

  lemma BumpLinks(v: View, node: RadixNode, size: int, c: RadixNode)
    requires node in v && c in v
    ensures var w := Bump(v, node, size);
      && w.Keys == v.Keys && w[node].full == v[node].full && w[node].path == v[node].path
      && w[node].children == v[node].children && First(w, c) == First(v, c)
  {}

  // The word is used up.
  lemma EndHere(w: View, root: RadixNode, log: seq<Entry>, e: Entry, node: RadixNode, ex: RadixNode)
    requires AtNode(w, root, log, e, node, [], ex) && ex in {root, node}
    ensures Tree(Mark(w, node), root, log + [e])
  {
    hide Shape, Ends, Totals, Tree;
    assert w[node].full + [] == w[node].full;
    MarkKeeps(w, root, log, e, node);
  }

  // A child takes the next byte.
  lemma GoOn(w: View, root: RadixNode, log: seq<Entry>, e: Entry, node: RadixNode, rest: bytes, next: RadixNode)
    requires AtNode(w, root, log, e, node, rest, root) && rest != []
    requires next in w[node].children && First(w, next) == rest[0]
    ensures Walking(w, root, log, e, |w[node].full|, root) && Before(w, root, e.word, next, rest, |w[node].full|)
  {
    hide ForksBut, Ends, Totals;
    assert Branches(w, root, node);
    assert e.word[..|w[node].full|] == w[node].full;
  }

  // No child takes it.
  lemma NewLeaf(w: View, root: RadixNode, log: seq<Entry>, e: Entry, node: RadixNode, rest: bytes, child: RadixNode,
                ex: RadixNode)
    requires AtNode(w, root, log, e, node, rest, ex) && rest != [] && child !in w
    requires forall c :: c in w[node].children ==> First(w, c) != rest[0]
    requires ex == root || (ex == node && w[node].children != [])
    ensures Tree(Leaf(w, node, child, rest, e), root, log + [e])
  {
    hide Shape, Ends, Totals, Tree, First, Leaf;
    assert w[node].full < e.word && e.word[|w[node].full|] == rest[0];
    LeafKeeps(w, root, log, e, node, child, rest);
  }

  class RadixTree {
    const root: RadixNode
    ghost var nodes: set<RadixNode>
    ghost var log: seq<Entry>          // what has been inserted, in order

    ghost function Snapshot(): View
      reads this`nodes, nodes
    {
      map n | n in nodes :: n.Fields()
    }

    ghost predicate Valid()
      reads this`nodes, this`log, nodes
    {
      Tree(Snapshot(), root, log)
    }

    constructor ()
      ensures Valid() && log == [] && fresh(nodes)
    {
      root := new RadixNode([], false, [], 0, 0, []);
      new;
      nodes, log := {root}, [];
    }

    method SplitNode(node: RadixNode, i: nat) returns (ghost child: RadixNode)
      requires node in nodes && i <= |node.path| <= |node.fullpath|
      modifies this`nodes, node
      ensures fresh(child) && nodes == old(nodes) + {child}
      ensures Snapshot() == Split(old(Snapshot()), node, child, i)
    {
      var newChild := new RadixNode(node.path[i..], node.end, node.children, node.totalSize, node.keyCount,
        node.fullpath);
      node.children := [newChild];
      node.fullpath := node.fullpath[..|node.fullpath| - (|node.path| - i)];
      node.path := node.path[..i];
      node.end := false;
      nodes := nodes + {newChild};
      child := newChild;
    }

    method AddSize(node: RadixNode, size: int)
      requires node in nodes
      modifies node
      ensures Snapshot() == Bump(old(Snapshot()), node, size)
    {
      node.totalSize := node.totalSize + size;
      node.keyCount := node.keyCount + 1;
    }

    method SetEnd(node: RadixNode)
      requires node in nodes
      modifies node
      ensures Snapshot() == Mark(old(Snapshot()), node)
    {
      node.end := true;
    }

    method AppendChild(node: RadixNode, ghost e: Entry, rest: bytes, fullword: bytes, size: int)
        returns (ghost child: RadixNode)
      requires node in nodes && e == Entry(fullword, size)
      modifies this`nodes, node
      ensures fresh(child) && nodes == old(nodes) + {child}
      ensures Snapshot() == Leaf(old(Snapshot()), node, child, rest, e)
    {
      var leaf := new RadixNode(rest, true, [], size, 1, fullword);
      node.children := node.children + [leaf];
      nodes := nodes + {leaf};
      child := leaf;
    }

    // The child whose path starts with c.
    method FindChild(node: RadixNode, c: byte) returns (found: bool, next: RadixNode)
      requires Shape(Snapshot(), root) && node in nodes
      ensures found ==> next in node.children && First(Snapshot(), next) == c
      ensures !found ==> forall k :: k in node.children ==> First(Snapshot(), k) != c
    {
      assert Branches(Snapshot(), root, node);
      next := node;
      var i := 0;
      while i < |node.children|
        invariant 0 <= i <= |node.children|
        invariant forall k :: 0 <= k < i ==> First(Snapshot(), node.children[k]) != c
      {
        assert IsChild(Snapshot(), root, node, node.children[i]);
        if node.children[i].path[0] == c { return true, node.children[i]; }
        i := i + 1;
      }
      found := false;
    }

    // No child of node takes the next byte.
    ghost predicate AvoidsNext(v: View, node: RadixNode, rest: bytes)
      requires node in v
    {
      rest != [] ==> forall c :: c in v[node].children ==> First(v, c) != rest[0]
    }

    // The first half of a turn: split the node if the word leaves it inside its path, and count the
    // word there. i bytes of the rest are matched.
    method Visit(ghost e: Entry, ghost done: int, node: RadixNode, rest: bytes, size: int)
        returns (i: nat, ghost ex: RadixNode)
      requires Walking(Snapshot(), root, log, e, done, root) && Before(Snapshot(), root, e.word, node, rest, done)
      requires node in nodes && |node.path| <= |node.fullpath| && size == e.size
      modifies this`nodes, node
      ensures i <= |rest| && AtNode(Snapshot(), root, log, e, node, rest[i..], ex) && done < |node.fullpath|
      ensures old(nodes) <= nodes && fresh(nodes - old(nodes))
      ensures ex == root || (ex == node && node.children != [] && AvoidsNext(Snapshot(), node, rest[i..]))
    {
      hide Walking, Before, First, Split, Bump, AtNode;
      ghost var v := Snapshot();
      i := CommonPrefixLen(rest, node.path);
      ex := root;
      if i < |node.path| {
        ghost var child := SplitNode(node, i);
        ArriveSplit(v, root, log, e, done, node, rest, child, i);
        ex := node;
      } else {
        ArriveWhole(v, root, log, e, done, node, rest);
      }
      if i > 0 || node == root {
        AddSize(node, size);
      }
    }

    // The word is used up at node.
    method EndAt(ghost e: Entry, node: RadixNode, ghost ex: RadixNode)
      requires AtNode(Snapshot(), root, log, e, node, [], ex) && ex in {root, node} && node in nodes
      modifies this`log, node
      ensures Valid() && log == old(log) + [e]
    {
      hide Tree, Mark, AtNode;
      EndHere(Snapshot(), root, log, e, node, ex);
      SetEnd(node);
      log := log + [e];
    }

    // The rest of the word becomes a child of node.
    method Grow(ghost e: Entry, node: RadixNode, rest: bytes, fullword: bytes, size: int, ghost ex: RadixNode)
      requires AtNode(Snapshot(), root, log, e, node, rest, ex) && rest != [] && node in nodes
        && e == Entry(fullword, size)
      requires forall c :: c in node.children ==> First(Snapshot(), c) != rest[0]
      requires ex == root || (ex == node && node.children != [])
      modifies this`nodes, this`log, node
      ensures Valid() && log == old(log) + [e] && old(nodes) <= nodes && fresh(nodes - old(nodes))
    {
      hide Tree, Leaf, AtNode, First;
      ghost var w := Snapshot();
      var leaf := AppendChild(node, e, rest, fullword, size);
      NewLeaf(w, root, log, e, node, rest, leaf, ex);
      log := log + [e];
    }

    // insert: afterwards the tree is that of the log with this entry added.
    method Insert(word: bytes, size: int)
      requires Valid()
      modifies this`nodes, this`log, nodes
      ensures Valid() && log == old(log) + [Entry(word, size)]
      ensures old(nodes) <= nodes && fresh(nodes - old(nodes))
    {
      hide Walking, Tree, Shape, Before, First, AtNode, Snapshot;
      ghost var e := Entry(word, size);
      var fullword, rest, node := word, word, root;
      ghost var done := -1;
      Start(Snapshot(), root, log, e);
      while true
        invariant old(nodes) <= nodes && fresh(nodes - old(nodes)) && log == old(log)
        invariant Walking(Snapshot(), root, log, e, done, root)
        invariant Before(Snapshot(), root, word, node, rest, done)
        decreases |word| - done
      {
        BeforeNode(word, node, rest, done);
        ghost var ex;
        var i;
        i, ex := Visit(e, done, node, rest, size);
        rest := rest[i..];
        AtNodeIn(Snapshot(), root, log, e, node, rest, ex);
        if rest == [] {
          EndAt(e, node, ex);
          return;
        }
        var found, next := FindChild(node, rest[0]);
        if !found {
          Grow(e, node, rest, fullword, size, ex);
          return;
        }
        Descend(e, node, rest, next, ex);
        done, node := |node.fullpath|, next;
      }
    }

    // The walk moves on to a child, which no split node has for the next byte.
    lemma Descend(e: Entry, node: RadixNode, rest: bytes, next: RadixNode, ex: RadixNode)
      requires AtNode(Snapshot(), root, log, e, node, rest, ex) && node in nodes && rest != []
      requires ex == root || AvoidsNext(Snapshot(), node, rest)
      requires next in node.children && First(Snapshot(), next) == rest[0]
      ensures Walking(Snapshot(), root, log, e, |node.fullpath|, root)
      ensures Before(Snapshot(), root, e.word, next, rest, |node.fullpath|)
    {
      hide AtNode, Walking, Before, First;
      GoOn(Snapshot(), root, log, e, node, rest, next);
    }

    lemma BeforeNode(word: bytes, node: RadixNode, rest: bytes, done: int)
      requires Before(Snapshot(), root, word, node, rest, done)
      ensures node in nodes && |node.path| <= |node.fullpath| && done < |word|
    {}
  }

  // Before the first turn nothing is accounted for.
  lemma Start(v: View, root: RadixNode, log: seq<Entry>, e: Entry)
    requires Tree(v, root, log)
    ensures Walking(v, root, log, e, -1, root) && Before(v, root, e.word, root, e.word, -1)
  {
    hide Branches, HasParent, Sum, Count;
    assert e.word[..0] + [] == [] && e.word[0..] == e.word;
  }

  lemma AtNodeIn(w: View, root: RadixNode, log: seq<Entry>, e: Entry, node: RadixNode, rest: bytes, ex: RadixNode)
    requires AtNode(w, root, log, e, node, rest, ex)
    ensures node in w && Shape(w, root) && |w[node].full| + |rest| == |e.word|
  {}
}
