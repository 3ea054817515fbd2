/** The bounded list of helper/toplist.go: the largest items seen so far, the later of two equal ones
    first. */
module TopLists {

  // Something with a GetSize.
  datatype Sized<T> = Sized(item: T, size: int)

  // ------------------------------------------------------------------ the ranking of a run of adds

  // The a-th added item ranks ahead of the b-th: larger, or equal and added later.
  predicate Ahead<T>(log: seq<Sized<T>>, a: nat, b: nat)
    requires a < |log| && b < |log|
  {
    log[a].size > log[b].size || (log[a].size == log[b].size && a > b)
  }

  predicate InRange<T>(log: seq<Sized<T>>, idx: seq<nat>) { forall i :: 0 <= i < |idx| ==> idx[i] < |log| }

  // idx lists, in order of rank, items that rank ahead of all others.
  predicate Selects<T>(log: seq<Sized<T>>, idx: seq<nat>) {
    && InRange(log, idx)
    && (forall i, j :: 0 <= i < j < |idx| ==> Ahead(log, idx[i], idx[j]))
    && forall k: nat :: k < |log| && k !in idx ==> Behind(log, idx, k)
  }

  predicate Behind<T>(log: seq<Sized<T>>, idx: seq<nat>, k: nat)
    requires InRange(log, idx) && k < |log|
  {
    forall i :: 0 <= i < |idx| ==> Ahead(log, idx[i], k)
  }

  function Picked<T>(log: seq<Sized<T>>, idx: seq<nat>): (r: seq<Sized<T>>)
    requires InRange(log, idx)
    ensures |r| == |idx|
  {
    seq(|idx|, i requires 0 <= i < |idx| => log[idx[i]])
  }

  function Min(a: nat, b: nat): nat { if a <= b then a else b }

  // list holds the first n items of the ranking, in order.
  ghost predicate IsTop<T>(log: seq<Sized<T>>, n: nat, list: seq<Sized<T>>) {
    exists idx: seq<nat> :: Selects(log, idx) && |idx| == Min(n, |log|) && list == Picked(log, idx)
  }

  // The ranking is strict, so the selection of a given length is unique.
  lemma {:induction false} SelectsUnique<T>(log: seq<Sized<T>>, a: seq<nat>, b: seq<nat>, k: nat)
    requires Selects(log, a) && Selects(log, b) && |a| == |b| && k <= |a|
    ensures a[..k] == b[..k]
  {
    if k > 0 {
      var i := k - 1;
      SelectsUnique(log, a, b, i);
      assert forall j :: 0 <= j < i ==> a[j] == a[..i][j] == b[..i][j] == b[j];
      if a[i] != b[i] {
        if Ahead(log, a[i], b[i]) {
          NotAhead(log, b, i, a[i]);
        } else {
          NotAhead(log, a, i, b[i]);
        }
      }
    }
  }

  // What ranks ahead of the i-th selected item is one of those before it.
  lemma NotAhead<T>(log: seq<Sized<T>>, idx: seq<nat>, i: nat, k: nat)
    requires Selects(log, idx) && i < |idx| && k < |log| && Ahead(log, k, idx[i])
    ensures exists j :: 0 <= j < i && idx[j] == k
  {
    assert k !in idx ==> Behind(log, idx, k);
    var j :| 0 <= j < |idx| && idx[j] == k;
  }

  // ------------------------------------------------------------------ one add

  // The positions after adding one more item before position at.
  function Spliced(idx: seq<nat>, at: nat, k: nat): seq<nat>
    requires at <= |idx|
  {
    idx[..at] + [k] + idx[at..]
  }

  // at separates the larger items from those the new one ranks ahead of.
  predicate Separates<T>(log: seq<Sized<T>>, idx: seq<nat>, at: nat, x: Sized<T>)
    requires InRange(log, idx)
  {
    && at <= |idx|
    && (forall i :: 0 <= i < at ==> log[idx[i]].size > x.size)
    && forall i :: at <= i < |idx| ==> log[idx[i]].size <= x.size
  }

  lemma SplicedSelects<T>(log: seq<Sized<T>>, idx: seq<nat>, at: nat, x: Sized<T>)
    requires Selects(log, idx) && Separates(log, idx, at, x)
    requires at == |idx| ==> |idx| == |log|
    ensures Selects(log + [x], Spliced(idx, at, |log|))
  {
    hide Ahead, Behind;
    var more, next := log + [x], Spliced(idx, at, |log|);
    SplicedAt(idx, at, |log|);
    forall i, j | 0 <= i < j < |next| ensures Ahead(more, next[i], next[j]) { SplicedOrder(log, idx, at, x, i, j); }
    forall k: nat | k < |more| && k !in next ensures Behind(more, next, k) { SplicedBehind(log, idx, at, x, k); }
  }

  lemma SplicedAt(idx: seq<nat>, at: nat, k: nat)
    requires at <= |idx|
    ensures var next := Spliced(idx, at, k);
      && |next| == |idx| + 1
      && forall i :: 0 <= i < |next| ==> next[i] == if i < at then idx[i] else if i == at then k else idx[i - 1]
  {}

  lemma SplicedOrder<T>(log: seq<Sized<T>>, idx: seq<nat>, at: nat, x: Sized<T>, i: nat, j: nat)
    requires Selects(log, idx) && Separates(log, idx, at, x) && i < j <= |idx|
    ensures var next := Spliced(idx, at, |log|);
      |next| == |idx| + 1 && next[i] <= |log| && next[j] <= |log| && Ahead(log + [x], next[i], next[j])
  {
    SplicedAt(idx, at, |log|);
  }

  lemma SplicedBehind<T>(log: seq<Sized<T>>, idx: seq<nat>, at: nat, x: Sized<T>, k: nat)
    requires Selects(log, idx) && Separates(log, idx, at, x)
    requires at == |idx| ==> |idx| == |log|
    requires k <= |log| && k !in Spliced(idx, at, |log|)
    ensures InRange(log + [x], Spliced(idx, at, |log|)) && Behind(log + [x], Spliced(idx, at, |log|), k)
  {
    var next := Spliced(idx, at, |log|);
    SplicedAt(idx, at, |log|);
    assert next[at] == |log|;
    assert k !in idx by {
      assert forall i :: 0 <= i < |idx| ==> idx[i] == next[if i < at then i else i + 1];
    }
    assert Behind(log, idx, k);
    if at == |idx| {
      AllSelected(log, idx, k);
    } else {
      assert Ahead(log, idx[at], k);
      forall i | 0 <= i < |next| ensures Ahead(log + [x], next[i], k) {
        if i != at { assert Ahead(log, idx[if i < at then i else i - 1], k); }
      }
    }
  }

  // A selection as long as the log leaves nothing out.
  lemma AllSelected<T>(log: seq<Sized<T>>, idx: seq<nat>, k: nat)
    requires Selects(log, idx) && |idx| == |log| && k < |log|
    ensures k in idx
  {
    var chosen := set i | 0 <= i < |idx| :: idx[i];
    ChosenSize(log, idx, |idx|);
    if k !in idx {
      assert chosen <= UpTo(|log|) - {k};
      SubsetSize(chosen, UpTo(|log|) - {k});
    }
  }

  ghost function UpTo(n: nat): (s: set<nat>)
    ensures |s| == n && forall k: nat :: k in s <==> k < n
  {
    if n == 0 then {} else UpTo(n - 1) + {n - 1}
  }

  lemma {:induction false} ChosenSize<T>(log: seq<Sized<T>>, idx: seq<nat>, n: nat)
    requires Selects(log, idx) && n <= |idx|
    ensures |set i | 0 <= i < n :: idx[i]| == n
  {
    if n > 0 {
      ChosenSize(log, idx, n - 1);
      assert (set i | 0 <= i < n :: idx[i]) == (set i | 0 <= i < n - 1 :: idx[i]) + {idx[n - 1]};
      assert forall i :: 0 <= i < n - 1 ==> Ahead(log, idx[i], idx[n - 1]);
    }
  }

  lemma {:induction false} SubsetSize(a: set<nat>, b: set<nat>)
    requires a <= b
    ensures |a| <= |b|
  {
    if a != {} {
      var x :| x in a;
      SubsetSize(a - {x}, b - {x});
    }
  }

  // A shorter selection is the beginning of a longer one.
  lemma SelectsPrefix<T>(log: seq<Sized<T>>, idx: seq<nat>, n: nat)
    requires Selects(log, idx) && n <= |idx|
    ensures Selects(log, idx[..n])
  {
    var top := idx[..n];
    assert forall i :: 0 <= i < n ==> top[i] == idx[i];
    forall k: nat | k < |log| && k !in top ensures Behind(log, top, k) {
      if k in idx {
        var j :| 0 <= j < |idx| && idx[j] == k;
      } else {
        assert Behind(log, idx, k);
      }
    }
  }

  // An item behind all of a full list changes nothing.
  lemma DroppedSelects<T>(log: seq<Sized<T>>, idx: seq<nat>, x: Sized<T>)
    requires Selects(log, idx) && Separates(log, idx, |idx|, x)
    ensures Selects(log + [x], idx)
  {
    var more := log + [x];
    forall k: nat | k < |more| && k !in idx ensures Behind(more, idx, k) {
      if k < |log| { assert Behind(log, idx, k); }
    }
  }

  // The positions after an add of at most n.
  ghost function AddedIdx<T>(log: seq<Sized<T>>, idx: seq<nat>, at: nat, n: nat): seq<nat>
    requires at <= |idx|
  {
    var next := Spliced(idx, at, |log|);
    if |next| > n then next[..n] else next
  }

  lemma AddSelects<T>(log: seq<Sized<T>>, idx: seq<nat>, at: nat, x: Sized<T>, n: nat)
    requires Selects(log, idx) && |idx| == Min(n, |log|) && Separates(log, idx, at, x)
    ensures var next, p := AddedIdx(log, idx, at, n), Picked(log, idx)[..at] + [x] + Picked(log, idx)[at..];
      && Selects(log + [x], next) && |next| == Min(n, |log| + 1)
      && Picked(log + [x], next) == if |p| > n then p[..n] else p
  {
    hide Ahead, Behind, Selects, Picked;
    SelectsInRange(log, idx);
    var next := Spliced(idx, at, |log|);
    SplicedAt(idx, at, |log|);
    PickedSpliced(log, idx, at, x);
    if at == |idx| && |idx| < |log| {
      DroppedSelects(log, idx, x);
      PickedPrefix(log + [x], next, n);
      assert next[..n] == idx;
    } else {
      SplicedSelects(log, idx, at, x);
      if |next| > n {
        SelectsPrefix(log + [x], next, n);
        PickedPrefix(log + [x], next, n);
      }
    }
  }

  lemma PickedSpliced<T>(log: seq<Sized<T>>, idx: seq<nat>, at: nat, x: Sized<T>)
    requires InRange(log, idx) && at <= |idx|
    ensures InRange(log + [x], Spliced(idx, at, |log|))
    ensures Picked(log + [x], Spliced(idx, at, |log|)) == Picked(log, idx)[..at] + [x] + Picked(log, idx)[at..]
  {
    SplicedAt(idx, at, |log|);
  }

  lemma PickedPrefix<T>(log: seq<Sized<T>>, idx: seq<nat>, n: nat)
    requires InRange(log, idx) && n <= |idx|
    ensures InRange(log, idx[..n]) && Picked(log, idx[..n]) == Picked(log, idx)[..n]
  {}

  lemma SelectsInRange<T>(log: seq<Sized<T>>, idx: seq<nat>)
    requires Selects(log, idx)
    ensures InRange(log, idx)
  {}

  // ------------------------------------------------------------------ sort, then take

  lemma {:induction false} RankingExists<T>(log: seq<Sized<T>>) returns (idx: seq<nat>)
    ensures Selects(log, idx) && |idx| == |log|
  {
    if log == [] {
      idx := [];
    } else {
      var init, x := log[..|log| - 1], log[|log| - 1];
      var before := RankingExists(init);
      var at := Place(init, before, x, |before|);
      SplicedSelects(init, before, at, x);
      assert init + [x] == log;
      idx := Spliced(before, at, |init|);
    }
  }

  // Sizes fall along a selection, so there is a place for every item.
  lemma {:induction false} Place<T>(log: seq<Sized<T>>, idx: seq<nat>, x: Sized<T>, n: nat) returns (at: nat)
    requires Selects(log, idx) && n <= |idx| && forall i :: n <= i < |idx| ==> log[idx[i]].size <= x.size
    ensures Separates(log, idx, at, x)
  {
    if n > 0 && log[idx[n - 1]].size <= x.size {
      at := Place(log, idx, x, n - 1);
    } else {
      at := n;
      forall i | 0 <= i < at ensures log[idx[i]].size > x.size {
        if i < n - 1 { assert Ahead(log, idx[i], idx[n - 1]); }
      }
    }
  }

  // The whole ranking holds every item as often as it was added.
  lemma RankingPermutes<T>(log: seq<Sized<T>>, sorted: seq<Sized<T>>)
    requires IsTop(log, |log|, sorted)
    ensures multiset(sorted) == multiset(log)
    ensures forall i, j :: 0 <= i < j < |sorted| ==> sorted[i].size >= sorted[j].size
  {
    var idx :| Selects(log, idx) && |idx| == |log| && sorted == Picked(log, idx);
    PickedPermutes(log, idx);
    forall i, j | 0 <= i < j < |sorted| ensures sorted[i].size >= sorted[j].size {
      assert Ahead(log, idx[i], idx[j]);
    }
  }

  lemma {:induction false} PickedPermutes<T>(log: seq<Sized<T>>, idx: seq<nat>)
    requires Selects(log, idx) && |idx| == |log|
    ensures multiset(Picked(log, idx)) == multiset(log)
  {
    hide Ahead, Behind, Picked;
    if log != [] {
      var last := |log| - 1;
      AllSelected(log, idx, last);
      var j :| 0 <= j < |idx| && idx[j] == last;
      var init, fewer := log[..last], idx[..j] + idx[j + 1..];
      WithoutLast(log, idx, j);
      PickedPermutes(init, fewer);
      PickedWithout(log, idx, j);
      assert log == init + [log[last]];
    }
  }

  lemma PickedWithout<T>(log: seq<Sized<T>>, idx: seq<nat>, j: nat)
    requires log != [] && InRange(log, idx) && j < |idx| && idx[j] == |log| - 1
    requires InRange(log[..|log| - 1], idx[..j] + idx[j + 1..])
    ensures multiset(Picked(log, idx))
      == multiset(Picked(log[..|log| - 1], idx[..j] + idx[j + 1..])) + multiset([log[|log| - 1]])
  {
    var p, fewer := Picked(log, idx), idx[..j] + idx[j + 1..];
    assert forall i :: 0 <= i < |fewer| ==> fewer[i] == idx[if i < j then i else i + 1];
    assert p == p[..j] + [p[j]] + p[j + 1..];
    assert Picked(log[..|log| - 1], fewer) == p[..j] + p[j + 1..];
  }

  lemma WithoutLast<T>(log: seq<Sized<T>>, idx: seq<nat>, j: nat)
    requires log != [] && Selects(log, idx) && j < |idx| && idx[j] == |log| - 1
    ensures Selects(log[..|log| - 1], idx[..j] + idx[j + 1..])
  {
    var init, fewer := log[..|log| - 1], idx[..j] + idx[j + 1..];
    assert forall i :: 0 <= i < |fewer| ==> fewer[i] == idx[if i < j then i else i + 1];
    forall i | 0 <= i < |fewer| ensures fewer[i] < |init| {
      assert if i < j then Ahead(log, idx[i], idx[j]) else Ahead(log, idx[j], idx[i + 1]);
    }
    forall k: nat | k < |init| && k !in fewer ensures Behind(init, fewer, k) {
      assert k !in idx by {
        assert forall i :: 0 <= i < |idx| && i != j ==> idx[i] == fewer[if i < j then i else i - 1];
      }
      assert Behind(log, idx, k);
    }
  }

  // The top n are the first n of the whole ranking, and nothing else is.
  lemma TopIsTake<T>(log: seq<Sized<T>>, n: nat, list: seq<Sized<T>>, sorted: seq<Sized<T>>)
    requires IsTop(log, |log|, sorted)
    ensures |sorted| == |log|
    ensures IsTop(log, n, list) <==> list == sorted[..Min(n, |log|)]
  {
    hide Behind, Ahead;
    var full :| Selects(log, full) && |full| == |log| && sorted == Picked(log, full);
    var m := Min(n, |log|);
    SelectsPrefix(log, full, m);
    assert Picked(log, full[..m]) == sorted[..m];
    if IsTop(log, n, list) {
      var idx: seq<nat> :| Selects(log, idx) && |idx| == m && list == Picked(log, idx);
      SelectsUnique(log, idx, full[..m], m);
      assert idx == idx[..m] == full[..m][..m] == full[..m];
    }
  }

  // The items that rank ahead of the a-th.
  ghost function Aheads<T>(log: seq<Sized<T>>, a: nat): set<nat>
    requires a < |log|
  {
    set k: nat | k < |log| && Ahead(log, k, a)
  }

  // An item is among the top n exactly if fewer than n rank ahead of it.
  lemma AmongTop<T>(log: seq<Sized<T>>, idx: seq<nat>, n: nat, a: nat)
    requires Selects(log, idx) && |idx| == Min(n, |log|) && a < |log|
    ensures a in idx <==> |Aheads(log, a)| < n
  {
    if a in idx {
      var i :| 0 <= i < |idx| && idx[i] == a;
      ChosenSize(log, idx, i);
      assert Aheads(log, a) == set j | 0 <= j < i :: idx[j] by { AheadsAre(log, idx, i); }
    } else {
      if |idx| == |log| { AllSelected(log, idx, a); }
      assert Behind(log, idx, a);
      ChosenSize(log, idx, |idx|);
      SubsetSize(set j | 0 <= j < |idx| :: idx[j], Aheads(log, a));
    }
  }

  lemma AheadsAre<T>(log: seq<Sized<T>>, idx: seq<nat>, i: nat)
    requires Selects(log, idx) && i < |idx|
    ensures forall k: nat :: k in Aheads(log, idx[i]) <==> exists j :: 0 <= j < i && idx[j] == k
  {
    forall k: nat | k in Aheads(log, idx[i]) ensures exists j :: 0 <= j < i && idx[j] == k {
      NotAhead(log, idx, i, k);
    }
  }

  // ------------------------------------------------------------------ the code

  class TopList<T> {
    var list: seq<Sized<T>>
    const capacity: nat
    ghost var log: seq<Sized<T>>       // everything added, in order
    ghost var idx: seq<nat>

    ghost predicate Valid()
      reads this
    {
      Selects(log, idx) && |idx| == Min(capacity, |log|) && list == Picked(log, idx)
    }

    lemma ValidIsTop()
      requires Valid()
      ensures IsTop(log, capacity, list)
    {}

    constructor (cap: nat)
      ensures Valid() && capacity == cap && list == [] && log == []
    {
      capacity, list, log, idx := cap, [], [], [];
    }

    // sort.Search for the first item no larger than size.
    method Search(size: int) returns (index: nat)
      requires forall i, j :: 0 <= i < j < |list| ==> list[i].size >= list[j].size
      ensures index <= |list|
      ensures forall i :: 0 <= i < index ==> list[i].size > size
      ensures forall i :: index <= i < |list| ==> list[i].size <= size
    {
      var lo, hi := 0, |list|;
      while lo < hi
        invariant 0 <= lo <= hi <= |list|
        invariant forall i :: 0 <= i < lo ==> list[i].size > size
        invariant forall i :: hi <= i < |list| ==> list[i].size <= size
      {
        var mid := (lo + hi) / 2;
        if list[mid].size <= size {
          hi := mid;
        } else {
          lo := mid + 1;
        }
      }
      index := lo;
    }

    // append, copy one place up, overwrite, truncate.
    method InsertAt(index: nat, x: Sized<T>)
      requires index <= |list|
      modifies this`list
      ensures var all := old(list)[..index] + [x] + old(list)[index..];
        list == if |all| > capacity then all[..capacity] else all
    {
      ghost var all := list[..index] + [x] + list[index..];
      list := list + [x];
      list := list[..index + 1] + list[index..|list| - 1];
      list := list[index := x];
      assert list == all;
      if |list| > capacity {
        list := list[..capacity];
      }
    }

    method Add(x: Sized<T>)
      requires Valid()
      modifies this
      ensures Valid() && log == old(log) + [x]
    {
      SizesFall();
      var index := Search(x.size);
      Place(index, x);
      AddSelects(log, idx, index, x, capacity);
      InsertAt(index, x);
      idx := AddedIdx(log, idx, index, capacity);
      log := log + [x];
    }

    lemma Place(index: nat, x: Sized<T>)
      requires Valid() && index <= |list|
      requires forall i :: 0 <= i < index ==> list[i].size > x.size
      requires forall i :: index <= i < |list| ==> list[i].size <= x.size
      ensures Separates(log, idx, index, x)
    {
      hide Selects;
      SelectsInRange(log, idx);
      assert forall i :: 0 <= i < |idx| ==> log[idx[i]] == list[i];
    }

    lemma SizesFall()
      requires Valid()
      ensures forall i, j :: 0 <= i < j < |list| ==> list[i].size >= list[j].size
    {
      forall i, j | 0 <= i < j < |list| ensures list[i].size >= list[j].size {
        assert Ahead(log, idx[i], idx[j]);
      }
    }
  }
}
