/** The content of a stream node (core/stream.go): a listpack of a master entry and its messages. */
module Streams {
  import opened Bytes
  import opened Decimal
  import opened Strings
  import opened Hashes
  import opened Listpack

  datatype StreamId = StreamId(ms: u64, seqNo: u64)

  datatype Message = Message(id: StreamId, fields: map<bytes, bytes>, deleted: bool)

  // A node: its first id (stored beside the listpack), the master field names and the messages.
  datatype Node = Node(firstId: StreamId, fields: seq<bytes>, msgs: seq<Message>)

  // ------------------------------------------------------------------ writing

  // int64(x) - int64(y) on uint64 values.
  function Delta(x: u64, y: u64): int64 { AsInt64(x - y) }

  function AsInt64(v: int): int64 {
    Wrap64(v)
  }

  // The message has exactly as many fields as the master, and all of the master's.
  predicate SameFields(m: Message, fields: seq<bytes>) {
    |m.fields| == |fields| && forall f :: f in fields ==> f in m.fields
  }

  function Flag(m: Message, fields: seq<bytes>): nat {
    (if m.deleted then 1 else 0) + if SameFields(m, fields) then 2 else 0
  }

  function Deleted(msgs: seq<Message>): nat {
    if msgs == [] then 0 else (if msgs[0].deleted then 1 else 0) + Deleted(msgs[1..])
  }

  function StrItems(ss: seq<bytes>): (r: seq<Item>)
    ensures |r| == |ss|
  {
    if ss == [] then [] else [StrItem(ss[0])] + StrItems(ss[1..])
  }

  // The values of a map in the order of fields.
  function ValuesOf(m: map<bytes, bytes>, fields: seq<bytes>): (r: seq<bytes>)
    requires Within(fields, m)
    ensures |r| == |fields|
  {
    if fields == [] then [] else [m[fields[0]]] + ValuesOf(m, fields[1..])
  }

  // The field part of a message: values in the master's order, or names and values in the order
  // the map was ranged over.
  function FieldItems(m: Message, fields: seq<bytes>, order: seq<bytes>): seq<Item>
    requires Enumerates(order, m.fields)
  {
    if SameFields(m, fields) then StrItems(ValuesOf(m.fields, fields))
    else [IntItem(AsInt64(|m.fields|))] + StrItems(Flat(m.fields, order))
  }

  function MessageItems(first: StreamId, m: Message, fields: seq<bytes>, order: seq<bytes>): seq<Item>
    requires Enumerates(order, m.fields)
  {
    [IntItem(Flag(m, fields)), IntItem(Delta(m.id.ms, first.ms)), IntItem(Delta(m.id.seqNo, first.seqNo))]
    + FieldItems(m, fields, order) + [StrItem(Itoa(|m.fields|))]
  }

  ghost predicate Orders(msgs: seq<Message>, orders: seq<seq<bytes>>) {
    |orders| == |msgs| && forall i :: 0 <= i < |msgs| ==> Enumerates(orders[i], msgs[i].fields)
  }

  ghost function MessagesItems(first: StreamId, msgs: seq<Message>, fields: seq<bytes>,
                               orders: seq<seq<bytes>>): seq<Item>
    requires Orders(msgs, orders)
  {
    if msgs == [] then []
    else MessageItems(first, msgs[0], fields, orders[0]) + MessagesItems(first, msgs[1..], fields, orders[1..])
  }

  // The master entry: valid and deleted counts, field names, and the count again as a string.
  function MasterItems(node: Node): seq<Item> {
    var deleted := Deleted(node.msgs);
    [IntItem(AsInt64(|node.msgs| - deleted)), IntItem(AsInt64(deleted)), IntItem(AsInt64(|node.fields|))]
    + StrItems(node.fields) + [StrItem(Itoa(|node.fields|))]
  }

  ghost function NodeItems(node: Node, orders: seq<seq<bytes>>): seq<Item>
    requires Orders(node.msgs, orders)
  {
    MasterItems(node) + MessagesItems(node.firstId, node.msgs, node.fields, orders)
  }

  // ------------------------------------------------------------------ reading

  function ReadNames(b: bytes, p: nat, n: nat, acc: seq<bytes>): (r: Res<seq<bytes>>)
    ensures r.Ok? ==> p <= r.next
    decreases n
  {
    if n == 0 then Ok(acc, p)
    else
      var (s, q) :- ReadAsString(b, p);
      ReadNames(b, q, n - 1, acc + [s])
  }

  // Values for the master's names.
  function ReadValues(b: bytes, p: nat, names: seq<bytes>, acc: map<bytes, bytes>): (r: Res<map<bytes, bytes>>)
    ensures r.Ok? ==> p <= r.next
    decreases |names|
  {
    if names == [] then Ok(acc, p)
    else
      var (v, q) :- ReadAsString(b, p);
      ReadValues(b, q, names[1..], acc[names[0] := v])
  }

  // The message's own names and values.
  function ReadFieldPairs(b: bytes, p: nat, n: nat, acc: map<bytes, bytes>): (r: Res<map<bytes, bytes>>)
    ensures r.Ok? ==> p <= r.next
    decreases n
  {
    if n == 0 then Ok(acc, p)
    else
      var (f, p1) :- ReadAsString(b, p);
      var (v, p2) :- ReadAsString(b, p1);
      ReadFieldPairs(b, p2, n - 1, acc[f := v])
  }

  // uint64(delta + int64(base))
  function Undelta(delta: int, base: u64): u64 { Unsigned(delta + base, TWO64) }

  function ReadMessage(b: bytes, p: nat, first: StreamId, master: seq<bytes>): (r: Res<Message>)
    ensures r.Ok? ==> p < r.next
  {
    var (flag, p1) :- ReadAsInt(b, p);
    var (ms, p2) :- ReadAsInt(b, p1);
    var (seqNo, p3) :- ReadAsInt(b, p2);
    var id := StreamId(Undelta(ms, first.ms), Undelta(seqNo, first.seqNo));
    var (fields, p4) :- ReadMessageFields(b, p3, flag, master);
    var (_, p5) :- ReadAsString(b, p4);
    Ok(Message(id, fields, flag % 2 == 1), p5)
  }

  function ReadMessageFields(b: bytes, p: nat, flag: int, master: seq<bytes>): (r: Res<map<bytes, bytes>>)
    ensures r.Ok? ==> p <= r.next
  {
    if flag / 2 % 2 == 1 then ReadValues(b, p, master, map[])
    else
      var (n, q) :- ReadAsInt(b, p);
      ReadFieldPairs(b, q, if n < 0 then 0 else n, map[])
  }

  function ReadMessages(b: bytes, p: nat, n: nat, first: StreamId, master: seq<bytes>,
                        acc: seq<Message>): (r: Res<seq<Message>>)
    ensures r.Ok? ==> p <= r.next
    decreases n
  {
    if n == 0 then Ok(acc, p)
    else
      var (m, q) :- ReadMessage(b, p, first, master);
      ReadMessages(b, q, n - 1, first, master, acc + [m])
  }

  // readStreamEntryContent; make with a negative size panics.
  function ReadNode(b: bytes, p: nat, first: StreamId): Res<Node> {
    var (count, p1) :- ReadAsInt(b, p);
    var (deleted, p2) :- ReadAsInt(b, p1);
    var (fieldNum, p3) :- ReadAsInt(b, p2);
    if fieldNum < 0 then Fail(Panic)
    else
      var (names, p4) :- ReadNames(b, p3, fieldNum, []);
      var (_, p5) :- ReadAsString(b, p4);
      var total := Wrap64(count + deleted);
      if total < 0 then Fail(Panic)
      else
        var (msgs, p6) :- ReadMessages(b, p5, total, first, names, []);
        Ok(Node(first, names, msgs), p6)
  }

  // ------------------------------------------------------------------ what survives

  predicate NonEmpty(ss: seq<bytes>) { forall i :: 0 <= i < |ss| ==> ss[i] != [] }

  // A message that reads back: id deltas outside the gaps, no empty strings, and either exactly the
  // master's names or a field count outside the gaps.
  ghost predicate CleanMessage(first: StreamId, m: Message, fields: seq<bytes>) {
    !Gap(Delta(m.id.ms, first.ms)) && !Gap(Delta(m.id.seqNo, first.seqNo)) && CleanFields(m, fields)
  }

  ghost predicate CleanFields(m: Message, fields: seq<bytes>) {
    && (forall f :: f in m.fields ==> m.fields[f] != [])
    && if SameFields(m, fields) then forall f :: f in m.fields ==> f in fields
       else !Gap(AsInt64(|m.fields|)) && [] !in m.fields
  }

  ghost predicate AllClean(first: StreamId, msgs: seq<Message>, fields: seq<bytes>) {
    forall i :: 0 <= i < |msgs| ==> CleanMessage(first, msgs[i], fields)
  }

  // A node that reads back.
  ghost predicate CleanNode(node: Node) {
    && !Gap(AsInt64(|node.msgs| - Deleted(node.msgs))) && !Gap(AsInt64(Deleted(node.msgs)))
    && !Gap(AsInt64(|node.fields|)) && NonEmpty(node.fields)
    && AllClean(node.firstId, node.msgs, node.fields)
  }

  // Go lengths.
  predicate Countable(node: Node) {
    |node.msgs| <= MAX_INT64 && |node.fields| <= MAX_INT64
    && forall i :: 0 <= i < |node.msgs| ==> |node.msgs[i].fields| <= MAX_INT64
  }

  // ------------------------------------------------------------------ runs of strings

  function ShownAll(ss: seq<bytes>): (r: seq<bytes>)
    ensures |r| == |ss|
    ensures r == ss <==> NonEmpty(ss)
  {
    if ss == [] then []
    else
      var rest := ShownAll(ss[1..]);
      assert ss == [ss[0]] + ss[1..];
      assert ([Shown(ss[0])] + rest)[1..] == rest;
      [Shown(ss[0])] + rest
  }

  lemma {:induction false} StrItemsFit(ss: seq<bytes>, k: nat)
    requires k < |ss| && AllFit(StrItems(ss))
    ensures Fits(StrItem(ss[k]))
    decreases k
  {
    assert StrItems(ss)[0] == StrItem(ss[0]);
    if k > 0 {
      assert StrItems(ss)[1..] == StrItems(ss[1..]);
      StrItemsFit(ss[1..], k - 1);
    }
  }

  // The first of a run of string items, read as a string.
  lemma ReadFirst(b: bytes, p: nat, ss: seq<bytes>)
    requires ss != [] && AllFit(StrItems(ss)) && At(b, p, Elements(StrItems(ss)))
    ensures AllFit(StrItems(ss[1..]))
    ensures var r := ReadAsString(b, p);
      && r.Ok? && r.value == Shown(ss[0]) && At(b, r.next, Elements(StrItems(ss[1..])))
      && r.next + |Elements(StrItems(ss[1..]))| == p + |Elements(StrItems(ss))|
  {
    hide At, Element, ReadAsString;
    var items := StrItems(ss);
    assert items[0] == StrItem(ss[0]) && items[1..] == StrItems(ss[1..]);
    AtConcat(b, p, Element(items[0]), Elements(items[1..]));
    ReadShown(b, p, ss[0]);
  }

  lemma {:induction false} ReadNamesOf(b: bytes, p: nat, ss: seq<bytes>, acc: seq<bytes>)
    requires AllFit(StrItems(ss)) && At(b, p, Elements(StrItems(ss)))
    ensures ReadNames(b, p, |ss|, acc) == Ok(acc + ShownAll(ss), p + |Elements(StrItems(ss))|)
    decreases |ss|
  {
    hide At, Elements, StrItems, ReadAsString, AllFit, Shown;
    if ss == [] {
      NoElements();
      assert acc + [] == acc;
    } else {
      ReadFirst(b, p, ss);
      ReadNamesOf(b, ReadAsString(b, p).next, ss[1..], acc + [Shown(ss[0])]);
      assert acc + [Shown(ss[0])] + ShownAll(ss[1..]) == acc + ShownAll(ss);
    }
  }

  lemma NoElements()
    ensures StrItems([]) == [] && Elements([]) == []
  {}

  function ZipMap(keys: seq<bytes>, vals: seq<bytes>, acc: map<bytes, bytes>): map<bytes, bytes>
    requires |keys| == |vals|
  {
    if keys == [] then acc else ZipMap(keys[1..], vals[1..], acc[keys[0] := vals[0]])
  }

  lemma {:induction false} ReadValuesOf(b: bytes, p: nat, keys: seq<bytes>, vals: seq<bytes>, acc: map<bytes, bytes>)
    requires |keys| == |vals| && AllFit(StrItems(vals)) && At(b, p, Elements(StrItems(vals)))
    ensures ReadValues(b, p, keys, acc) == Ok(ZipMap(keys, ShownAll(vals), acc), p + |Elements(StrItems(vals))|)
    decreases |keys|
  {
    hide At, Elements, StrItems, ReadAsString, AllFit, Shown;
    if keys == [] {
      NoElements();
    } else {
      ReadFirst(b, p, vals);
      ReadValuesOf(b, ReadAsString(b, p).next, keys[1..], vals[1..], acc[keys[0] := Shown(vals[0])]);
      assert ShownAll(vals)[0] == Shown(vals[0]) && ShownAll(vals)[1..] == ShownAll(vals[1..]);
    }
  }

  lemma {:induction false} ReadFieldPairsOf(b: bytes, p: nat, n: nat, vs: seq<bytes>, acc: map<bytes, bytes>)
    requires |vs| % 2 == 0 && |vs| == 2 * n && AllFit(StrItems(vs)) && At(b, p, Elements(StrItems(vs)))
    ensures ReadFieldPairs(b, p, n, acc) == Ok(PairMap(ShownAll(vs), acc), p + |Elements(StrItems(vs))|)
    decreases n
  {
    hide At, Elements, StrItems, ReadAsString, AllFit, Shown;
    if n == 0 {
      NoElements();
    } else {
      var rest := vs[1..];
      ReadFirst(b, p, vs);
      ReadFirst(b, ReadAsString(b, p).next, rest);
      assert rest[1..] == vs[2..] && rest[0] == vs[1];
      var q := ReadAsString(b, ReadAsString(b, p).next).next;
      ReadFieldPairsOf(b, q, n - 1, vs[2..], acc[Shown(vs[0]) := Shown(vs[1])]);
      ShownTwo(vs);
    }
  }

  lemma ShownTwo(vs: seq<bytes>)
    requires |vs| >= 2
    ensures ShownAll(vs)[0] == Shown(vs[0]) && ShownAll(vs)[1] == Shown(vs[1]) && ShownAll(vs)[2..] == ShownAll(vs[2..])
  {
    hide Shown;
    var rest := vs[1..];
    assert rest[1..] == vs[2..];
    assert ShownAll(vs) == [Shown(vs[0])] + ([Shown(rest[0])] + ShownAll(rest[1..]));
  }

  // ------------------------------------------------------------------ the fields of a message

  // Pairing the master's names with the shown values gives the map back exactly when the names are
  // the map's and no value is empty.
  lemma ZipIsMap(m: map<bytes, bytes>, fields: seq<bytes>)
    requires Within(fields, m)
    ensures ZipMap(fields, ShownAll(ValuesOf(m, fields)), map[]) == m
      <==> (forall f :: f in m ==> f in fields && m[f] != [])
  {
    hide ZipMap, ShownAll, ValuesOf, Shown;
    ZipLooks(m, fields, map[]);
    var z := ZipMap(fields, ShownAll(ValuesOf(m, fields)), map[]);
    forall f | f in m ensures Shown(m[f]) == m[f] <==> m[f] != [] { ShownIs(m[f]); }
    if forall f :: f in m ==> f in fields && m[f] != [] {
      assert z == m;
    }
    if z == m {
      forall f | f in m ensures f in fields && m[f] != [] { assert f in z && z[f] == Shown(m[f]); }
    }
  }

  lemma ShownIs(s: bytes)
    ensures Shown(s) == s <==> s != []
  {}

  lemma {:induction false} ZipLooks(m: map<bytes, bytes>, fields: seq<bytes>, acc: map<bytes, bytes>)
    requires Within(fields, m)
    ensures var z := ZipMap(fields, ShownAll(ValuesOf(m, fields)), acc);
      && (forall f :: f in z <==> f in fields || f in acc)
      && (forall f :: f in fields ==> z[f] == Shown(m[f]))
      && (forall f :: f in acc && f !in fields ==> z[f] == acc[f])
    decreases |fields|
  {
    hide Shown;
    if fields != [] {
      var f, vals := fields[0], ValuesOf(m, fields);
      assert ShownAll(vals)[0] == Shown(m[f]) && ShownAll(vals)[1..] == ShownAll(ValuesOf(m, fields[1..])) by {
        assert vals[1..] == ValuesOf(m, fields[1..]);
      }
      ZipLooks(m, fields[1..], acc[f := Shown(m[f])]);
      assert fields == [f] + fields[1..];
    }
  }

  // Pairing the shown names and values of the map's own order gives the map back exactly when
  // neither a name nor a value is empty.
  lemma PairsAreMap(m: map<bytes, bytes>, order: seq<bytes>)
    requires Enumerates(order, m) && Within(order, m)
    ensures PairMap(ShownAll(Flat(m, order)), map[]) == m <==> [] !in m && forall f :: f in m ==> m[f] != []
  {
    var vs := Flat(m, order);
    if [] !in m && forall f :: f in m ==> m[f] != [] {
      FlatNonEmpty(m, order);
      PairMapFlat(m, order, map[]);
      assert PairMap(vs, map[]) == m;
    }
    var z := PairMap(ShownAll(vs), map[]);
    PairsShown(m, order, map[]);
    if z == m {
      assert [] !in z;
      forall f | f in m ensures m[f] != [] { assert z[f] != []; }
    }
  }

  lemma {:induction false} FlatNonEmpty(m: map<bytes, bytes>, order: seq<bytes>)
    requires Within(order, m) && [] !in m && forall f :: f in m ==> m[f] != []
    ensures NonEmpty(Flat(m, order))
  {
    if order != [] { FlatNonEmpty(m, order[1..]); }
  }

  // No shown name and no shown value is empty.
  lemma {:induction false} PairsShown(m: map<bytes, bytes>, order: seq<bytes>, acc: map<bytes, bytes>)
    requires Within(order, m) && [] !in acc && forall f :: f in acc ==> acc[f] != []
    ensures var z := PairMap(ShownAll(Flat(m, order)), acc); [] !in z && forall f :: f in z ==> z[f] != []
    decreases |order|
  {
    if order != [] {
      var vs := Flat(m, order);
      assert vs[2..] == Flat(m, order[1..]);
      ShownTwo(vs);
      PairsShown(m, order[1..], acc[Shown(vs[0]) := Shown(vs[1])]);
    }
  }

  // ------------------------------------------------------------------ ids

  lemma ReadAsIntRange(b: bytes, p: nat)
    ensures var r := ReadAsInt(b, p); r.Ok? ==> -0x8000_0000_0000_0000 <= r.value < 0x8000_0000_0000_0000
  {
    Powers();
    var r := ReadItem(b, p);
    if r.Ok? && r.value.Int? {
      var h: int := b[p];
      if h / 16 == 15 && 1 <= h % 16 <= 4 {
        var k := if h % 16 == 1 then 2 else if h % 16 == 2 then 3 else if h % 16 == 3 then 4 else 8;
        SignedRange(b[p + 1..p + 1 + k]);
      }
    }
  }

  lemma SignedRange(e: bytes)
    requires |e| in {2, 3, 4, 8}
    ensures FromLE(e) < Pow256(|e|) && -0x8000_0000_0000_0000 <= Signed(FromLE(e), Pow256(|e|)) < 0x8000_0000_0000_0000
  {
    FromLEPow(e);
    Powers();
  }

  // An id is recovered from its delta, wraparound included, and from no other one.
  lemma UndeltaExact(x: u64, y: u64, v: int64)
    ensures Undelta(v, y) == x <==> v == Delta(x, y)
  {
    var k := if x - y >= 0x8000_0000_0000_0000 then -1 else if x - y < -0x8000_0000_0000_0000 then 1 else 0;
    var d := x - y + k * TWO64;
    WrapBack(x - y, d, -k);
    ModUnique(d + y, TWO64, k, x);
    if Undelta(v, y) == x {
      DivMod(v + y, TWO64);
      var q := (v + y) / TWO64 - k;
      assert v - d == q * TWO64;
      if q >= 1 { MulGrows(q, TWO64); }
      if q <= -1 { MulGrows(-q, TWO64); }
    }
  }

  // ------------------------------------------------------------------ one message

  lemma ItemsHead(i: Item, rest: seq<Item>)
    requires AllFit([i] + rest)
    ensures Fits(i) && AllFit(rest) && Elements([i] + rest) == Element(i) + Elements(rest)
  {
    hide Element, Fits;
    var all := [i] + rest;
    assert all[0] == i && all[1..] == rest;
    forall k | 0 <= k < |rest| ensures Fits(rest[k]) { assert all[k + 1] == rest[k]; }
  }

  // An integer item at the head of a run.
  lemma ReadHead(b: bytes, p: nat, v: int64, rest: seq<Item>)
    requires AllFit([IntItem(v)] + rest) && At(b, p, Elements([IntItem(v)] + rest))
    ensures AllFit(rest)
    ensures var r := ReadAsInt(b, p);
      if Gap(v) then r.Ok? ==> r.value != v
      else r.Ok? && r.value == v && At(b, r.next, Elements(rest))
           && r.next + |Elements(rest)| == p + |Elements([IntItem(v)] + rest)|
  {
    hide At, Element, ReadItem, AllFit, Elements;
    ItemsHead(IntItem(v), rest);
    AtConcat(b, p, Element(IntItem(v)), Elements(rest));
    IntRoundTrip(b, p, v);
  }

  // A string item at the head of a run.
  lemma ReadStrHead(b: bytes, p: nat, s: bytes, rest: seq<Item>)
    requires AllFit([StrItem(s)] + rest) && At(b, p, Elements([StrItem(s)] + rest))
    ensures AllFit(rest)
    ensures var r := ReadAsString(b, p);
      r.Ok? && At(b, r.next, Elements(rest)) && r.next + |Elements(rest)| == p + |Elements([StrItem(s)] + rest)|
  {
    hide At, Element, ReadItem, AllFit, Elements, ReadAsString;
    ItemsHead(StrItem(s), rest);
    AtConcat(b, p, Element(StrItem(s)), Elements(rest));
    ReadShown(b, p, s);
  }

  lemma FitSplit(xs: seq<Item>, ys: seq<Item>)
    requires AllFit(xs + ys)
    ensures AllFit(xs) && AllFit(ys) && Elements(xs + ys) == Elements(xs) + Elements(ys)
  {
    hide Fits, Elements;
    forall k | 0 <= k < |xs| ensures Fits(xs[k]) { assert (xs + ys)[k] == xs[k]; }
    forall k | 0 <= k < |ys| ensures Fits(ys[k]) { assert (xs + ys)[|xs| + k] == ys[k]; }
    ElementsConcat(xs, ys);
  }

  // The fields of a message come back exactly when they are clean.
  lemma ReadFieldsOf(b: bytes, p: nat, m: Message, fields: seq<bytes>, order: seq<bytes>)
    requires Enumerates(order, m.fields) && |m.fields| <= MAX_INT64
    requires AllFit(FieldItems(m, fields, order)) && At(b, p, Elements(FieldItems(m, fields, order)))
    ensures var r := ReadMessageFields(b, p, Flag(m, fields), fields);
      && (CleanFields(m, fields) ==> r == Ok(m.fields, p + |Elements(FieldItems(m, fields, order))|))
      && (r.Ok? && r.value == m.fields ==> CleanFields(m, fields))
  {
    hide At, Elements, AllFit, Element, ReadAsInt, SameFields;
    FlagBits(m, fields);
    if SameFields(m, fields) {
      SharedFields(b, p, m, fields);
    } else {
      OwnFields(b, p, m, order);
    }
  }

  lemma FlagBits(m: Message, fields: seq<bytes>)
    ensures var f := Flag(m, fields);
      !Gap(f) && (f / 2 % 2 == 1 <==> SameFields(m, fields)) && (f % 2 == 1 <==> m.deleted)
  {}

  lemma SharedFields(b: bytes, p: nat, m: Message, fields: seq<bytes>)
    requires SameFields(m, fields)
    requires AllFit(StrItems(ValuesOf(m.fields, fields))) && At(b, p, Elements(StrItems(ValuesOf(m.fields, fields))))
    ensures var r := ReadValues(b, p, fields, map[]);
      && r.Ok? && r.next == p + |Elements(StrItems(ValuesOf(m.fields, fields)))|
      && (r.value == m.fields <==> CleanFields(m, fields))
  {
    hide At, Elements, AllFit;
    ReadValuesOf(b, p, fields, ValuesOf(m.fields, fields), map[]);
    ZipIsMap(m.fields, fields);
  }

  lemma OwnFields(b: bytes, p: nat, m: Message, order: seq<bytes>)
    requires Enumerates(order, m.fields) && |m.fields| <= MAX_INT64
    requires AllFit([IntItem(AsInt64(|m.fields|))] + StrItems(Flat(m.fields, order)))
    requires At(b, p, Elements([IntItem(AsInt64(|m.fields|))] + StrItems(Flat(m.fields, order))))
    ensures var n := ReadAsInt(b, p);
      var k := if n.Ok? && n.value >= 0 then n.value else 0;
      n.Ok? ==>
      var r := ReadFieldPairs(b, n.next, k, map[]);
      var clean := !Gap(AsInt64(|m.fields|)) && [] !in m.fields && (forall f :: f in m.fields ==> m.fields[f] != []);
      && (clean ==> r == Ok(m.fields, p + |Elements([IntItem(AsInt64(|m.fields|))] + StrItems(Flat(m.fields, order)))|))
      && (r.Ok? && r.value == m.fields ==> clean)
    ensures !Gap(AsInt64(|m.fields|)) ==> ReadAsInt(b, p).Ok?
  {
    hide At, Elements, AllFit, ReadAsInt, StrItems, Flat, PairMap, ShownAll, AsInt64, Distinct;
    var count := |m.fields|;
    CountIs(count);
    EnumeratesSize(order, m.fields);
    ReadHead(b, p, count, StrItems(Flat(m.fields, order)));
    if Gap(count) {
      CountGap(b, p, count, StrItems(Flat(m.fields, order)));
    } else {
      FlatLength(m.fields, order);
      ReadFieldPairsOf(b, ReadAsInt(b, p).next, count, Flat(m.fields, order), map[]);
      PairsAreMap(m.fields, order);
    }
  }

  lemma {:induction false} FlatLength(m: map<bytes, bytes>, order: seq<bytes>)
    requires Within(order, m)
    ensures |Flat(m, order)| == 2 * |order| && |Flat(m, order)| % 2 == 0
  {
    if order != [] { FlatLength(m, order[1..]); }
  }

  // A count in a gap is read as a negative number.
  lemma CountGap(b: bytes, p: nat, n: int64, rest: seq<Item>)
    requires 0 <= n && AllFit([IntItem(n)] + rest) && At(b, p, Elements([IntItem(n)] + rest))
    ensures AllFit(rest)
    ensures var r := ReadAsInt(b, p);
      && r.Ok? && r.value == Read13(n) && At(b, r.next, Elements(rest))
      && r.next + |Elements(rest)| == p + |Elements([IntItem(n)] + rest)|
  {
    hide At, Element, ReadItem, AllFit, Elements;
    ItemsHead(IntItem(n), rest);
    AtConcat(b, p, Element(IntItem(n)), Elements(rest));
    ReadIntValue(b, p, n);
  }

  function HeadItems(first: StreamId, m: Message, fields: seq<bytes>): (int64, int64, int64) {
    (Flag(m, fields), Delta(m.id.ms, first.ms), Delta(m.id.seqNo, first.seqNo))
  }

  function TailItems(m: Message, fields: seq<bytes>, order: seq<bytes>): seq<Item>
    requires Enumerates(order, m.fields)
  {
    FieldItems(m, fields, order) + [StrItem(Itoa(|m.fields|))]
  }

  lemma MessageSplit(first: StreamId, m: Message, fields: seq<bytes>, order: seq<bytes>)
    requires Enumerates(order, m.fields)
    ensures var (f, ms, sn) := HeadItems(first, m, fields);
      MessageItems(first, m, fields, order)
        == [IntItem(f)] + ([IntItem(ms)] + ([IntItem(sn)] + TailItems(m, fields, order)))
  {
    hide SameFields, FieldItems, Itoa;
  }

  // Flag and id: either the id read differs, or the reader stands before the fields.
  lemma ReadIdOf(b: bytes, p: nat, first: StreamId, m: Message, fields: seq<bytes>, rest: seq<Item>)
    requires var (f, ms, sn) := HeadItems(first, m, fields);
      var items := [IntItem(f)] + ([IntItem(ms)] + ([IntItem(sn)] + rest));
      AllFit(items) && At(b, p, Elements(items))
    ensures AllFit(rest)
    ensures var (f, ms, sn) := HeadItems(first, m, fields);
      var items := [IntItem(f)] + ([IntItem(ms)] + ([IntItem(sn)] + rest));
      var r1 := ReadAsInt(b, p);
      && r1.Ok? && r1.value == f
      && var r2 := ReadAsInt(b, r1.next);
      r2.Ok? ==>
      && (Undelta(r2.value, first.ms) == m.id.ms <==> !Gap(ms))
      && (!Gap(ms) ==>
        var r3 := ReadAsInt(b, r2.next);
        && (r3.Ok? ==> (Undelta(r3.value, first.seqNo) == m.id.seqNo <==> !Gap(sn)))
        && (!Gap(sn) ==>
          r3.Ok? && At(b, r3.next, Elements(rest)) && r3.next + |Elements(rest)| == p + |Elements(items)|))
    ensures var (f, ms, sn) := HeadItems(first, m, fields);
      !Gap(ms) ==> ReadAsInt(b, ReadAsInt(b, p).next).Ok?
  {
    hide At, Elements, AllFit, ReadAsInt, Undelta, Delta, Gap;
    var (f, ms, sn) := HeadItems(first, m, fields);
    FlagBits(m, fields);
    ReadHead(b, p, f, [IntItem(ms)] + ([IntItem(sn)] + rest));
    var p1 := ReadAsInt(b, p).next;
    ReadHead(b, p1, ms, [IntItem(sn)] + rest);
    ReadUndelta(b, p1, m.id.ms, first.ms);
    FitTwo(ms, sn, rest);
    if !Gap(ms) {
      var p2 := ReadAsInt(b, p1).next;
      ReadHead(b, p2, sn, rest);
      ReadUndelta(b, p2, m.id.seqNo, first.seqNo);
    }
  }

  lemma FitTwo(ms: int64, sn: int64, rest: seq<Item>)
    requires AllFit([IntItem(sn)] + rest)
    ensures AllFit(rest)
  {
    hide Elements;
    ItemsHead(IntItem(sn), rest);
  }

  lemma ReadUndelta(b: bytes, p: nat, x: u64, y: u64)
    ensures var r := ReadAsInt(b, p); r.Ok? ==> (Undelta(r.value, y) == x <==> r.value == Delta(x, y))
  {
    hide ReadAsInt;
    ReadAsIntRange(b, p);
    if ReadAsInt(b, p).Ok? { UndeltaExact(x, y, ReadAsInt(b, p).value); }
  }

  // A message comes back exactly if it is clean; if it is not, whatever is read is something else.
  lemma ReadMessageOf(b: bytes, p: nat, first: StreamId, m: Message, fields: seq<bytes>, order: seq<bytes>)
    requires Enumerates(order, m.fields) && |m.fields| <= MAX_INT64
    requires AllFit(MessageItems(first, m, fields, order)) && At(b, p, Elements(MessageItems(first, m, fields, order)))
    ensures var r := ReadMessage(b, p, first, fields);
      && (CleanMessage(first, m, fields) ==> r == Ok(m, p + |Elements(MessageItems(first, m, fields, order))|))
      && (r.Ok? && r.value == m ==> CleanMessage(first, m, fields))
  {
    hide At, Elements, AllFit, ReadAsInt, Undelta, Delta, Gap, Itoa, FieldItems, CleanFields, ReadMessageFields,
      ReadAsString, Flag;
    var tail := TailItems(m, fields, order);
    MessageSplit(first, m, fields, order);
    ReadIdOf(b, p, first, m, fields, tail);
    FlagBits(m, fields);
    var (f, ms, sn) := HeadItems(first, m, fields);
    if !Gap(ms) && !Gap(sn) {
      var p3 := ReadAsInt(b, ReadAsInt(b, ReadAsInt(b, p).next).next).next;
      var count := [StrItem(Itoa(|m.fields|))];
      FitSplit(FieldItems(m, fields, order), count);
      AtConcat(b, p3, Elements(FieldItems(m, fields, order)), Elements(count));
      ReadFieldsOf(b, p3, m, fields, order);
      if CleanFields(m, fields) {
        NoElements();
        assert count == count + [];
        ReadStrHead(b, p3 + |Elements(FieldItems(m, fields, order))|, Itoa(|m.fields|), []);
      }
    }
  }

  // ------------------------------------------------------------------ all messages

  // As many messages as asked for, after those already there.
  lemma {:induction false} ReadMessagesLength(b: bytes, p: nat, n: nat, first: StreamId, master: seq<bytes>,
                                              acc: seq<Message>)
    ensures var r := ReadMessages(b, p, n, first, master, acc);
      r.Ok? ==> |r.value| == |acc| + n && acc <= r.value
    decreases n
  {
    hide ReadMessage;
    if n > 0 {
      var m := ReadMessage(b, p, first, master);
      if m.Ok? { ReadMessagesLength(b, m.next, n - 1, first, master, acc + [m.value]); }
    }
  }

  lemma {:induction false} ReadMessagesOf(b: bytes, p: nat, first: StreamId, msgs: seq<Message>, fields: seq<bytes>,
                                          orders: seq<seq<bytes>>, acc: seq<Message>)
    requires Orders(msgs, orders) && forall i :: 0 <= i < |msgs| ==> |msgs[i].fields| <= MAX_INT64
    requires AllFit(MessagesItems(first, msgs, fields, orders))
      && At(b, p, Elements(MessagesItems(first, msgs, fields, orders)))
    ensures var r := ReadMessages(b, p, |msgs|, first, fields, acc);
      && (AllClean(first, msgs, fields) ==>
        r == Ok(acc + msgs, p + |Elements(MessagesItems(first, msgs, fields, orders))|))
      && (r.Ok? && r.value == acc + msgs ==> AllClean(first, msgs, fields))
    decreases |msgs|
  {
    hide At, Elements, AllFit, MessageItems, CleanMessage, ReadMessage;
    if msgs == [] {
      NoElements();
      assert acc + msgs == acc;
    } else {
      var m, rest := msgs[0], MessagesItems(first, msgs[1..], fields, orders[1..]);
      var items := MessageItems(first, m, fields, orders[0]);
      FitSplit(items, rest);
      AtConcat(b, p, Elements(items), Elements(rest));
      ReadMessageOf(b, p, first, m, fields, orders[0]);
      AllCleanHead(first, msgs, fields);
      if CleanMessage(first, m, fields) {
        ReadMessagesOf(b, p + |Elements(items)|, first, msgs[1..], fields, orders[1..], acc + [m]);
        assert acc + [m] + msgs[1..] == acc + msgs;
      } else {
        FirstDiffers(b, p, first, msgs, fields, acc);
      }
    }
  }

  lemma AllCleanHead(first: StreamId, msgs: seq<Message>, fields: seq<bytes>)
    requires msgs != []
    ensures AllClean(first, msgs, fields)
      <==> CleanMessage(first, msgs[0], fields) && AllClean(first, msgs[1..], fields)
  {
    hide CleanMessage;
    assert msgs == [msgs[0]] + msgs[1..];
  }

  // A first message that does not come back is never repaired by what follows.
  lemma FirstDiffers(b: bytes, p: nat, first: StreamId, msgs: seq<Message>, fields: seq<bytes>, acc: seq<Message>)
    requires msgs != []
    requires var m := ReadMessage(b, p, first, fields); m.Ok? ==> m.value != msgs[0]
    ensures var r := ReadMessages(b, p, |msgs|, first, fields, acc); r.Ok? ==> r.value != acc + msgs
  {
    hide ReadMessage;
    var m := ReadMessage(b, p, first, fields);
    if m.Ok? {
      ReadMessagesLength(b, m.next, |msgs| - 1, first, fields, acc + [m.value]);
      assert (acc + msgs)[|acc|] == msgs[0];
    }
  }

  // ------------------------------------------------------------------ a node

  lemma {:induction false} DeletedBound(msgs: seq<Message>)
    ensures Deleted(msgs) <= |msgs|
  {
    if msgs != [] { DeletedBound(msgs[1..]); }
  }

  lemma CountIs(n: int)
    requires 0 <= n <= MAX_INT64
    ensures AsInt64(n) == n
  {
    SignedUnsigned(n, TWO64);
  }

  // The two counts add up to the number of messages exactly if neither lies in a gap.
  lemma TotalIs(c: int64, d: int64)
    requires 0 <= c && 0 <= d && c + d <= MAX_INT64
    ensures Wrap64(Read13(c) + Read13(d)) == c + d <==> !Gap(c) && !Gap(d)
  {
    SignedUnsigned(Read13(c) + Read13(d), TWO64);
  }

  // The master entry: counts, names and end mark.
  ghost predicate MasterRead(b: bytes, p: nat, node: Node, q: nat) {
    var c, d, n := |node.msgs| - Deleted(node.msgs), Deleted(node.msgs), |node.fields|;
    && n <= MAX_INT64 && |node.msgs| <= MAX_INT64 && 0 <= c
    && var r1 := ReadAsInt(b, p);
    && r1.Ok? && r1.value == Read13(c)
    && var r2 := ReadAsInt(b, r1.next);
    && r2.Ok? && r2.value == Read13(d)
    && var r3 := ReadAsInt(b, r2.next);
    && r3.Ok? && r3.value == Read13(n)
    && (!Gap(n) ==>
      var r4 := ReadNames(b, r3.next, n, []);
      && r4.Ok? && r4.value == ShownAll(node.fields)
      && var r5 := ReadAsString(b, r4.next);
      r5.Ok? && r5.next == q)
  }

  lemma CountsRead(b: bytes, p: nat, c: int64, d: int64, n: int64, rest: seq<Item>)
    requires 0 <= c && 0 <= d && 0 <= n
    requires AllFit([IntItem(c)] + ([IntItem(d)] + ([IntItem(n)] + rest)))
    requires At(b, p, Elements([IntItem(c)] + ([IntItem(d)] + ([IntItem(n)] + rest))))
    ensures AllFit(rest)
    ensures var r1 := ReadAsInt(b, p);
      && r1.Ok? && r1.value == Read13(c)
      && var r2 := ReadAsInt(b, r1.next);
      && r2.Ok? && r2.value == Read13(d)
      && var r3 := ReadAsInt(b, r2.next);
      && r3.Ok? && r3.value == Read13(n) && At(b, r3.next, Elements(rest))
      && r3.next + |Elements(rest)| == p + |Elements([IntItem(c)] + ([IntItem(d)] + ([IntItem(n)] + rest)))|
  {
    hide At, Elements, AllFit, ReadAsInt, Read13;
    CountGap(b, p, c, [IntItem(d)] + ([IntItem(n)] + rest));
    CountGap(b, ReadAsInt(b, p).next, d, [IntItem(n)] + rest);
    CountGap(b, ReadAsInt(b, ReadAsInt(b, p).next).next, n, rest);
  }

  lemma MasterSplit(node: Node)
    requires |node.msgs| <= MAX_INT64 && |node.fields| <= MAX_INT64
    ensures var c, d, n := |node.msgs| - Deleted(node.msgs), Deleted(node.msgs), |node.fields|;
      && 0 <= c && c <= MAX_INT64 && d <= MAX_INT64
      && MasterItems(node) == [IntItem(c)]
        + ([IntItem(d)] + ([IntItem(n)] + (StrItems(node.fields) + [StrItem(Itoa(n))])))
  {
    hide Itoa, StrItems, AsInt64;
    DeletedBound(node.msgs);
    CountIs(|node.msgs| - Deleted(node.msgs));
    CountIs(Deleted(node.msgs));
    CountIs(|node.fields|);
  }

  lemma ReadMasterOf(b: bytes, p: nat, node: Node)
    requires |node.msgs| <= MAX_INT64 && |node.fields| <= MAX_INT64
    requires AllFit(MasterItems(node)) && At(b, p, Elements(MasterItems(node)))
    ensures MasterRead(b, p, node, p + |Elements(MasterItems(node))|)
  {
    hide At, Elements, AllFit, ReadAsInt, Read13, MasterItems, Deleted, Itoa, ReadAsString, StrItems, Gap;
    MasterSplit(node);
    var c, d, n := |node.msgs| - Deleted(node.msgs), Deleted(node.msgs), |node.fields|;
    var mark := [StrItem(Itoa(n))];
    CountsRead(b, p, c, d, n, StrItems(node.fields) + mark);
    if !Gap(n) {
      var p3 := ReadAsInt(b, ReadAsInt(b, ReadAsInt(b, p).next).next).next;
      FitSplit(StrItems(node.fields), mark);
      AtConcat(b, p3, Elements(StrItems(node.fields)), Elements(mark));
      ReadNamesOf(b, p3, node.fields, []);
      assert mark == mark + [];
      NoElements();
      ReadStrHead(b, p3 + |Elements(StrItems(node.fields))|, Itoa(n), []);
    }
  }

  // Whatever order the maps are ranged over, and whatever follows: a node comes back exactly if it
  // is clean.
  lemma NodeRoundTrip(b: bytes, p: nat, node: Node, orders: seq<seq<bytes>>)
    requires Countable(node) && Orders(node.msgs, orders) && AllFit(NodeItems(node, orders))
    requires At(b, p, Elements(NodeItems(node, orders)))
    ensures ReadNode(b, p, node.firstId) == Ok(node, p + |Elements(NodeItems(node, orders))|) <==> CleanNode(node)
    ensures ReadNode(b, p, node.firstId).Ok? && ReadNode(b, p, node.firstId).value == node ==> CleanNode(node)
  {
    hide At, Elements, AllFit, ReadAsInt, Read13, MasterItems, Deleted, ReadAsString, StrItems, Gap, AllClean,
      MessagesItems, ReadMessages, ReadNames, Wrap64, AsInt64, NonEmpty;
    var rest := MessagesItems(node.firstId, node.msgs, node.fields, orders);
    FitSplit(MasterItems(node), rest);
    AtConcat(b, p, Elements(MasterItems(node)), Elements(rest));
    var q := p + |Elements(MasterItems(node))|;
    ReadMasterOf(b, p, node);
    var c, d, n := |node.msgs| - Deleted(node.msgs), Deleted(node.msgs), |node.fields|;
    CountIs(c);
    CountIs(d);
    CountIs(n);
    Negative13(n);
    if !Gap(n) {
      TotalIs(c, d);
      var total := Wrap64(Read13(c) + Read13(d));
      if total >= 0 {
        ReadMessagesLength(b, q, total, node.firstId, ShownAll(node.fields), []);
        ReadMessagesOf(b, q, node.firstId, node.msgs, node.fields, orders, []);
        assert [] + node.msgs == node.msgs;
      }
    }
  }

  lemma Negative13(n: int64)
    requires n >= 0
    ensures if Gap(n) then Read13(n) < 0 else Read13(n) == n
  {}
}
