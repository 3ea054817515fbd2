/** writeStreamEntryContent and readStreamEntryContent of core/stream.go, proved against Streams. */
module StreamContent {
  import opened Bytes
  import opened Decimal
  import opened Strings
  import opened Hashes
  import opened Listpack
  import opened Streams
  import Encoding

  // ------------------------------------------------------------------ writing

  // The node's strings and its listpack fit in memory and in 32-bit sizes, whatever the map order.
  ghost predicate Fitting(node: Node) {
    && Countable(node)
    && forall orders :: Orders(node.msgs, orders) ==> ItemsFit(node, orders)
  }

  ghost predicate ItemsFit(node: Node, orders: seq<seq<bytes>>)
    requires Orders(node.msgs, orders)
  {
    AllFit(NodeItems(node, orders)) && |Elements(NodeItems(node, orders))| + 6 < MAX_INT64
  }

  // Go arithmetic on values of type int64.
  method SubInt64(x: u64, y: u64) returns (d: int64)
    ensures d == Delta(x, y)
  {
    hide Signed, Unsigned;
    SignedInRange(Unsigned(x, TWO64));
    SignedInRange(Unsigned(y, TWO64));
    var a, b := Wrap64(x), Wrap64(y); // int64(x), int64(y)
    WrapSub(x, y);
    d := AsInt64(a - b);
  }

  lemma SignedInRange(n: nat)
    requires n < TWO64
    ensures -0x8000_0000_0000_0000 <= Signed(n, TWO64) < 0x8000_0000_0000_0000
  {}

  lemma WrapSub(x: u64, y: u64)
    ensures Wrap64(Wrap64(x) - Wrap64(y)) == Wrap64(x - y)
  {
    SmallWrap(x);
    SmallWrap(y);
    var k := (if Wrap64(x) == x then 0 else -1) - if Wrap64(y) == y then 0 else -1;
    WrapShift(x - y, k);
  }

  lemma SmallWrap(x: u64)
    ensures Wrap64(x) == x || Wrap64(x) == x - TWO64
  {
    ModUnique(x, TWO64, 0, x);
  }

  lemma WrapShift(v: int, k: int)
    ensures Wrap64(v + k * TWO64) == Wrap64(v)
  {
    DivMod(v, TWO64);
    assert v + k * TWO64 == (v / TWO64 + k) * TWO64 + v % TWO64;
    ModUnique(v + k * TWO64, TWO64, v / TWO64 + k, v % TWO64);
  }

  method CountDeleted(msgs: seq<Message>) returns (deleted: nat)
    ensures deleted == Deleted(msgs)
  {
    deleted := 0;
    var i := 0;
    while i < |msgs|
      invariant 0 <= i <= |msgs| && deleted + Deleted(msgs[i..]) == Deleted(msgs)
    {
      if msgs[i].deleted { deleted := deleted + 1; }
      assert msgs[i..][1..] == msgs[i + 1..];
      i := i + 1;
    }
  }

  method HasSameFields(m: Message, fields: seq<bytes>) returns (same: bool)
    ensures same == SameFields(m, fields)
  {
    if |m.fields| != |fields| { return false; }
    var i := 0;
    while i < |fields|
      invariant 0 <= i <= |fields| && forall k :: 0 <= k < i ==> fields[k] in m.fields
    {
      if fields[i] !in m.fields { return false; }
      i := i + 1;
    }
    same := true;
  }

  // Values in the master's order.
  method AddValues(entries: seq<Item>, m: map<bytes, bytes>, fields: seq<bytes>) returns (r: seq<Item>)
    requires Within(fields, m)
    ensures r == entries + StrItems(ValuesOf(m, fields))
  {
    r := entries;
    var i := 0;
    while i < |fields|
      invariant 0 <= i <= |fields| && r + StrItems(ValuesOf(m, fields[i..])) == entries + StrItems(ValuesOf(m, fields))
    {
      ghost var vals := ValuesOf(m, fields[i..]);
      assert vals[1..] == ValuesOf(m, fields[i + 1..]) by { assert fields[i..][1..] == fields[i + 1..]; }
      assert r + StrItems(vals) == r + [StrItem(m[fields[i]])] + StrItems(vals[1..]);
      r := r + [StrItem(m[fields[i]])];
      i := i + 1;
    }
    assert StrItems(ValuesOf(m, fields[|fields|..])) == [];
  }

  // Names and values in the order the map is ranged over.
  method AddPairs(entries: seq<Item>, m: map<bytes, bytes>) returns (r: seq<Item>, ghost order: seq<bytes>)
    ensures Enumerates(order, m) && r == entries + StrItems(Flat(m, order))
  {
    var ranged := Encoding.Iterate(m);
    r, order := entries, ranged;
    var i := 0;
    while i < |ranged|
      invariant 0 <= i <= |ranged| && r + StrItems(Flat(m, ranged[i..])) == entries + StrItems(Flat(m, ranged))
    {
      PairStep(m, ranged[i..]);
      assert ranged[i..][1..] == ranged[i + 1..];
      ghost var rest := StrItems(Flat(m, ranged[i + 1..]));
      var f := ranged[i];
      assert r + ([StrItem(f), StrItem(m[f])] + rest) == r + [StrItem(f), StrItem(m[f])] + rest;
      r := r + [StrItem(f), StrItem(m[f])];
      i := i + 1;
    }
    assert StrItems(Flat(m, ranged[|ranged|..])) == [];
  }

  lemma PairStep(m: map<bytes, bytes>, order: seq<bytes>)
    requires order != [] && Within(order, m)
    ensures StrItems(Flat(m, order)) == [StrItem(order[0]), StrItem(m[order[0]])] + StrItems(Flat(m, order[1..]))
  {
    var rest := Flat(m, order[1..]);
    assert Flat(m, order) == [order[0], m[order[0]]] + rest;
    TwoItems(order[0], m[order[0]], rest);
  }

  lemma TwoItems(x: bytes, y: bytes, rest: seq<bytes>)
    ensures StrItems([x, y] + rest) == [StrItem(x), StrItem(y)] + StrItems(rest)
  {
    var flat := [x, y] + rest;
    assert flat[1..] == [y] + rest && flat[1..][1..] == rest;
    assert StrItems(flat) == [StrItem(x)] + StrItems(flat[1..]);
    assert StrItems(flat[1..]) == [StrItem(y)] + StrItems(rest);
  }

  // The entries of one message.
  method AddMessage(entries: seq<Item>, first: StreamId, m: Message, fields: seq<bytes>)
      returns (r: seq<Item>, ghost order: seq<bytes>)
    requires |m.fields| <= MAX_INT64
    ensures Enumerates(order, m.fields) && r == entries + MessageItems(first, m, fields, order)
  {
    hide Itoa, Wrap64, StrItems, Flat, ValuesOf;
    var same := HasSameFields(m, fields);
    var flag := (if m.deleted then 1 else 0) + if same then 2 else 0;
    var msDiff := SubInt64(m.id.ms, first.ms);
    var seqDiff := SubInt64(m.id.seqNo, first.seqNo);
    var head := [IntItem(flag), IntItem(msDiff), IntItem(seqDiff)];
    if same {
      order := Encoding.Iterate(m.fields);
      r := AddValues(entries + head, m.fields, fields);
    } else {
      CountIs(|m.fields|);
      var count := [IntItem(|m.fields|)];
      r, order := AddPairs(entries + head + count, m.fields);
      assert entries + head + count + StrItems(Flat(m.fields, order))
        == entries + head + (count + StrItems(Flat(m.fields, order)));
    }
    var mark := [StrItem(Itoa(|m.fields|))];
    r := r + mark;
    assert entries + head + FieldItems(m, fields, order) + mark
      == entries + (head + FieldItems(m, fields, order) + mark);
  }

  method AddNames(entries: seq<Item>, fields: seq<bytes>) returns (r: seq<Item>)
    ensures r == entries + StrItems(fields)
  {
    r := entries;
    var i := 0;
    while i < |fields|
      invariant 0 <= i <= |fields| && r + StrItems(fields[i..]) == entries + StrItems(fields)
    {
      assert fields[i..][1..] == fields[i + 1..];
      assert r + StrItems(fields[i..]) == r + [StrItem(fields[i])] + StrItems(fields[i + 1..]);
      r := r + [StrItem(fields[i])];
      i := i + 1;
    }
    assert StrItems(fields[|fields|..]) == [];
  }

  // The entries of a whole node.
  method NodeEntries(node: Node) returns (entries: seq<Item>, ghost orders: seq<seq<bytes>>)
    requires Countable(node)
    ensures Orders(node.msgs, orders) && entries == NodeItems(node, orders)
  {
    hide Itoa, StrItems, MessageItems, AsInt64;
    MasterSplit(node);
    var deleted := CountDeleted(node.msgs);
    var counts := [IntItem(|node.msgs| - deleted), IntItem(deleted), IntItem(|node.fields|)];
    CountIs(|node.msgs| - deleted);
    CountIs(deleted);
    CountIs(|node.fields|);
    entries := AddNames(counts, node.fields);
    entries := entries + [StrItem(Itoa(|node.fields|))];
    orders := [];
    var i := 0;
    while i < |node.msgs|
      invariant 0 <= i <= |node.msgs| && Orders(node.msgs[..i], orders)
      invariant entries == MasterItems(node) + MessagesItems(node.firstId, node.msgs[..i], node.fields, orders)
    {
      ghost var order;
      entries, order := AddMessage(entries, node.firstId, node.msgs[i], node.fields);
      MessagesSnoc(node.firstId, node.msgs[..i], node.fields, orders, node.msgs[i], order);
      assert node.msgs[..i + 1] == node.msgs[..i] + [node.msgs[i]];
      orders := orders + [order];
      i := i + 1;
    }
    assert node.msgs[..i] == node.msgs;
  }

  lemma {:induction false} MessagesSnoc(first: StreamId, msgs: seq<Message>, fields: seq<bytes>,
                                        orders: seq<seq<bytes>>,
                                        m: Message, order: seq<bytes>)
    requires Orders(msgs, orders) && Enumerates(order, m.fields)
    ensures Orders(msgs + [m], orders + [order])
    ensures MessagesItems(first, msgs + [m], fields, orders + [order])
      == MessagesItems(first, msgs, fields, orders) + MessageItems(first, m, fields, order)
    decreases |msgs|
  {
    hide MessageItems;
    if msgs == [] {
      assert ([m])[1..] == [] && ([order])[1..] == [];
    } else {
      MessagesSnoc(first, msgs[1..], fields, orders[1..], m, order);
      assert (msgs + [m])[1..] == msgs[1..] + [m] && (orders + [order])[1..] == orders[1..] + [order];
    }
  }

  // A node's listpack, as a string of the file. spare is room that append left behind a buffer.
  method WriteStreamEntryContent(enc: Encoding.Encoder, node: Node, spare: nat)
      returns (ghost orders: seq<seq<bytes>>, ghost e: bytes)
    requires enc.InSync() && Fitting(node)
    modifies enc`out, enc.digest
    ensures enc.InSync() && enc.out == old(enc.out) + e
    ensures Orders(node.msgs, orders) && ItemsFit(node, orders)
    ensures StringForm(enc.compress, ListpackBytes(NodeItems(node, orders)), e)
  {
    hide StringForm, NodeItems, Countable;
    var entries;
    entries, orders := NodeEntries(node);
    var data := BuildListpackWithBacklen(entries, spare);
    e := enc.WriteString(data);
  }

  // ------------------------------------------------------------------ reading

  method ReadFieldNames(buf: bytes, p: nat, n: nat) returns (r: Res<seq<bytes>>)
    ensures r == ReadNames(buf, p, n, [])
  {
    hide ReadAsString;
    var names: seq<bytes>, cursor, i := [], p, 0;
    while i < n
      invariant 0 <= i <= n && ReadNames(buf, cursor, n - i, names) == ReadNames(buf, p, n, [])
    {
      var name := ReadAsString(buf, cursor);
      if name.Fail? { return Fail(name.error); }
      names, cursor, i := names + [name.value], name.next, i + 1;
    }
    r := Ok(names, cursor);
  }

  // The field loop of one message: names from the master entry, or read along with the values.
  method ReadFieldLoop(buf: bytes, p: nat, flag: int, master: seq<bytes>) returns (r: Res<map<bytes, bytes>>)
    ensures r == ReadMessageFields(buf, p, flag, master)
  {
    hide ReadAsString, ReadAsInt;
    var same := flag / 2 % 2 == 1;
    var fieldNum, cursor := |master| as int, p;
    if !same {
      var n := ReadAsInt(buf, cursor);
      if n.Fail? { return Fail(n.error); }
      fieldNum, cursor := n.value, n.next;
    }
    ghost var start := cursor;
    var fields: map<bytes, bytes>, i := map[], 0;
    while i < fieldNum
      invariant 0 <= i && (same ==> fieldNum == |master| && i <= |master|)
      invariant same ==> ReadValues(buf, cursor, master[i..], fields) == ReadValues(buf, start, master, map[])
      invariant !same ==> i <= fieldNum || i == 0
      invariant !same ==> PairsLeft(buf, cursor, fieldNum - i, fields) == PairsLeft(buf, start, fieldNum, map[])
    {
      var name;
      if same {
        name := master[i];
        assert master[i..][0] == name && master[i..][1..] == master[i + 1..];
      } else {
        var f := ReadAsString(buf, cursor);
        if f.Fail? { return Fail(f.error); }
        name, cursor := f.value, f.next;
      }
      var v := ReadAsString(buf, cursor);
      if v.Fail? { return Fail(v.error); }
      fields, cursor, i := fields[name := v.value], v.next, i + 1;
    }
    r := Ok(fields, cursor);
  }

  function PairsLeft(buf: bytes, p: nat, n: int, acc: map<bytes, bytes>): Res<map<bytes, bytes>> {
    ReadFieldPairs(buf, p, if n < 0 then 0 else n, acc)
  }

  method ReadOneMessage(buf: bytes, p: nat, first: StreamId, master: seq<bytes>) returns (r: Res<Message>)
    ensures r == ReadMessage(buf, p, first, master)
  {
    hide ReadAsString, ReadAsInt, ReadMessageFields, Undelta;
    var flag := ReadAsInt(buf, p);
    if flag.Fail? { return Fail(flag.error); }
    var ms := ReadAsInt(buf, flag.next);
    if ms.Fail? { return Fail(ms.error); }
    var seqNo := ReadAsInt(buf, ms.next);
    if seqNo.Fail? { return Fail(seqNo.error); }
    var id := StreamId(Undelta(ms.value, first.ms), Undelta(seqNo.value, first.seqNo));
    var fields := ReadFieldLoop(buf, seqNo.next, flag.value, master);
    if fields.Fail? { return Fail(fields.error); }
    var mark := ReadAsString(buf, fields.next);
    if mark.Fail? { return Fail(mark.error); }
    r := Ok(Message(id, fields.value, flag.value % 2 == 1), mark.next);
  }

  method ReadStreamEntryContent(buf: bytes, p: nat, first: StreamId) returns (r: Res<Node>)
    ensures r == ReadNode(buf, p, first)
  {
    hide ReadAsString, ReadAsInt, ReadNames, ReadMessage, Wrap64;
    var count := ReadAsInt(buf, p);
    if count.Fail? { return Fail(count.error); }
    var deleted := ReadAsInt(buf, count.next);
    if deleted.Fail? { return Fail(deleted.error); }
    var fieldNum := ReadAsInt(buf, deleted.next);
    if fieldNum.Fail? { return Fail(fieldNum.error); }
    if fieldNum.value < 0 { return Fail(Panic); }
    var names := ReadFieldNames(buf, fieldNum.next, fieldNum.value);
    if names.Fail? { return Fail(names.error); }
    var mark := ReadAsString(buf, names.next);
    if mark.Fail? { return Fail(mark.error); }
    var total := Wrap64(count.value + deleted.value);
    if total < 0 { return Fail(Panic); }
    var msgs: seq<Message>, cursor, i := [], mark.next, 0;
    while i < total
      invariant 0 <= i <= total
      invariant ReadMessages(buf, cursor, total - i, first, names.value, msgs)
        == ReadMessages(buf, mark.next, total, first, names.value, [])
    {
      var m := ReadOneMessage(buf, cursor, first, names.value);
      if m.Fail? { return Fail(m.error); }
      msgs, cursor, i := msgs + [m.value], m.next, i + 1;
    }
    r := Ok(Node(first, names.value, msgs), cursor);
  }

  // ------------------------------------------------------------------ round trip

  lemma BehindHeader(items: seq<Item>)
    requires AllFit(items)
    ensures |ListpackBytes(items)| == 6 + |Elements(items)| && At(ListpackBytes(items), 6, Elements(items))
  {
    hide Elements, LE;
    var lp := ListpackBytes(items);
    assert lp[6..6 + |Elements(items)|] == Elements(items);
  }

  // A node written into a file and read back: the string reader recovers the listpack, and after
  // its six header bytes the node reader recovers the node exactly if it is clean.
  lemma ContentRoundTrip(compress: bool, b: bytes, p: nat, node: Node, orders: seq<seq<bytes>>, e: bytes)
    requires Countable(node) && Orders(node.msgs, orders) && ItemsFit(node, orders)
    requires compress ==> |Elements(NodeItems(node, orders))| + 6 <= TWO32
    requires StringForm(compress, ListpackBytes(NodeItems(node, orders)), e) && At(b, p, e)
    ensures var lp := ListpackBytes(NodeItems(node, orders));
      && ReadString(b, p) == Ok(lp, p + |e|)
      && (ReadNode(lp, 6, node.firstId) == Ok(node, |lp|) <==> CleanNode(node))
      && (ReadNode(lp, 6, node.firstId).Ok? && ReadNode(lp, 6, node.firstId).value == node ==> CleanNode(node))
  {
    hide StringForm, NodeItems, Countable, Orders, CleanNode, ReadNode, ReadString, ListpackBytes, Elements, At;
    var items := NodeItems(node, orders);
    var lp := ListpackBytes(items);
    BehindHeader(items);
    ReadStringForm(compress, b, p, lp, e);
    NodeRoundTrip(lp, 6, node, orders);
  }
}
