/** Files that are cut short, and errors that parse drops (core/decoder.go): when exactly a parse ends
    without an error, and what is reported of the beginning of a file. */
module Truncation {
  import opened Bytes
  import opened Strings
  import opened Ziplist
  import opened Lists
  import opened Sets
  import opened Hashes
  import opened Objects
  import opened Document
  import opened Parser
  import opened RoundTrip
  import Crc64
  import Encoding

  // ------------------------------------------------------------------ ending without an error

  // The last turn of a parse: its position, and whether the callback refused its event.
  datatype Last = Last(at: nat, refused: bool)

  function LastTurn(valkey: bool, special: bool, cb: Event -> bool, b: bytes, p: nat, st: Vars): Last
    decreases |b| - p
  {
    match Turn(valkey, special, b, p, st)
    case Halt(_) => Last(p, false)
    case Skip(st', q) => LastTurn(valkey, special, cb, b, q, st')
    case Emit(event, st', q) => if cb(event) then LastTurn(valkey, special, cb, b, q, st') else Last(p, true)
  }

  // At p stands the end mark.
  predicate EndMark(b: bytes, p: nat) { p < |b| && b[p] == 255 }

  // At p stands an AUX item whose second string cannot be read, short of a panic, or a RESIZEDB item
  // whose second length cannot.
  predicate Swallows(b: bytes, p: nat) {
    p < |b| &&
    if b[p] == 250 then
      var key := ReadString(b, p + 1);
      key.Ok? && var value := ReadString(b, key.next); value.Fail? && value != Fail(Panic)
    else
      b[p] == 251 &&
      var keys := ReadLength(b, p + 1);
      keys.Ok? && ReadLength(b, keys.next).Fail?
  }

  // A turn that ends the loop does so without an error exactly at the end mark or at such an item.
  lemma HaltsQuietly(valkey: bool, special: bool, b: bytes, p: nat, st: Vars)
    ensures var m := Turn(valkey, special, b, p, st);
      m.Halt? ==> (m.error.None? <==> EndMark(b, p) || Swallows(b, p))
    ensures EndMark(b, p) || Swallows(b, p) ==> Turn(valkey, special, b, p, st).Halt?
  {
    hide ReadString, ReadLength, SimpleItem, SlotInfo, SlotImport, ObjectItem;
  }

  lemma {:induction false} ParseQuietly(valkey: bool, special: bool, cb: Event -> bool, b: bytes, p: nat, st: Vars,
                                        acc: seq<Event>)
    ensures var l := LastTurn(valkey, special, cb, b, p, st);
      Parse(valkey, special, cb, b, p, st, acc).error.None? <==> l.refused || EndMark(b, l.at) || Swallows(b, l.at)
    decreases |b| - p
  {
    hide Turn, Swallows, EndMark;
    HaltsQuietly(valkey, special, b, p, st);
    match Turn(valkey, special, b, p, st)
    case Halt(_) =>
    case Skip(st', q) => ParseQuietly(valkey, special, cb, b, q, st', acc);
    case Emit(event, st', q) => if cb(event) { ParseQuietly(valkey, special, cb, b, q, st', acc + [event]); }
  }

  // Every byte sequence: no error is reported exactly if the header is good and the loop stops at an
  // event the callback refuses, at the end mark, or at an item whose first half can be read and
  // whose second half cannot and does not panic.
  lemma NoErrorIff(special: bool, cb: Event -> bool, b: bytes)
    ensures ParseFile(special, cb, b).error.None? <==>
      var h := CheckHeader(b);
      h.Ok? &&
      var l := LastTurn(h.value.valkey, special, cb, b, h.next, START);
      l.refused || EndMark(b, l.at) || Swallows(b, l.at)
  {
    hide CheckHeader, Parse, LastTurn, EndMark, Swallows;
    var h := CheckHeader(b);
    if h.Ok? { ParseQuietly(h.value.valkey, special, cb, b, h.next, START, []); }
  }

  // REDIS0011, and an AUX item cut off behind its first string: no event and no error.
  lemma SwallowedError(special: bool, cb: Event -> bool)
    ensures ParseFile(special, cb, [82, 69, 68, 73, 83, 48, 48, 49, 49, 250, 1, 97]) == Parsed([], None)
  {
    hide SimpleItem, ResizeDb, SlotInfo, SlotImport, ObjectItem;
    var b: bytes := [82, 69, 68, 73, 83, 48, 48, 49, 49, 250, 1, 97];
    AtSelf(HeaderBytes(false));
    assert b[0..9] == HeaderBytes(false);
    HeaderReads(false, b);
    assert b[10] == 1 && b[11..12] == [97];
    assert ReadLength(b, 10) == Ok(Length(1, false), 11);
    assert ReadString(b, 10) == Ok([97], 12);
  }

  // The same item with a value of declared length 2^63: making room for it panics, and Parse recovers
  // that into an error.
  lemma PanicReported(special: bool, cb: Event -> bool)
    ensures var b := [82, 69, 68, 73, 83, 48, 48, 49, 49, 250, 1, 97, 0x81, 0x80, 0, 0, 0, 0, 0, 0, 0];
      ParseFile(special, cb, b) == Parsed([], Some(Panic))
  {
    hide SimpleItem, ResizeDb, SlotInfo, SlotImport, ObjectItem;
    var b: bytes := [82, 69, 68, 73, 83, 48, 48, 49, 49, 250, 1, 97, 0x81, 0x80, 0, 0, 0, 0, 0, 0, 0];
    AtSelf(HeaderBytes(false));
    assert b[0..9] == HeaderBytes(false);
    HeaderReads(false, b);
    assert b[10] == 1 && b[11..12] == [97];
    assert ReadLength(b, 10) == Ok(Length(1, false), 11);
    assert ReadString(b, 10) == Ok([97], 12);
    HugeLength(b);
    assert ReadString(b, 12) == Fail(Panic);
  }

  lemma HugeLength(b: bytes)
    requires |b| == 21 && b[12..] == [0x81, 0x80, 0, 0, 0, 0, 0, 0, 0]
    ensures ReadLength(b, 12) == Ok(Length(MAX_INT64 + 1, false), 21)
  {
    hide FromBE;
    assert b[12] == b[12..][0] == 0x81;
    assert b[13..21] == b[12..][1..] == [0x80, 0, 0, 0, 0, 0, 0, 0];
    TopBit();
  }

  lemma TopBit()
    ensures FromBE([0x80, 0, 0, 0, 0, 0, 0, 0]) == MAX_INT64 + 1
  {
    hide FromBE;
    OneByte(0x80);
    OneZero([0x80]);
    OneZero([0x80, 0]);
    OneZero([0x80, 0, 0]);
    OneZero([0x80, 0, 0, 0]);
    OneZero([0x80, 0, 0, 0, 0]);
    OneZero([0x80, 0, 0, 0, 0, 0]);
    OneZero([0x80, 0, 0, 0, 0, 0, 0]);
    assert [0x80] + [0] == [0x80, 0] && [0x80, 0] + [0] == [0x80, 0, 0] && [0x80, 0, 0] + [0] == [0x80, 0, 0, 0];
    assert [0x80, 0, 0, 0] + [0] == [0x80, 0, 0, 0, 0] && [0x80, 0, 0, 0, 0] + [0] == [0x80, 0, 0, 0, 0, 0];
    assert [0x80, 0, 0, 0, 0, 0] + [0] == [0x80, 0, 0, 0, 0, 0, 0];
    assert [0x80, 0, 0, 0, 0, 0, 0] + [0] == [0x80, 0, 0, 0, 0, 0, 0, 0];
  }

  lemma OneByte(c: byte)
    ensures FromBE([c]) == c
  {
    assert [c][..0] == [];
  }

  lemma OneZero(e: bytes)
    ensures FromBE(e + [0]) == 256 * FromBE(e)
  {
    assert (e + [0])[..|e|] == e;
  }

  // ------------------------------------------------------------------ readers and prefixes

  // Reading a prefix of n bytes and reading the whole agree wherever one of them stays within n, and
  // where only the whole can be read, the prefix just ends too early.
  predicate Agree<T(==)>(short: Res<T>, long: Res<T>, n: nat) {
    && (short.Ok? ==> long == short)
    && (long.Ok? && long.next <= n ==> short == long)
    && (long.Ok? && short.Fail? ==> short.error.UnexpectedEnd?)
  }

  lemma CutBytes(b: bytes, c: bytes, p: nat, k: nat)
    requires b <= c
    ensures Agree(ReadBytes(b, p, k), ReadBytes(c, p, k), |b|)
  {
    if p + k <= |b| { assert b[p..p + k] == c[..|b|][p..p + k] == c[p..p + k]; }
  }

  lemma CutLength(b: bytes, c: bytes, p: nat)
    requires b <= c
    ensures Agree(ReadLength(b, p), ReadLength(c, p), |b|)
  {
    hide FromBE, ReadBytes;
    CutBytes(b, c, p + 1, 1);
    CutBytes(b, c, p + 1, 4);
    CutBytes(b, c, p + 1, 8);
    if p < |b| { assert b[p] == c[p]; }
  }

  lemma CutLZF(b: bytes, c: bytes, p: nat)
    requires b <= c
    ensures Agree(ReadLZF(b, p), ReadLZF(c, p), |b|)
  {
    hide ReadLength, ReadBytes;
    CutLength(b, c, p);
    var l := ReadLength(c, p);
    if l.Ok? {
      CutLength(b, c, l.next);
      var m := ReadLength(c, l.next);
      if m.Ok? { CutBytes(b, c, m.next, l.value.n); }
    }
  }

  lemma CutString(b: bytes, c: bytes, p: nat)
    requires b <= c
    ensures Agree(ReadString(b, p), ReadString(c, p), |b|)
  {
    hide ReadLength, ReadBytes, ReadLZF, FromLE, Pow256;
    CutLength(b, c, p);
    var l := ReadLength(c, p);
    if l.Ok? {
      CutBytes(b, c, l.next, 1);
      CutBytes(b, c, l.next, 2);
      CutBytes(b, c, l.next, 4);
      CutBytes(b, c, l.next, l.value.n);
      CutLZF(b, c, l.next);
    }
  }

  lemma CutInt64(b: bytes, c: bytes, p: nat)
    requires b <= c
    ensures Agree(ReadInt64(b, p), ReadInt64(c, p), |b|)
  {
    hide ReadBytes, FromLE, Pow256;
    CutBytes(b, c, p, 8);
  }

  lemma {:induction false} CutStrings(b: bytes, c: bytes, p: nat, n: nat, acc: seq<bytes>)
    requires b <= c && p <= |c|
    ensures Agree(ReadStrings(b, p, n, acc), ReadStrings(c, p, n, acc), |b|)
    decreases n
  {
    hide ReadString;
    if n > 0 {
      CutString(b, c, p);
      var s := ReadString(c, p);
      if s.Ok? { CutStrings(b, c, s.next, n - 1, acc + [s.value]); }
    }
  }

  lemma CutSet(b: bytes, c: bytes, p: nat)
    requires b <= c
    ensures Agree(ReadSet(b, p), ReadSet(c, p), |b|)
  {
    hide ReadLength, ReadStrings;
    CutLength(b, c, p);
    var l := ReadLength(c, p);
    if l.Ok? { CutStrings(b, c, l.next, l.value.n, []); }
  }

  lemma CutZipList(b: bytes, c: bytes, p: nat)
    requires b <= c
    ensures Agree(ReadZipList(b, p), ReadZipList(c, p), |b|)
  {
    hide ReadString, ReadBlob;
    CutString(b, c, p);
  }

  lemma CutIntSet(b: bytes, c: bytes, p: nat)
    requires b <= c
    ensures Agree(ReadIntSet(b, p), ReadIntSet(c, p), |b|)
  {
    hide ReadString, ReadIntSetBlob;
    CutString(b, c, p);
  }

  lemma CutZipListHash(b: bytes, c: bytes, p: nat)
    requires b <= c
    ensures Agree(ReadZipListHash(b, p), ReadZipListHash(c, p), |b|)
  {
    hide ReadString, ReadZipHashBlob;
    CutString(b, c, p);
  }

  lemma {:induction false} CutPages(b: bytes, c: bytes, p: nat, n: nat, acc: seq<bytes>)
    requires b <= c && p <= |c|
    ensures Agree(ReadPages(b, p, n, acc), ReadPages(c, p, n, acc), |b|)
    decreases n
  {
    hide ReadZipList;
    if n > 0 {
      CutZipList(b, c, p);
      var page := ReadZipList(c, p);
      if page.Ok? { CutPages(b, c, page.next, n - 1, acc + page.value); }
    }
  }

  lemma CutQuickList(b: bytes, c: bytes, p: nat)
    requires b <= c
    ensures Agree(ReadQuickList(b, p), ReadQuickList(c, p), |b|)
  {
    hide ReadLength, ReadPages;
    CutLength(b, c, p);
    var l := ReadLength(c, p);
    if l.Ok? { CutPages(b, c, l.next, AsInt(l.value.n), []); }
  }

  lemma CutTwoStrings(b: bytes, c: bytes, p: nat)
    requires b <= c
    ensures Agree(ReadString(b, p), ReadString(c, p), |b|)
    ensures var s := ReadString(c, p); s.Ok? ==> Agree(ReadString(b, s.next), ReadString(c, s.next), |b|)
  {
    hide ReadString;
    CutString(b, c, p);
    var s := ReadString(c, p);
    if s.Ok? { CutString(b, c, s.next); }
  }

  lemma CutField(layout: Layout, b: bytes, c: bytes, p: nat)
    requires b <= c
    ensures Agree(ReadField(layout, b, p), ReadField(layout, c, p), |b|)
  {
    hide ReadString, ReadLength, ReadInt64;
    match layout
    case Plain => CutTwoStrings(b, c, p);
    case Relative(min) =>
      CutLength(b, c, p);
      var l := ReadLength(c, p);
      if l.Ok? { CutTwoStrings(b, c, l.next); }
    case Absolute =>
      CutTwoStrings(b, c, p);
      var f := ReadString(c, p);
      if f.Ok? {
        var v := ReadString(c, f.next);
        if v.Ok? { CutInt64(b, c, v.next); }
      }
  }

  lemma {:induction false} CutFields(layout: Layout, b: bytes, c: bytes, p: nat, n: nat, acc: Fields)
    requires b <= c && p <= |c|
    ensures Agree(ReadFields(layout, b, p, n, acc), ReadFields(layout, c, p, n, acc), |b|)
    decreases n
  {
    hide ReadField;
    if n > 0 {
      CutField(layout, b, c, p);
      var f := ReadField(layout, c, p);
      if f.Ok? {
        var next := Fields(acc.hash[f.value.name := f.value.value], acc.expire[f.value.name := f.value.expire]);
        CutFields(layout, b, c, f.next, n - 1, next);
      }
    }
  }

  lemma CutHashes(b: bytes, c: bytes, p: nat)
    requires b <= c
    ensures Agree(ReadHashMap(b, p), ReadHashMap(c, p), |b|)
    ensures Agree(ReadHashMapExValkey(b, p), ReadHashMapExValkey(c, p), |b|)
  {
    hide ReadLength, ReadFields;
    CutLength(b, c, p);
    var l := ReadLength(c, p);
    if l.Ok? {
      CutFields(Plain, b, c, l.next, AsInt(l.value.n), Fields(map[], map[]));
      CutFields(Absolute, b, c, l.next, AsInt(l.value.n), Fields(map[], map[]));
    }
  }

  lemma CutHashMapEx(b: bytes, c: bytes, p: nat)
    requires b <= c
    ensures Agree(ReadHashMapEx(b, p), ReadHashMapEx(c, p), |b|)
  {
    hide ReadLength, ReadInt64, ReadFields;
    CutInt64(b, c, p);
    var min := ReadInt64(c, p);
    if min.Ok? {
      CutLength(b, c, min.next);
      var l := ReadLength(c, min.next);
      if l.Ok? { CutFields(Relative(min.value), b, c, l.next, AsInt(l.value.n), Fields(map[], map[])); }
    }
  }

  lemma CutPayload(valkey: bool, t: byte, b: bytes, c: bytes, p: nat)
    requires b <= c
    ensures Agree(ReadPayload(valkey, t, b, p), ReadPayload(valkey, t, c, p), |b|)
  {
    hide ReadString, ReadSet, ReadHashMap, ReadZipList, ReadIntSet, ReadZipListHash, ReadQuickList,
      ReadHashMapEx, ReadHashMapExValkey;
    if t == 0 {
      CutString(b, c, p);
    } else if t in {1, 2} {
      CutSet(b, c, p);
    } else if t in {4, 22} || (t == 24 && valkey) {
      CutHashes(b, c, p);
    } else if t == 10 {
      CutZipList(b, c, p);
    } else if t == 11 {
      CutIntSet(b, c, p);
    } else if t == 13 {
      CutZipListHash(b, c, p);
    } else if t == 14 {
      CutQuickList(b, c, p);
    } else if t == 24 {
      CutHashMapEx(b, c, p);
    }
  }

  // ------------------------------------------------------------------ one turn

  lemma {:induction false} CutRanges(b: bytes, c: bytes, p: nat, n: nat)
    requires b <= c && p <= |c|
    ensures Agree(ReadRanges(b, p, n), ReadRanges(c, p, n), |b|)
    decreases n
  {
    hide ReadLength;
    if n > 0 {
      CutTwoLengths(b, c, p);
      var l := ReadLength(c, p);
      if l.Ok? {
        var m := ReadLength(c, l.next);
        if m.Ok? { CutRanges(b, c, m.next, n - 1); }
      }
    }
  }

  lemma CutTwoLengths(b: bytes, c: bytes, p: nat)
    requires b <= c
    ensures Agree(ReadLength(b, p), ReadLength(c, p), |b|)
    ensures var l := ReadLength(c, p); l.Ok? ==> Agree(ReadLength(b, l.next), ReadLength(c, l.next), |b|)
  {
    hide ReadLength;
    CutLength(b, c, p);
    var l := ReadLength(c, p);
    if l.Ok? { CutLength(b, c, l.next); }
  }

  lemma CutSimple(op: byte, special: bool, b: bytes, c: bytes, p: nat, st: Vars)
    requires b <= c && op in {254, 253, 252, 249, 248, 245}
    ensures Agree(SimpleItem(op, special, b, p, st), SimpleItem(op, special, c, p, st), |b|)
  {
    hide ReadLength, ReadBytes, ReadInt64, ReadString, FromLE;
    if op in {254, 248} {
      CutLength(b, c, p);
    } else if op == 253 {
      CutBytes(b, c, p, 4);
    } else if op == 252 {
      CutInt64(b, c, p);
    } else if op == 249 {
      CutBytes(b, c, p, 1);
    } else {
      CutString(b, c, p);
    }
  }

  lemma CutSlotInfo(b: bytes, c: bytes, p: nat, st: Vars)
    requires b <= c
    ensures Agree(SlotInfo(b, p, st), SlotInfo(c, p, st), |b|)
  {
    hide ReadLength;
    CutTwoLengths(b, c, p);
    var l := ReadLength(c, p);
    if l.Ok? {
      var m := ReadLength(c, l.next);
      if m.Ok? { CutLength(b, c, m.next); }
    }
  }

  lemma CutSlotImport(b: bytes, c: bytes, p: nat, st: Vars)
    requires b <= c
    ensures Agree(SlotImport(b, p, st), SlotImport(c, p, st), |b|)
  {
    hide ReadLength, ReadString, ReadRanges;
    CutString(b, c, p);
    var s := ReadString(c, p);
    if s.Ok? {
      CutLength(b, c, s.next);
      var n := ReadLength(c, s.next);
      if n.Ok? { CutRanges(b, c, n.next, n.value.n); }
    }
  }

  lemma CutObject(valkey: bool, t: byte, b: bytes, c: bytes, p: nat, st: Vars)
    requires b <= c
    ensures Agree(ObjectItem(valkey, t, b, p, st), ObjectItem(valkey, t, c, p, st), |b|)
  {
    hide ReadString, ReadPayload, Expiration;
    CutString(b, c, p);
    var key := ReadString(c, p);
    if key.Ok? { CutPayload(valkey, t, b, c, key.next); }
  }

  // Turns over a prefix and over the whole agree wherever one goes on and stays within the prefix.
  lemma CutTurn(valkey: bool, special: bool, b: bytes, c: bytes, p: nat, st: Vars)
    requires b <= c && p <= |b|
    ensures var short, long := Turn(valkey, special, b, p, st), Turn(valkey, special, c, p, st);
      && (!short.Halt? ==> long == short)
      && (!long.Halt? && long.next <= |b| ==> short == long)
  {
    hide SimpleItem, SlotInfo, SlotImport, ObjectItem, ReadString, ReadLength;
    if p < |b| {
      assert b[p] == c[p];
      var op := b[p];
      if op in {254, 253, 252, 249, 248, 245} {
        CutSimple(op, special, b, c, p + 1, st);
      } else if op == 251 {
        CutTwoLengths(b, c, p + 1);
      } else if op == 250 {
        CutTwoStrings(b, c, p + 1);
      } else if op == 244 {
        CutSlotInfo(b, c, p + 1, st);
      } else if op == 243 {
        CutSlotImport(b, c, p + 1, st);
      } else {
        CutObject(valkey, op, b, c, p + 1, st);
      }
    }
  }

  // Position k lies in the second half of the AUX or RESIZEDB item at p.
  predicate SecondHalf(c: bytes, p: nat, k: nat) {
    p < k && p < |c| &&
    if c[p] == 250 then
      var key := ReadString(c, p + 1);
      key.Ok? && key.next <= k
    else
      c[p] == 251 &&
      var keys := ReadLength(c, p + 1);
      keys.Ok? && keys.next <= k
  }

  // A turn cut off in its middle ends the loop, without an error exactly in a second half.
  lemma CutInside(valkey: bool, special: bool, b: bytes, c: bytes, p: nat, st: Vars)
    requires b <= c && p <= |b|
    requires var m := Turn(valkey, special, c, p, st); !m.Halt? && m.next > |b|
    ensures var m := Turn(valkey, special, b, p, st); m.Halt? && (m.error.None? <==> SecondHalf(c, p, |b|))
  {
    hide SimpleItem, SlotInfo, SlotImport, ObjectItem, ReadString, ReadLength;
    CutTurn(valkey, special, b, c, p, st);
    HaltsQuietly(valkey, special, b, p, st);
    if p < |b| {
      assert b[p] == c[p];
      CutTwoStrings(b, c, p + 1);
      CutTwoLengths(b, c, p + 1);
    }
  }

  // ------------------------------------------------------------------ whole parses

  // The turn of a parse of c that position k lies in has k in a second half.
  predicate Swallowed(valkey: bool, special: bool, c: bytes, p: nat, st: Vars, k: nat)
    decreases |c| - p
  {
    match Turn(valkey, special, c, p, st)
    case Halt(_) => false
    case Skip(st', q) => if q <= k then Swallowed(valkey, special, c, q, st', k) else SecondHalf(c, p, k)
    case Emit(_, st', q) => if q <= k then Swallowed(valkey, special, c, q, st', k) else SecondHalf(c, p, k)
  }

  // Any input cut off before its last turn: the events are the beginning of what they would have been,
  // and the error is dropped exactly in a second half.
  lemma {:induction false} ParseCut(valkey: bool, special: bool, b: bytes, c: bytes, p: nat, st: Vars, acc: seq<Event>)
    requires b <= c && p <= |b| <= LastTurn(valkey, special, All(), c, p, st).at
    ensures var short := Parse(valkey, special, All(), b, p, st, acc);
      && short.events <= Parse(valkey, special, All(), c, p, st, acc).events
      && (short.error.None? <==> Swallowed(valkey, special, c, p, st, |b|))
    decreases |c| - p
  {
    hide Turn, SecondHalf;
    CutTurn(valkey, special, b, c, p, st);
    ParseExtends(valkey, special, All(), c, p, st, acc);
    match Turn(valkey, special, c, p, st)
    case Halt(_) => AtEnd(valkey, special, b, st);
    case Skip(st', q) =>
      if q <= |b| {
        ParseCut(valkey, special, b, c, q, st', acc);
      } else {
        CutInside(valkey, special, b, c, p, st);
      }
    case Emit(event, st', q) =>
      if q <= |b| {
        ParseCut(valkey, special, b, c, q, st', acc + [event]);
      } else {
        CutInside(valkey, special, b, c, p, st);
      }
  }

  lemma AtEnd(valkey: bool, special: bool, b: bytes, st: Vars)
    ensures Turn(valkey, special, b, |b|, st) == Halt(Some(UnexpectedEnd))
  {}

  // ------------------------------------------------------------------ files of the encoder

  // Byte n of an AUX item lies in its second string.
  ghost predicate SecondString(a: Aux, n: int) {
    |a.key| < TWO64 && |a.value| < TWO64 && exists ek, ev ::
      StringForm(a.compress, a.key, ek) && StringForm(a.compress, a.value, ev)
      && a.raw == [250] + ek + ev && 1 + |ek| <= n < |a.raw|
  }

  // Byte n of a run of AUX items lies in the second string of one of them.
  ghost predicate CutInAux(aux: seq<Aux>, n: int) {
    exists i :: 0 <= i < |aux| && SecondString(aux[i], n - |AuxBytes(aux[..i])|)
  }

  // Byte n of a database lies in the second length of its RESIZEDB item.
  predicate SecondLength(s: Section, n: int) {
    var m := 1 + |LengthBytes(s.db)| + 1 + |LengthBytes(s.keys)|;
    m <= n < m + |LengthBytes(s.ttls)|
  }

  ghost predicate CutInSections(sections: seq<Section>, n: int) {
    exists i :: 0 <= i < |sections| && SecondLength(sections[i], n - |SectionsBytes(sections[..i])|)
  }

  // From p to q the parse goes on; a cut at k in between is in a second half exactly if half says so.
  predicate Passes(valkey: bool, special: bool, c: bytes, p: nat, st: Vars, q: nat, st': Vars, k: nat, half: bool) {
    && p <= q
    && LastTurn(valkey, special, All(), c, p, st) == LastTurn(valkey, special, All(), c, q, st')
    && (q <= k ==> Swallowed(valkey, special, c, p, st, k) == Swallowed(valkey, special, c, q, st', k))
    && (p <= k < q ==> Swallowed(valkey, special, c, p, st, k) == half)
  }

  lemma PassesNone(valkey: bool, special: bool, c: bytes, p: nat, st: Vars, k: nat)
    ensures Passes(valkey, special, c, p, st, p, st, k, false)
  {
    hide Swallowed, LastTurn;
  }

  lemma PassesOn(valkey: bool, special: bool, c: bytes, p: nat, st: Vars, q: nat, st': Vars, r: nat, st'': Vars,
                 k: nat, half: bool, half': bool)
    requires Passes(valkey, special, c, p, st, q, st', k, half) && Passes(valkey, special, c, q, st', r, st'', k, half')
    ensures Passes(valkey, special, c, p, st, r, st'', k, if k < q then half else half')
  {
    hide Swallowed, LastTurn;
  }

  lemma PassesTurn(valkey: bool, special: bool, c: bytes, p: nat, st: Vars, k: nat)
    requires !Turn(valkey, special, c, p, st).Halt?
    ensures var m := Turn(valkey, special, c, p, st);
      Passes(valkey, special, c, p, st, m.next, m.vars, k, SecondHalf(c, p, k))
  {
    hide Turn, SecondHalf;
  }

  lemma PassesAuxItem(valkey: bool, special: bool, c: bytes, p: nat, st: Vars, a: Aux, k: nat)
    requires AuxForm(a) && Packable(a.compress, a.key) && Packable(a.compress, a.value) && At(c, p, a.raw)
    ensures Passes(valkey, special, c, p, st, p + |a.raw|, st, k, SecondString(a, k - p))
  {
    hide At, Turn, Passes, StringForm, ReadString, ReadLength;
    TurnAux(valkey, special, c, p, st, a);
    PassesTurn(valkey, special, c, p, st, k);
    AuxHalf(c, p, a, k);
    PassesAs(valkey, special, c, p, st, p + |a.raw|, st, k, SecondHalf(c, p, k), SecondString(a, k - p));
  }

  lemma PassesAs(valkey: bool, special: bool, c: bytes, p: nat, st: Vars, q: nat, st': Vars, k: nat, half: bool,
                 half': bool)
    requires Passes(valkey, special, c, p, st, q, st', k, half) && (p <= k < q ==> half == half')
    ensures Passes(valkey, special, c, p, st, q, st', k, half')
  {
    hide Swallowed, LastTurn;
  }

  lemma AuxHalf(c: bytes, p: nat, a: Aux, k: nat)
    requires AuxForm(a) && Packable(a.compress, a.key) && At(c, p, a.raw)
    ensures p <= k < p + |a.raw| ==> (SecondHalf(c, p, k) <==> SecondString(a, k - p))
  {
    hide At, StringForm, ReadString, ReadLength;
    var ek, ev :| StringForm(a.compress, a.key, ek) && StringForm(a.compress, a.value, ev) && a.raw == [250] + ek + ev;
    AuxKeyEnds(c, p, a, ek, ev);
    if SecondString(a, k - p) {
      var fk, fv :| StringForm(a.compress, a.key, fk) && StringForm(a.compress, a.value, fv)
        && a.raw == [250] + fk + fv && 1 + |fk| <= k - p < |a.raw|;
      AuxKeyEnds(c, p, a, fk, fv);
    }
  }

  lemma AuxKeyEnds(c: bytes, p: nat, a: Aux, ek: bytes, ev: bytes)
    requires |a.key| < TWO64 && Packable(a.compress, a.key) && StringForm(a.compress, a.key, ek)
    requires a.raw == [250] + ek + ev && At(c, p, a.raw)
    ensures p < |c| && c[p] == 250 && ReadString(c, p + 1) == Ok(a.key, p + 1 + |ek|)
  {
    hide At, StringForm, ReadString;
    assert [250] + ek + ev == [250] + (ek + ev);
    OpAt(c, p, 250, ek + ev);
    AtConcat(c, p + 1, ek, ev);
    ReadStringForm(a.compress, c, p + 1, a.key, ek);
  }

  lemma {:induction false} AuxOffsets(aux: seq<Aux>, i: nat)
    requires i < |aux|
    ensures |AuxBytes(aux[..i])| + |aux[i].raw| <= |AuxBytes(aux)|
    decreases |aux|
  {
    if i == |aux| - 1 {
    } else {
      AuxOffsets(aux[..|aux| - 1], i);
      assert aux[..|aux| - 1][..i] == aux[..i];
    }
  }

  // Whether the cut is in the last item or before it.
  lemma CutInAuxLast(aux: seq<Aux>, n: int)
    requires aux != []
    ensures var init, a := aux[..|aux| - 1], aux[|aux| - 1];
      CutInAux(aux, n) <==> if n < |AuxBytes(init)| then CutInAux(init, n) else SecondString(a, n - |AuxBytes(init)|)
  {
    hide SecondString, AuxBytes;
    var init, last := aux[..|aux| - 1], |aux| - 1;
    forall i | 0 <= i < last ensures init[i] == aux[i] && init[..i] == aux[..i]
      && (n >= |AuxBytes(init)| ==> !SecondString(aux[i], n - |AuxBytes(aux[..i])|)) {
      AuxOffsets(init, i);
      SecondStringIn(aux[i], n - |AuxBytes(aux[..i])|);
    }
    SecondStringIn(aux[last], n - |AuxBytes(init)|);
  }

  lemma SecondStringIn(a: Aux, n: int)
    ensures SecondString(a, n) ==> 0 <= n < |a.raw|
  {}

  lemma {:induction false} PassesAux(valkey: bool, special: bool, c: bytes, p: nat, st: Vars, aux: seq<Aux>, k: nat)
    requires forall i :: 0 <= i < |aux| ==>
      AuxForm(aux[i]) && Packable(aux[i].compress, aux[i].key) && Packable(aux[i].compress, aux[i].value)
    requires At(c, p, AuxBytes(aux))
    ensures Passes(valkey, special, c, p, st, p + |AuxBytes(aux)|, st, k, CutInAux(aux, k - p))
    decreases |aux|
  {
    hide At, Passes, AuxForm, Packable, CutInAux, SecondString;
    if aux == [] {
      PassesNone(valkey, special, c, p, st, k);
      PassesAs(valkey, special, c, p, st, p, st, k, false, CutInAux(aux, k - p));
    } else {
      var init, a := aux[..|aux| - 1], aux[|aux| - 1];
      var q := p + |AuxBytes(init)|;
      AtConcat(c, p, AuxBytes(init), a.raw);
      PassesAux(valkey, special, c, p, st, init, k);
      PassesAuxItem(valkey, special, c, q, st, a, k);
      PassesOn(valkey, special, c, p, st, q, st, q + |a.raw|, st, k, CutInAux(init, k - p), SecondString(a, k - q));
      CutInAuxLast(aux, k - p);
    }
  }

  // Items other than AUX and RESIZEDB have no second half.
  lemma PassesWhole(valkey: bool, special: bool, c: bytes, p: nat, st: Vars, k: nat)
    requires p < |c| && c[p] !in {250, 251} && !Turn(valkey, special, c, p, st).Halt?
    ensures var m := Turn(valkey, special, c, p, st); Passes(valkey, special, c, p, st, m.next, m.vars, k, false)
  {
    hide Turn, Passes, ReadString, ReadLength;
    PassesTurn(valkey, special, c, p, st, k);
  }

  lemma PassesEntry(valkey: bool, special: bool, c: bytes, p: nat, st: Vars, e: Entry, k: nat) returns (st': Vars)
    requires EntryForm(valkey, e) && Faithful(e.cfg, e.key, e.value) && At(c, p, TTLBytes(e.ttl) + e.raw)
    ensures Passes(valkey, special, c, p, st, p + |TTLBytes(e.ttl) + e.raw|, st', k, false)
  {
    hide At, Turn, Passes, EntryForm, Reach, Carried, Meaning, LE, Expiration, Swallowed, LastTurn;
    AtConcat(c, p, TTLBytes(e.ttl), e.raw);
    var q, st1 := p, st;
    if e.ttl.Some? {
      TurnTTL(valkey, special, c, p, st, e.ttl.value);
      OpAt(c, p, 252, LE(e.ttl.value, 8));
      PassesWhole(valkey, special, c, p, st, k);
      q, st1 := p + 9, st.(expireMs := Signed(e.ttl.value, TWO64));
    } else {
      PassesNone(valkey, special, c, p, st, k);
    }
    TurnObject(valkey, special, c, q, st1, e);
    ObjectOp(valkey, c, q, e);
    PassesWhole(valkey, special, c, q, st1, k);
    st' := Turn(valkey, special, c, q, st1).vars;
    PassesOn(valkey, special, c, p, st, q, st1, q + |e.raw|, st', k, false, false);
  }

  lemma ObjectOp(valkey: bool, c: bytes, p: nat, e: Entry)
    requires EntryForm(valkey, e) && At(c, p, e.raw)
    ensures p < |c| && c[p] <= 24
  {
    hide At, StringForm, PayloadForm;
    var t := TypeByte(e.cfg, e.value);
    var ek, pl :| StringForm(e.cfg.compress, e.key, ek) && PayloadForm(e.cfg, e.value, pl) && e.raw == [t] + ek + pl;
    assert [t] + ek + pl == [t] + (ek + pl);
    OpAt(c, p, t, ek + pl);
    TypeByteIsNoOp(e.cfg, e.value);
  }

  lemma {:induction false} PassesEntries(valkey: bool, special: bool, c: bytes, p: nat, st: Vars, entries: seq<Entry>,
                                         k: nat)
    returns (st': Vars)
    requires forall i :: 0 <= i < |entries| ==> EntryForm(valkey, entries[i])
    requires EntriesFaithful(entries) && At(c, p, EntriesBytes(entries))
    ensures Passes(valkey, special, c, p, st, p + |EntriesBytes(entries)|, st', k, false)
    decreases |entries|
  {
    hide At, Passes, EntryForm, Faithful, TTLBytes;
    if entries == [] {
      st' := st;
      PassesNone(valkey, special, c, p, st, k);
    } else {
      var init, e := entries[..|entries| - 1], entries[|entries| - 1];
      var q := p + |EntriesBytes(init)|;
      AtConcat(c, p, EntriesBytes(init), TTLBytes(e.ttl) + e.raw);
      var st1 := PassesEntries(valkey, special, c, p, st, init, k);
      st' := PassesEntry(valkey, special, c, q, st1, e, k);
      PassesOn(valkey, special, c, p, st, q, st1, q + |TTLBytes(e.ttl) + e.raw|, st', k, false, false);
    }
  }

  lemma PassesResize(valkey: bool, special: bool, c: bytes, p: nat, st: Vars, keys: u64, ttls: u64, k: nat)
    requires At(c, p, [251] + (LengthBytes(keys) + LengthBytes(ttls)))
    ensures var m := p + 1 + |LengthBytes(keys)|;
      Passes(valkey, special, c, p, st, m + |LengthBytes(ttls)|, st, k, m <= k)
  {
    hide At, Turn, Passes, LengthBytes, ReadLength, ReadString;
    TurnResize(valkey, special, c, p, st, keys, ttls);
    PassesTurn(valkey, special, c, p, st, k);
    OpAt(c, p, 251, LengthBytes(keys) + LengthBytes(ttls));
    AtConcat(c, p + 1, LengthBytes(keys), LengthBytes(ttls));
    ReadLengthBytes(c, p + 1, keys);
    var m := p + 1 + |LengthBytes(keys)|;
    PassesAs(valkey, special, c, p, st, m + |LengthBytes(ttls)|, st, k, SecondHalf(c, p, k), m <= k);
  }

  lemma PassesSelect(valkey: bool, special: bool, c: bytes, p: nat, st: Vars, db: u64, k: nat)
    requires At(c, p, [254] + LengthBytes(db))
    ensures Passes(valkey, special, c, p, st, p + 1 + |LengthBytes(db)|, st.(db := Wrap64(db)), k, false)
  {
    hide At, Turn, Passes, LengthBytes, Wrap64;
    TurnSelect(valkey, special, c, p, st, db);
    OpAt(c, p, 254, LengthBytes(db));
    PassesWhole(valkey, special, c, p, st, k);
  }

  lemma PassesSection(valkey: bool, special: bool, c: bytes, p: nat, st: Vars, s: Section, k: nat) returns (st': Vars)
    requires SectionFormed(valkey, s) && EntriesFaithful(s.entries) && At(c, p, SectionBytes(s))
    ensures Passes(valkey, special, c, p, st, p + |SectionBytes(s)|, st', k, SecondLength(s, k - p))
  {
    hide At, Passes, EntryForm, Faithful, LengthBytes, EntriesBytes, EntriesFaithful, Wrap64;
    var select, sizes := [254] + LengthBytes(s.db), [251] + (LengthBytes(s.keys) + LengthBytes(s.ttls));
    assert DbBytes(s.db, s.keys, s.ttls) == select + sizes;
    AtConcat(c, p, DbBytes(s.db, s.keys, s.ttls), EntriesBytes(s.entries));
    AtConcat(c, p, select, sizes);
    var q, r := p + |select|, p + |select| + |sizes|;
    var st1 := st.(db := Wrap64(s.db));
    var m := q + 1 + |LengthBytes(s.keys)|;
    PassesSelect(valkey, special, c, p, st, s.db, k);
    PassesResize(valkey, special, c, q, st1, s.keys, s.ttls, k);
    PassesOn(valkey, special, c, p, st, q, st1, r, st1, k, false, m <= k);
    st' := PassesEntries(valkey, special, c, r, st1, s.entries, k);
    var end := r + |EntriesBytes(s.entries)|;
    PassesOn(valkey, special, c, p, st, r, st1, end, st', k, if k < q then false else m <= k, false);
    PassesAs(valkey, special, c, p, st, end, st', k, if k < r then if k < q then false else m <= k else false,
             SecondLength(s, k - p));
  }

  lemma {:induction false} SectionOffsets(sections: seq<Section>, i: nat)
    requires i < |sections|
    ensures |SectionsBytes(sections[..i])| + |SectionBytes(sections[i])| <= |SectionsBytes(sections)|
    decreases |sections|
  {
    hide SectionBytes;
    if i < |sections| - 1 {
      SectionOffsets(sections[..|sections| - 1], i);
      assert sections[..|sections| - 1][..i] == sections[..i];
    }
  }

  lemma SecondLengthIn(s: Section, n: int)
    ensures SecondLength(s, n) ==> 0 <= n < |SectionBytes(s)|
  {
    hide LengthBytes, EntriesBytes;
  }

  lemma CutInSectionsLast(sections: seq<Section>, n: int)
    requires sections != []
    ensures var init, s := sections[..|sections| - 1], sections[|sections| - 1];
      CutInSections(sections, n) <==>
        if n < |SectionsBytes(init)| then CutInSections(init, n) else SecondLength(s, n - |SectionsBytes(init)|)
  {
    hide SecondLength, SectionsBytes, SectionBytes;
    var init, last := sections[..|sections| - 1], |sections| - 1;
    forall i | 0 <= i < last ensures init[i] == sections[i] && init[..i] == sections[..i]
      && (n >= |SectionsBytes(init)| ==> !SecondLength(sections[i], n - |SectionsBytes(sections[..i])|)) {
      SectionOffsets(init, i);
      SecondLengthIn(sections[i], n - |SectionsBytes(sections[..i])|);
    }
    SecondLengthIn(sections[last], n - |SectionsBytes(init)|);
  }

  lemma {:induction false} PassesSections(valkey: bool, special: bool, c: bytes, p: nat, st: Vars,
                                          sections: seq<Section>, k: nat)
    returns (st': Vars)
    requires forall i :: 0 <= i < |sections| ==>
      SectionFormed(valkey, sections[i]) && EntriesFaithful(sections[i].entries)
    requires At(c, p, SectionsBytes(sections))
    ensures Passes(valkey, special, c, p, st, p + |SectionsBytes(sections)|, st', k, CutInSections(sections, k - p))
    decreases |sections|
  {
    hide At, Passes, SectionFormed, EntriesFaithful, SectionBytes, CutInSections, SecondLength;
    if sections == [] {
      st' := st;
      PassesNone(valkey, special, c, p, st, k);
      PassesAs(valkey, special, c, p, st, p, st, k, false, CutInSections(sections, k - p));
    } else {
      var init, s := sections[..|sections| - 1], sections[|sections| - 1];
      var q := p + |SectionsBytes(init)|;
      AtConcat(c, p, SectionsBytes(init), SectionBytes(s));
      var st1 := PassesSections(valkey, special, c, p, st, init, k);
      st' := PassesSection(valkey, special, c, q, st1, s, k);
      var r := q + |SectionBytes(s)|;
      PassesOn(valkey, special, c, p, st, q, st1, r, st', k, CutInSections(init, k - p), SecondLength(s, k - q));
      CutInSectionsLast(sections, k - p);
    }
  }

  // Position k of the file lies in the second string of an AUX item or the second length of a
  // RESIZEDB item.
  ghost predicate CutInHalf(d: Doc, k: int) {
    CutInAux(d.aux, k - 9) || CutInSections(d.sections, k - 9 - |AuxBytes(d.aux)|)
  }

  // Over a whole body: the last turn is at the end mark.
  lemma BodyPasses(valkey: bool, special: bool, d: Doc, k: nat)
    requires d.header && d.pending.None? && d.ended && Formed(valkey, d) && FaithfulDoc(d)
    requires k < |BodyBytes(valkey, d)|
    ensures var c := BodyBytes(valkey, d);
      && LastTurn(valkey, special, All(), c, 9, START).at == |c| - 1
      && (k >= 9 ==> (Swallowed(valkey, special, c, 9, START, k) <==> CutInHalf(d, k)))
  {
    hide At, AuxBytes, SectionsBytes, AuxForm, SectionFormed, EntriesFaithful, Packable, CutInAux, CutInSections,
      BodyBytes, Passes, LastTurn, Swallowed;
    var c := BodyBytes(valkey, d);
    var q := 9 + |AuxBytes(d.aux)|;
    var r := q + |SectionsBytes(d.sections)|;
    BodyParts(valkey, d);
    PassesAux(valkey, special, c, 9, START, d.aux, k);
    var st' := PassesSections(valkey, special, c, q, START, d.sections, k);
    var inAux, inSections := CutInAux(d.aux, k - 9), CutInSections(d.sections, k - q);
    PassesOn(valkey, special, c, 9, START, q, START, r, st', k, inAux, inSections);
    EndTurn(valkey, special, c, r, st', k);
    PassesToEnd(valkey, special, c, 9, START, r, st', k, if k < q then inAux else inSections);
    NotInBoth(d, k);
  }

  lemma PassesToEnd(valkey: bool, special: bool, c: bytes, p: nat, st: Vars, q: nat, st': Vars, k: nat, half: bool)
    requires Passes(valkey, special, c, p, st, q, st', k, half) && k <= q
    requires LastTurn(valkey, special, All(), c, q, st') == Last(q, false) && !Swallowed(valkey, special, c, q, st', k)
    ensures LastTurn(valkey, special, All(), c, p, st).at == q
    ensures k >= p ==> (Swallowed(valkey, special, c, p, st, k) <==> k < q && half)
  {
    hide Swallowed, LastTurn;
  }

  lemma BodyParts(valkey: bool, d: Doc)
    requires d.header && d.pending.None? && d.ended
    ensures var c, q := BodyBytes(valkey, d), 9 + |AuxBytes(d.aux)|;
      var r := q + |SectionsBytes(d.sections)|;
      At(c, 9, AuxBytes(d.aux)) && At(c, q, SectionsBytes(d.sections)) && At(c, r, [255]) && |c| == r + 1
  {
    hide At, HeaderBytes, AuxBytes, SectionsBytes, BodyBytes;
    var c := BodyBytes(valkey, d);
    var h, a, x := HeaderBytes(valkey), AuxBytes(d.aux), SectionsBytes(d.sections);
    BodyEnded(valkey, d);
    AtSelf(c);
    AtConcat(c, 0, h + a + x, [255]);
    AtConcat(c, 0, h + a, x);
    AtConcat(c, 0, h, a);
  }

  lemma EndTurn(valkey: bool, special: bool, c: bytes, p: nat, st: Vars, k: nat)
    requires At(c, p, [255])
    ensures LastTurn(valkey, special, All(), c, p, st) == Last(p, false) && !Swallowed(valkey, special, c, p, st, k)
  {
    hide SimpleItem, ResizeDb, AuxField, SlotInfo, SlotImport, ObjectItem;
    AtIndex(c, p, [255]);
    assert c[p + 0] == 255;
  }

  // A cut is in the AUX items or in the databases, or in neither.
  lemma NotInBoth(d: Doc, k: int)
    ensures CutInAux(d.aux, k - 9) ==> 0 <= k - 9 < |AuxBytes(d.aux)|
    ensures CutInSections(d.sections, k - 9 - |AuxBytes(d.aux)|) ==>
      9 + |AuxBytes(d.aux)| <= k < 9 + |AuxBytes(d.aux)| + |SectionsBytes(d.sections)|
  {
    hide CutInAux, CutInSections, AuxBytes, SectionsBytes;
    AuxCutIn(d.aux, k - 9);
    SectionsCutIn(d.sections, k - 9 - |AuxBytes(d.aux)|);
  }

  lemma AuxCutIn(aux: seq<Aux>, n: int)
    ensures CutInAux(aux, n) ==> 0 <= n < |AuxBytes(aux)|
  {
    hide SecondString, AuxBytes;
    if i :| 0 <= i < |aux| && SecondString(aux[i], n - |AuxBytes(aux[..i])|) {
      SecondStringIn(aux[i], n - |AuxBytes(aux[..i])|);
      AuxOffsets(aux, i);
    }
  }

  lemma SectionsCutIn(sections: seq<Section>, n: int)
    ensures CutInSections(sections, n) ==> 0 <= n < |SectionsBytes(sections)|
  {
    hide SecondLength, SectionsBytes, SectionBytes;
    if i :| 0 <= i < |sections| && SecondLength(sections[i], n - |SectionsBytes(sections[..i])|) {
      SecondLengthIn(sections[i], n - |SectionsBytes(sections[..i])|);
      SectionOffsets(sections, i);
    }
  }

  // A completed file cut off before its end mark is read: the events are the beginning of those of the
  // whole, and an error is reported unless the cut is in the second string of an AUX item or the
  // second length of a RESIZEDB item.
  lemma FileTruncated(valkey: bool, special: bool, d: Doc, k: nat)
    requires WellFormed(d) && d.ended && Formed(valkey, d) && FaithfulDoc(d) && k < |BodyBytes(valkey, d)|
    ensures var r := ParseFile(special, All(), BodyBytes(valkey, d)[..k]);
      r.events <= EventsOf(special, d) && (r.error.None? <==> CutInHalf(d, k))
  {
    hide BodyBytes, Formed, FaithfulDoc, EventsOf, CheckHeader, Parse, LastTurn, Swallowed, CutInHalf;
    var c := BodyBytes(valkey, d);
    var b := c[..k];
    AtSelf(c);
    ParseBody(valkey, special, c, d);
    BodyPasses(valkey, special, d, k);
    if k < 9 {
      ShortHeader(b);
      BeforeAll(d, k);
    } else {
      CutHeader(valkey, b, c);
      ParseCut(valkey, special, b, c, 9, START, []);
    }
  }

  lemma ShortHeader(b: bytes)
    requires |b| < 9
    ensures CheckHeader(b).Fail?
  {}

  lemma BeforeAll(d: Doc, k: nat)
    requires k < 9
    ensures !CutInHalf(d, k)
  {
    hide CutInAux, CutInSections, AuxBytes;
    NotInBoth(d, k);
  }

  lemma CutHeader(valkey: bool, b: bytes, c: bytes)
    requires b <= c && |b| >= 9 && At(c, 0, HeaderBytes(valkey))
    ensures CheckHeader(b) == Ok(Header(valkey, if valkey then 80 else 11), 9)
  {
    hide HeaderBytes, CheckHeader;
    AtSlice(c, 0, HeaderBytes(valkey));
    assert b[0..9] == c[0..9];
    HeaderReads(valkey, b);
  }

  // The checksum is not looked at: any bytes, or none, may follow the end mark.
  lemma ChecksumIgnored(valkey: bool, special: bool, d: Doc, rest: bytes)
    requires WellFormed(d) && d.ended && Formed(valkey, d) && FaithfulDoc(d)
    ensures ParseFile(special, All(), BodyBytes(valkey, d) + rest) == Parsed(EventsOf(special, d), None)
  {
    hide BodyBytes, Formed, FaithfulDoc, EventsOf, HeaderBytes, CheckHeader, Parse;
    var b, body := BodyBytes(valkey, d) + rest, BodyBytes(valkey, d);
    assert b[0..|body|] == body;
    ParseBody(valkey, special, b, d);
    HeaderReads(valkey, b);
  }

  // Every ended encoder: of any beginning of its output, a beginning of its objects is reported.
  lemma RunTruncated(enc: Encoding.Encoder, special: bool, k: nat)
    requires enc.Valid() && enc.state == EndP && FaithfulDoc(Run(enc.valkey, enc.calls).doc) && k <= |enc.out|
    ensures var r := ParseFile(special, All(), enc.out[..k]); var body := BodyBytes(enc.valkey, enc.doc);
      && r.events <= EventsOf(special, Run(enc.valkey, enc.calls).doc)
      && (r.error.None? <==> k >= |body| || CutInHalf(enc.doc, k))
  {
    hide BodyBytes, Formed, FaithfulDoc, EventsOf, ParseFile, Run, Dbs, Crc64.IsTable, Crc64.Fold, CutInHalf, Erase,
      Nats;
    var d := enc.doc;
    EraseFaithful(d);
    EraseEvents(special, d);
    var body := BodyBytes(enc.valkey, d);
    assert body <= enc.out;
    if k < |body| {
      FileTruncated(enc.valkey, special, d, k);
      assert enc.out[..k] == body[..k];
    } else {
      ChecksumIgnored(enc.valkey, special, d, enc.out[|body|..k]);
      assert enc.out[..k] == body + enc.out[|body|..k];
    }
  }
}
