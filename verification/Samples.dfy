/** The formats on concrete bytes: what the layouts look like, byte by byte. */
module Samples {
  import opened Bytes
  import opened Decimal
  import opened Strings
  import opened Ziplist
  import opened Sets
  import opened Hashes
  import opened Objects
  import opened Document
  import opened Parser
  import opened RoundTrip
  import Lists
  import Listpack
  import Lzf
  import Streams
  import Truncation

  // ------------------------------------------------------------------ the pieces

  // Lengths in one, two, five and nine bytes.
  lemma Lengths()
    ensures LengthBytes(10) == [0x0a] && LengthBytes(700) == [0x42, 0xbc]
    ensures LengthBytes(17000) == [0x80, 0x00, 0x00, 0x42, 0x68]
    ensures LengthBytes(TWO32) == [0x81, 0, 0, 0, 1, 0, 0, 0, 0]
  {
    assert BE(17000, 4) == [0x00, 0x00, 0x42, 0x68];
    assert BE(TWO32, 8) == [0, 0, 0, 1, 0, 0, 0, 0];
  }

  // Integer forms of strings.
  lemma Integers()
    ensures IntForm(10) == [0xc0, 0x0a] && IntForm(1000) == [0xc1, 0xe8, 0x03]
    ensures IntForm(100000) == [0xc2, 0xa0, 0x86, 0x01, 0x00]
  {
    assert LE(1000, 2) == [0xe8, 0x03];
    assert LE(100000, 4) == [0xa0, 0x86, 0x01, 0x00];
  }

  // The ziplist of "2" and "5".
  lemma TwoAndFive()
    ensures ZipListBytes([[50], [53]]) == [0x0f, 0, 0, 0, 0x0c, 0, 0, 0, 2, 0, 0x00, 0xf3, 0x02, 0xf6, 0xff]
  {
    hide Entries, LE, Start;
    var values: seq<bytes> := [[50], [53]];
    TwoEntries(values);
    SmallLE(15);
    SmallLE(12);
    SmallLE(2);
    assert Start(values, 2) == 14 && Start(values, 1) == 12 by { StartIs(values); }
  }

  lemma StartIs(values: seq<bytes>)
    requires Encodes(values) && |values| == 2
    ensures Start(values, 1) == 10 + |Entries(values, 1)| && Start(values, 2) == 10 + |Entries(values, 2)|
  {
    hide Entries;
  }

  lemma SmallLE(n: nat)
    requires n < 256
    ensures LE(n, 4) == [n, 0, 0, 0] && LE(n, 2) == [n, 0]
  {
    assert LE(0, 1) == [0] && LE(0, 2) == [0, 0] && LE(0, 3) == [0, 0, 0];
  }

  lemma TwoEntries(values: seq<bytes>)
    requires values == [[50], [53]]
    ensures Entries(values, 1) == [0x00, 0xf3] && Entries(values, 2) == [0x00, 0xf3, 0x02, 0xf6]
  {
    hide Encodable;
    Numbers();
    ModUnique(2, TWO32, 0, 2);
    assert Ziplist.Entry(values, 0) == [0x00, 0xf3];
    assert Ziplist.Entry(values, 1) == [0x02, 0xf6];
    assert Entries(values, 0) == [];
    assert Entries(values, 1) == [0x00, 0xf3];
  }

  lemma Numbers()
    ensures Encodable([50], MAX_INT64) == Some(2) && Encodable([53], MAX_INT64) == Some(5)
  {
    assert [50][..0] == [] && [53][..0] == [];
    assert Decimal.Value([50]) == 2 && Decimal.Value([53]) == 5;
  }

  // The intset of 1, 2 and 3.
  lemma OneTwoThree()
    ensures IntSetBytes([1, 2, 3], Width([1, 2, 3])) == [2, 0, 0, 0, 3, 0, 0, 0, 1, 0, 2, 0, 3, 0]
  {
    hide LE;
    SmallLE(1);
    SmallLE(2);
    SmallLE(3);
    assert [1, 2, 3][1..] == [2, 3] && [2, 3][1..] == [3] && [3][1..] == [];
    assert Cells([3], 2) == [3, 0] && Cells([2, 3], 2) == [2, 0, 3, 0];
  }

  // The longest reference at the least distance, and the shortest at the greatest.
  lemma References()
    ensures Lzf.RefToken(0, 264) == [0xe0, 0xff, 0x00] && Lzf.RefToken(8191, 3) == [0x3f, 0xff]
  {}

  // The listpack of 1 and "ab".
  lemma SmallListpack()
    ensures var items := [Listpack.IntItem(1), Listpack.StrItem([97, 98])];
      Listpack.AllFit(items) && Listpack.ListpackBytes(items) == [12, 0, 0, 0, 2, 0, 0x01, 1, 0x82, 97, 98, 3]
  {
    hide LE;
    SmallLE(12);
    SmallLE(2);
    var x, y := Listpack.IntItem(1), Listpack.StrItem([97, 98]);
    assert Listpack.Element(x) == [1, 1];
    assert Listpack.Element(y) == [0x82, 97, 98, 3];
    assert [x, y][1..] == [y] && [y][1..] == [];
    assert Listpack.Elements([y]) == [0x82, 97, 98, 3];
    assert Listpack.Elements([x, y]) == [1, 1, 0x82, 97, 98, 3];
  }

  // The numbers of the layouts.
  lemma TypeNumbers(cfg: Config, values: seq<bytes>, hash: Hash, expire: Expiry)
    ensures TypeByte(cfg, StringV([])) == 0 && TypeByte(cfg, HashExV(hash, expire)) == if cfg.valkey then 22 else 24
    ensures TypeByte(cfg, ListV(values)) == if ListInZipList(cfg, values) then 10 else 14
    ensures TypeByte(cfg, SetV(values)) == if AllInts(values) then 11 else 2
    ensures TypeByte(cfg, HashV(hash)) == if HashInZipList(cfg, hash) then 13 else 4
  {}

  // Without options a list or hash is a ziplist up to 512 entries, with values up to 64 bytes.
  lemma DefaultLimits(compress: bool, valkey: bool, values: seq<bytes>, hash: Hash)
    ensures var cfg := Config(compress, valkey, ZipListOpt(0, 0), ZipListOpt(0, 0));
      && (ListInZipList(cfg, values) <==> |values| <= 512 && forall i :: 0 <= i < |values| ==> |values[i]| <= 64)
      && (HashInZipList(cfg, hash) <==> |hash| <= 512 && forall f :: f in hash ==> |hash[f]| <= 64)
  {}

  // Both headers, and numerals of either sign.
  lemma Headers()
    ensures HeaderBytes(false) == [82, 69, 68, 73, 83, 48, 48, 49, 49]
    ensures HeaderBytes(true) == [86, 65, 76, 75, 69, 89, 48, 56, 48]
  {}

  lemma SignedNumerals()
    ensures Itoa(-24) == [45, 50, 52] && Itoa(0) == [48] && Itoa(1000) == [49, 48, 48, 48]
  {
    assert Numeral(24) == Numeral(2) + [52];
    assert Numeral(10) == Numeral(1) + [48] && Numeral(100) == Numeral(10) + [48];
    assert Numeral(1000) == Numeral(100) + [48];
  }

  lemma Limits()
    ensures Lists.LIST_ZIPLIST_SIZE == 4096 && EB_EXPIRE_TIME_MAX == 0xffff_ffff_ffff
  {}

  // With compression on, twenty equal bytes are written plain, and one more packed.
  lemma TwentyBytes(s: bytes, e: bytes)
    requires (forall k :: 0 <= k < |s| ==> s[k] == s[0]) && 0 < |s| <= TWO32 && BlobForm(true, s, e)
    ensures |s| <= 20 ==> e == PlainForm(s)
    ensures |s| > 20 ==> e != PlainForm(s) && e[0] == 0xc3
  {
    hide Lzf.Expand, Lzf.NoRepeat, Lzf.Budget, LengthBytes;
    if |s| > 20 {
      Lzf.EqualRepeats(s);
      assert Shrinks(s);
      var z :| Packs(z, s) && e == PackedForm(s, z);
      LengthFirst(|s|);
      assert PlainForm(s)[0] == LengthBytes(|s|)[0];
    }
  }

  // "abcd" over and over, 22 bytes of it or more, is packed as well.
  lemma AbcdShrinks(s: bytes)
    requires 22 <= |s| <= 8196 && forall k :: 0 <= k < |s| ==> s[k] == 97 + k % 4
    ensures Lzf.Repeats(s, 4)
  {
    hide Lzf.Hash;
    assert s[0] == 97 && s[1] == 98 && s[2] == 99 && s[3] == 100 && s[4] == 97 && s[5] == 98;
    FourSlots();
  }

  lemma FourSlots()
    ensures Lzf.Hash(Lzf.Three(97, 98, 99)) == 11369 && Lzf.Hash(Lzf.Three(98, 99, 100)) == 10148
    ensures Lzf.Hash(Lzf.Three(99, 100, 97)) == 8948 && Lzf.Hash(Lzf.Three(100, 97, 98)) == 12846
  {
    hide Lzf.Hash;
    HashIs(6382179, 6232, -1948, 11369);
    HashIs(6447972, 6296, -1968, 10148);
    HashIs(6513761, 6361, -1988, 8948);
    HashIs(6578530, 6424, -2008, 12846);
  }

  lemma HashIs(h: nat, d: nat, q: int, slot: nat)
    requires d * 1024 <= h < d * 1024 + 1024 && slot < 0x4000 && d - h * 5 == q * 0x4000 + slot
    ensures Lzf.Hash(h) == slot
  {
    ModUnique(d - h * 5, 0x4000, q, slot);
  }

  lemma LengthFirst(n: nat)
    requires n < TWO64
    ensures LengthBytes(n)[0] <= 0x81
  {}

  // ------------------------------------------------------------------ a file

  // An aux field "a" = "b", and in database 3 the string "k" = "v" with a TTL of 5 ms.
  lemma SmallFile(cfg: Config, d: Doc)
    requires cfg.compress == false == cfg.valkey && WellFormed(d) && Formed(false, d) && |d.aux| == 1 == |d.sections|
    requires d.header && d.ended && d.pending.None? && d.aux[0] == Aux(false, [97], [98], d.aux[0].raw)
    requires d.sections[0].db == 3 && d.sections[0].keys == 1 == d.sections[0].ttls && |d.sections[0].entries| == 1
    requires d.sections[0].entries[0] ==
      Entry(Some(5), Some(5), cfg, [107], StringV([118]), d.sections[0].entries[0].raw)
    ensures var b := SMALL_FILE;
      && BodyBytes(false, d) == b
      && ParseFile(true, All(), b) == Parsed([AuxE([97], [98]), SizeE(3, 1, 1),
           ObjectE(3, [107], Some(5_000_000), None, None, StringD([118]))], None)
  {
    hide EntryForm, AuxForm, ParseFile, BodyBytes, AuxBytes, EntriesBytes, SectionsBytes, EventsOf, FaithfulDoc;
    var s, e := d.sections[0], d.sections[0].entries[0];
    assert SectionFormed(false, s);
    OneAux(d.aux[0]);
    OneEntry(e);
    assert d.aux == [d.aux[0]] && s.entries == [e] && d.sections == [s];
    SmallBytes(d, s, e);
    SmallEvents(d, s, e);
    Truncation.ChecksumIgnored(false, true, d, []);
    assert SMALL_FILE + [] == SMALL_FILE;
  }

  lemma SmallBytes(d: Doc, s: Section, e: Entry)
    requires d.header && d.ended && d.pending.None? && |d.aux| == 1 && d.sections == [s] && s.entries == [e]
    requires d.aux[0].raw == [250, 1, 97, 1, 98] && s.db == 3 && s.keys == 1 == s.ttls
    requires e.ttl == Some(5) && e.raw == [0, 1, 107, 1, 118]
    ensures BodyBytes(false, d) == SMALL_FILE
  {
    hide BodyBytes, AuxBytes, SectionsBytes;
    BodyEnded(false, d);
    AuxPart(d.aux);
    SectionPart(d.sections, s, e);
    var h, a, x := HeaderBytes(false), AuxBytes(d.aux), SectionsBytes(d.sections);
    assert h == [82, 69, 68, 73, 83, 48, 48, 49, 49];
    assert h + a + x + [255] == SMALL_FILE;
  }

  lemma AuxPart(aux: seq<Aux>)
    requires |aux| == 1 && aux[0].raw == [250, 1, 97, 1, 98]
    ensures AuxBytes(aux) == [250, 1, 97, 1, 98]
  {
    assert aux[..0] == [];
    assert AuxBytes(aux) == [] + [250, 1, 97, 1, 98];
  }

  lemma SectionPart(sections: seq<Section>, s: Section, e: Entry)
    requires sections == [s] && s.entries == [e] && s.db == 3 && s.keys == 1 == s.ttls
    requires e.ttl == Some(5) && e.raw == [0, 1, 107, 1, 118]
    ensures SectionsBytes(sections) ==
      [254, 3, 251, 1, 1, 252, 5, 0, 0, 0, 0, 0, 0, 0, 0, 1, 107, 1, 118]
  {
    hide LE;
    FiveLE();
    assert sections[..0] == [] && s.entries[..0] == [];
    assert TTLBytes(e.ttl) + e.raw == [252, 5, 0, 0, 0, 0, 0, 0, 0, 0, 1, 107, 1, 118];
    assert EntriesBytes(s.entries) == [] + (TTLBytes(e.ttl) + e.raw);
    assert DbBytes(3, 1, 1) == [254, 3, 251, 1, 1];
    assert SectionsBytes(sections) == [] + SectionBytes(s);
  }

  lemma FiveLE()
    ensures LE(5, 8) == [5, 0, 0, 0, 0, 0, 0, 0]
  {}

  const SMALL_FILE: bytes := [82, 69, 68, 73, 83, 48, 48, 49, 49, 250, 1, 97, 1, 98, 254, 3, 251, 1, 1,
    252, 5, 0, 0, 0, 0, 0, 0, 0, 0, 1, 107, 1, 118, 255]

  lemma OneByteString(c: byte, e: bytes)
    requires c >= 58 && StringForm(false, [c], e)
    ensures e == [1, c]
  {
    assert !Canonical([c]);
    assert LengthBytes(1) == [1];
  }

  lemma OneAux(a: Aux)
    requires a == Aux(false, [97], [98], a.raw) && AuxForm(a)
    ensures a.raw == [250, 1, 97, 1, 98]
  {
    hide StringForm;
    var ek, ev :| StringForm(a.compress, a.key, ek) && StringForm(a.compress, a.value, ev) && a.raw == [250] + ek + ev;
    OneByteString(97, ek);
    OneByteString(98, ev);
  }

  lemma OneEntry(e: Entry)
    requires e.key == [107] && e.value == StringV([118]) && !e.cfg.compress && EntryForm(false, e)
    ensures e.raw == [0, 1, 107, 1, 118]
  {
    hide StringForm;
    var ek, pl :| StringForm(e.cfg.compress, e.key, ek) && PayloadForm(e.cfg, e.value, pl)
      && e.raw == [TypeByte(e.cfg, e.value)] + ek + pl;
    OneByteString(107, ek);
    OneByteString(118, pl);
  }

  lemma SmallEvents(d: Doc, s: Section, e: Entry)
    requires |d.aux| == 1 && d.aux[0] == Aux(false, [97], [98], d.aux[0].raw) && d.sections == [s] && s.entries == [e]
    requires s.db == 3 && s.keys == 1 == s.ttls && !e.cfg.compress
    requires e.ttl == Some(5) && e.key == [107] && e.value == StringV([118])
    ensures FaithfulDoc(d)
    ensures EventsOf(true, d) == [AuxE([97], [98]), SizeE(3, 1, 1),
      ObjectE(3, [107], Some(5_000_000), None, None, StringD([118]))]
  {
    assert d.aux[..0] == [] && s.entries[..0] == [] && d.sections[..0] == [];
    ModUnique(3, TWO64, 0, 3);
    ModUnique(5_000_000, TWO64, 0, 5_000_000);
    assert EntryEvent(3, e) == ObjectE(3, [107], Some(5_000_000), None, None, StringD([118]));
    assert EntryEvents(3, s.entries) == [EntryEvent(3, e)];
    assert SectionEvents(true, s) == [SizeE(3, 1, 1), EntryEvent(3, e)];
    assert SectionsEvents(true, d.sections) == SectionEvents(true, s);
    assert AuxEvents(true, d.aux) == [AuxE([97], [98])];
  }

  // ------------------------------------------------------------------ a stream node

  // One message 7-2 with a field "f" that the master has, in a node that starts at 5-1.
  lemma SmallNode(order: seq<bytes>)
    requires order == [[102]]
    ensures var m := Streams.Message(Streams.StreamId(7, 2), map[[102] := [118]], true);
      var node := Streams.Node(Streams.StreamId(5, 1), [[102]], [m]);
      Streams.Orders(node.msgs, [order]) &&
      Streams.NodeItems(node, [order]) ==
        [Listpack.IntItem(0), Listpack.IntItem(1), Listpack.IntItem(1), Listpack.StrItem([102]), Listpack.StrItem([49]),
         Listpack.IntItem(3), Listpack.IntItem(2), Listpack.IntItem(1), Listpack.StrItem([118]), Listpack.StrItem([49])]
  {
    var m := Streams.Message(Streams.StreamId(7, 2), map[[102] := [118]], true);
    var node := Streams.Node(Streams.StreamId(5, 1), [[102]], [m]);
    assert Streams.Orders(node.msgs, [order]);
    assert [m][1..] == [] && [[102]][1..] == [] && [order][1..] == [] && [[118]][1..] == [];
    ModUnique(2, TWO64, 0, 2);
    ModUnique(1, TWO64, 0, 1);
    assert Streams.ValuesOf(m.fields, [[102]]) == [[118]];
    assert Streams.StrItems([[118]]) == [Listpack.StrItem([118])];
    assert Streams.StrItems([[102]]) == [Listpack.StrItem([102])];
    assert |m.fields| == 1 by { assert m.fields.Keys == {[102]}; }
    assert Itoa(1) == [49];
    assert Streams.SameFields(m, [[102]]) && Streams.Deleted([m]) == 1;
    assert Streams.MasterItems(node) ==
      [Listpack.IntItem(0), Listpack.IntItem(1), Listpack.IntItem(1), Listpack.StrItem([102]), Listpack.StrItem([49])];
    assert Streams.MessageItems(node.firstId, m, [[102]], order) ==
      [Listpack.IntItem(3), Listpack.IntItem(2), Listpack.IntItem(1), Listpack.StrItem([118]), Listpack.StrItem([49])];
    assert Streams.MessagesItems(node.firstId, [m][1..], [[102]], [order][1..]) == [];
    assert Streams.MessagesItems(node.firstId, [m], [[102]], [order]) ==
      Streams.MessageItems(node.firstId, m, [[102]], order) + [];
  }
}
