/** The whole file: what the decoder reports of what the encoder wrote. */
module RoundTrip {
  import opened Bytes
  import opened Decimal
  import opened Strings
  import opened Sets
  import opened Hashes
  import opened Objects
  import opened Document
  import opened Parser
  import Encoding
  import Crc64

  // ------------------------------------------------------------------ the report of a document

  // The expiration reported for a TTL standing before an object.
  function Reported(ttl: Option<u64>): Option<int> {
    match ttl
    case None => None
    case Some(t) => Expiration(Signed(t, TWO64))
  }

  function EntryEvent(db: u64, e: Entry): Event {
    ObjectE(Wrap64(db), e.key, Reported(e.ttl), None, None, Meaning(e.value))
  }

  function EntryEvents(db: u64, entries: seq<Entry>): seq<Event> {
    if entries == [] then []
    else EntryEvents(db, entries[..|entries| - 1]) + [EntryEvent(db, entries[|entries| - 1])]
  }

  function DbEvents(special: bool, s: Section): seq<Event> {
    if special then [SizeE(Wrap64(s.db), s.keys, s.ttls)] else []
  }

  function SectionEvents(special: bool, s: Section): seq<Event> {
    DbEvents(special, s) + EntryEvents(s.db, s.entries)
  }

  function SectionsEvents(special: bool, sections: seq<Section>): seq<Event> {
    if sections == [] then []
    else SectionsEvents(special, sections[..|sections| - 1]) + SectionEvents(special, sections[|sections| - 1])
  }

  function AuxEvents(special: bool, aux: seq<Aux>): seq<Event> {
    if aux == [] || !special then []
    else
      var a := aux[|aux| - 1];
      AuxEvents(special, aux[..|aux| - 1]) + [AuxE(a.key, a.value)]
  }

  // Every object with its database, key, TTL and contents, in order; with special opcodes on, also
  // aux fields and database sizes.
  function EventsOf(special: bool, d: Doc): seq<Event> {
    AuxEvents(special, d.aux) + SectionsEvents(special, d.sections)
  }

  ghost predicate EntriesFaithful(entries: seq<Entry>) {
    forall i :: 0 <= i < |entries| ==> Faithful(entries[i].cfg, entries[i].key, entries[i].value)
  }

  ghost predicate FaithfulDoc(d: Doc) {
    && (forall i :: 0 <= i < |d.aux| ==>
      Packable(d.aux[i].compress, d.aux[i].key) && Packable(d.aux[i].compress, d.aux[i].value))
    && forall i :: 0 <= i < |d.sections| ==> EntriesFaithful(d.sections[i].entries)
  }

  // ------------------------------------------------------------------ one item at a time

  function All(): Event -> bool { _ => true }

  // Between items: no LRU or LFU waiting and no TTL that would be reported.
  predicate Idle(st: Vars) { st.expireMs <= 0 && st.lru.None? && st.lfu.None? }

  lemma ParseSkip(valkey: bool, special: bool, b: bytes, p: nat, st: Vars, acc: seq<Event>)
    requires Turn(valkey, special, b, p, st).Skip?
    ensures var m := Turn(valkey, special, b, p, st);
      Parse(valkey, special, All(), b, p, st, acc) == Parse(valkey, special, All(), b, m.next, m.vars, acc)
  {
    hide Turn;
  }

  lemma ParseEmit(valkey: bool, special: bool, b: bytes, p: nat, st: Vars, acc: seq<Event>)
    requires Turn(valkey, special, b, p, st).Emit?
    ensures var m := Turn(valkey, special, b, p, st);
      Parse(valkey, special, All(), b, p, st, acc) == Parse(valkey, special, All(), b, m.next, m.vars, acc + [m.event])
  {
    hide Turn;
  }

  lemma OpAt(b: bytes, p: nat, op: byte, e: bytes)
    requires At(b, p, [op] + e)
    ensures p < |b| && b[p] == op && At(b, p + 1, e)
  {
    AtConcat(b, p, [op], e);
    AtIndex(b, p, [op]);
    assert b[p + 0] == op;
  }

  lemma TurnTTL(valkey: bool, special: bool, b: bytes, p: nat, st: Vars, t: u64)
    requires At(b, p, [252] + LE(t, 8))
    ensures Turn(valkey, special, b, p, st) == Skip(st.(expireMs := Signed(t, TWO64)), p + 9)
  {
    hide LE, ReadInt64, At;
    OpAt(b, p, 252, LE(t, 8));
    ReadInt64Of(b, p + 1, t);
  }

  // An object within reach: the turn reports it exactly if its value is carried.
  lemma TurnObject(valkey: bool, special: bool, b: bytes, p: nat, st: Vars, e: Entry)
    requires EntryForm(valkey, e) && Reach(e.cfg, e.key, e.value) && At(b, p, e.raw)
    ensures var m := Turn(valkey, special, b, p, st);
      var event := ObjectE(st.db, e.key, Expiration(st.expireMs), st.lru, st.lfu, Meaning(e.value));
      if Carried(e.cfg, e.value)
        then m == Emit(event, Vars(st.db, if st.expireMs > 0 then 0 else st.expireMs, None, None), p + |e.raw|)
      else !m.Skip? && (m.Emit? ==> m.event != event)
  {
    hide ReadString, ReadPayload, At, EntryForm, Meaning, Reach, Carried, TypeByte, Expiration, SimpleItem, ResizeDb,
      AuxField, SlotInfo, SlotImport;
    var q := ObjectParts(valkey, b, p, e);
    TypeByteIsNoOp(e.cfg, e.value);
  }

  // Type byte, key and payload of an object; the payload starts at q.
  lemma ObjectParts(valkey: bool, b: bytes, p: nat, e: Entry) returns (q: nat)
    requires EntryForm(valkey, e) && Reach(e.cfg, e.key, e.value) && At(b, p, e.raw)
    ensures p < |b| && b[p] == TypeByte(e.cfg, e.value) && ReadString(b, p + 1) == Ok(e.key, q)
    ensures Reads(ReadPayload(valkey, b[p], b, q), Meaning(e.value), p + |e.raw|, Carried(e.cfg, e.value))
  {
    hide ReadString, ReadPayload, At, StringForm, PayloadForm, Meaning, Reach, Carried, TypeByte;
    var t := TypeByte(e.cfg, e.value);
    var ek, pl :| StringForm(e.cfg.compress, e.key, ek) && PayloadForm(e.cfg, e.value, pl) && e.raw == [t] + ek + pl;
    assert [t] + ek + pl == [t] + (ek + pl);
    OpAt(b, p, t, ek + pl);
    AtConcat(b, p + 1, ek, pl);
    ReachKey(e.cfg, e.key, e.value);
    ReadStringForm(e.cfg.compress, b, p + 1, e.key, ek);
    q := p + 1 + |ek|;
    ReadPayloadForm(e.cfg, b, q, e.key, e.value, pl);
  }

  lemma ReachKey(cfg: Config, key: bytes, value: Value)
    requires Reach(cfg, key, value)
    ensures Packable(cfg.compress, key)
  {}

  lemma TypeByteIsNoOp(cfg: Config, value: Value)
    ensures TypeByte(cfg, value) <= 24
  {}

  lemma TurnAux(valkey: bool, special: bool, b: bytes, p: nat, st: Vars, a: Aux)
    requires AuxForm(a) && Packable(a.compress, a.key) && Packable(a.compress, a.value) && At(b, p, a.raw)
    ensures Turn(valkey, special, b, p, st) ==
      if special then Emit(AuxE(a.key, a.value), st, p + |a.raw|) else Skip(st, p + |a.raw|)
  {
    hide ReadString, At, StringForm, SimpleItem, ResizeDb, SlotInfo, SlotImport, ObjectItem;
    var ek, ev :| StringForm(a.compress, a.key, ek) && StringForm(a.compress, a.value, ev) && a.raw == [250] + ek + ev;
    assert [250] + ek + ev == [250] + (ek + ev);
    OpAt(b, p, 250, ek + ev);
    AtConcat(b, p + 1, ek, ev);
    ReadStringForm(a.compress, b, p + 1, a.key, ek);
    ReadStringForm(a.compress, b, p + 1 + |ek|, a.value, ev);
  }

  lemma TurnSelect(valkey: bool, special: bool, b: bytes, p: nat, st: Vars, db: u64)
    requires At(b, p, [254] + LengthBytes(db))
    ensures Turn(valkey, special, b, p, st) == Skip(st.(db := Wrap64(db)), p + 1 + |LengthBytes(db)|)
  {
    hide ReadLength, At, LengthBytes;
    OpAt(b, p, 254, LengthBytes(db));
    ReadLengthBytes(b, p + 1, db);
  }

  lemma TurnResize(valkey: bool, special: bool, b: bytes, p: nat, st: Vars, keys: u64, ttls: u64)
    requires At(b, p, [251] + (LengthBytes(keys) + LengthBytes(ttls)))
    ensures var q := p + 1 + |LengthBytes(keys)| + |LengthBytes(ttls)|;
      Turn(valkey, special, b, p, st) == if special then Emit(SizeE(st.db, keys, ttls), st, q) else Skip(st, q)
  {
    hide ReadLength, At, LengthBytes, SimpleItem, AuxField, SlotInfo, SlotImport, ObjectItem;
    OpAt(b, p, 251, LengthBytes(keys) + LengthBytes(ttls));
    AtConcat(b, p + 1, LengthBytes(keys), LengthBytes(ttls));
    ReadLengthBytes(b, p + 1, keys);
    ReadLengthBytes(b, p + 1 + |LengthBytes(keys)|, ttls);
  }

  // ------------------------------------------------------------------ runs of items

  lemma ParseEntry(valkey: bool, special: bool, b: bytes, p: nat, st: Vars, acc: seq<Event>, db: u64,
                   e: Entry) returns (st': Vars)
    requires EntryForm(valkey, e) && Faithful(e.cfg, e.key, e.value) && Idle(st) && st.db == Wrap64(db)
    requires At(b, p, TTLBytes(e.ttl) + e.raw)
    ensures Idle(st') && st'.db == st.db
    ensures Parse(valkey, special, All(), b, p, st, acc) ==
      Parse(valkey, special, All(), b, p + |TTLBytes(e.ttl) + e.raw|, st', acc + [EntryEvent(db, e)])
  {
    hide At, Turn, Parse, EntryForm, Reach, Carried, Meaning, LE, Expiration;
    var q, st1 := p, st;
    AtConcat(b, p, TTLBytes(e.ttl), e.raw);
    if e.ttl.Some? {
      TurnTTL(valkey, special, b, p, st, e.ttl.value);
      ParseSkip(valkey, special, b, p, st, acc);
      q, st1 := p + 9, st.(expireMs := Signed(e.ttl.value, TWO64));
    }
    NotPositive(st.expireMs);
    TurnObject(valkey, special, b, q, st1, e);
    ParseEmit(valkey, special, b, q, st1, acc);
    st' := Vars(st1.db, if st1.expireMs > 0 then 0 else st1.expireMs, None, None);
  }

  lemma NotPositive(ms: int)
    ensures ms <= 0 ==> Expiration(ms) == None
  {}

  lemma {:induction false} ParseEntries(valkey: bool, special: bool, b: bytes, p: nat, st: Vars, acc: seq<Event>,
                                        db: u64, entries: seq<Entry>)
    returns (st': Vars)
    requires forall i :: 0 <= i < |entries| ==> EntryForm(valkey, entries[i])
    requires EntriesFaithful(entries) && Idle(st) && st.db == Wrap64(db) && At(b, p, EntriesBytes(entries))
    ensures Idle(st') && st'.db == st.db
    ensures Parse(valkey, special, All(), b, p, st, acc) ==
      Parse(valkey, special, All(), b, p + |EntriesBytes(entries)|, st', acc + EntryEvents(db, entries))
    decreases |entries|
  {
    hide At, Parse, EntryForm, Faithful, EntryEvent, TTLBytes, Idle;
    if entries == [] {
      st' := st;
      assert acc + [] == acc;
    } else {
      var init, e := entries[..|entries| - 1], entries[|entries| - 1];
      AtConcat(b, p, EntriesBytes(init), TTLBytes(e.ttl) + e.raw);
      var st1 := ParseEntries(valkey, special, b, p, st, acc, db, init);
      st' := ParseEntry(valkey, special, b, p + |EntriesBytes(init)|, st1, acc + EntryEvents(db, init), db, e);
      assert acc + EntryEvents(db, init) + [EntryEvent(db, e)] == acc + EntryEvents(db, entries);
    }
  }

  // The two items in front of a database's objects.
  lemma ParseDb(valkey: bool, special: bool, b: bytes, p: nat, st: Vars, acc: seq<Event>, s: Section)
    returns (st': Vars)
    requires Idle(st) && At(b, p, SectionBytes(s))
    ensures Idle(st') && st'.db == Wrap64(s.db)
    ensures var q := p + |DbBytes(s.db, s.keys, s.ttls)|;
      && At(b, q, EntriesBytes(s.entries)) && q + |EntriesBytes(s.entries)| == p + |SectionBytes(s)|
      && Parse(valkey, special, All(), b, p, st, acc) ==
         Parse(valkey, special, All(), b, q, st', acc + DbEvents(special, s))
  {
    hide At, Turn, Parse, LengthBytes, EntriesBytes, Wrap64;
    var select, sizes := [254] + LengthBytes(s.db), [251] + (LengthBytes(s.keys) + LengthBytes(s.ttls));
    assert DbBytes(s.db, s.keys, s.ttls) == select + sizes;
    AtConcat(b, p, DbBytes(s.db, s.keys, s.ttls), EntriesBytes(s.entries));
    AtConcat(b, p, select, sizes);
    var q := p + |select|;
    TurnSelect(valkey, special, b, p, st, s.db);
    ParseSkip(valkey, special, b, p, st, acc);
    st' := st.(db := Wrap64(s.db));
    TurnResize(valkey, special, b, q, st', s.keys, s.ttls);
    if special {
      ParseEmit(valkey, special, b, q, st', acc);
    } else {
      ParseSkip(valkey, special, b, q, st', acc);
      assert acc + DbEvents(special, s) == acc;
    }
  }

  lemma ParseSection(valkey: bool, special: bool, b: bytes, p: nat, st: Vars, acc: seq<Event>, s: Section)
      returns (st': Vars)
    requires SectionFormed(valkey, s) && EntriesFaithful(s.entries) && Idle(st) && At(b, p, SectionBytes(s))
    ensures Idle(st')
    ensures Parse(valkey, special, All(), b, p, st, acc) ==
      Parse(valkey, special, All(), b, p + |SectionBytes(s)|, st', acc + SectionEvents(special, s))
  {
    hide At, Turn, Parse, EntryForm, EntryEvents, EntriesBytes, DbBytes, EntriesFaithful, Wrap64, Idle, DbEvents;
    var st1 := ParseDb(valkey, special, b, p, st, acc, s);
    var q, acc1 := p + |DbBytes(s.db, s.keys, s.ttls)|, acc + DbEvents(special, s);
    st' := ParseEntries(valkey, special, b, q, st1, acc1, s.db, s.entries);
    assert acc1 + EntryEvents(s.db, s.entries) == acc + SectionEvents(special, s);
  }

  lemma {:induction false} ParseSections(valkey: bool, special: bool, b: bytes, p: nat, st: Vars, acc: seq<Event>,
                                         sections: seq<Section>)
    returns (st': Vars)
    requires forall i :: 0 <= i < |sections| ==>
      SectionFormed(valkey, sections[i]) && EntriesFaithful(sections[i].entries)
    requires Idle(st) && At(b, p, SectionsBytes(sections))
    ensures Idle(st')
    ensures Parse(valkey, special, All(), b, p, st, acc) ==
      Parse(valkey, special, All(), b, p + |SectionsBytes(sections)|, st', acc + SectionsEvents(special, sections))
    decreases |sections|
  {
    hide At, Parse, SectionFormed, EntriesFaithful, SectionEvents, SectionBytes, Idle;
    if sections == [] {
      st' := st;
      assert acc + [] == acc;
    } else {
      var init, s := sections[..|sections| - 1], sections[|sections| - 1];
      AtConcat(b, p, SectionsBytes(init), SectionBytes(s));
      var st1 := ParseSections(valkey, special, b, p, st, acc, init);
      st' := ParseSection(valkey, special, b, p + |SectionsBytes(init)|, st1, acc + SectionsEvents(special, init), s);
      assert acc + SectionsEvents(special, init) + SectionEvents(special, s) == acc + SectionsEvents(special, sections);
    }
  }

  lemma {:induction false} ParseAux(valkey: bool, special: bool, b: bytes, p: nat, st: Vars, acc: seq<Event>,
                                    aux: seq<Aux>)
    requires forall i :: 0 <= i < |aux| ==>
      AuxForm(aux[i]) && Packable(aux[i].compress, aux[i].key) && Packable(aux[i].compress, aux[i].value)
    requires At(b, p, AuxBytes(aux))
    ensures Parse(valkey, special, All(), b, p, st, acc) ==
      Parse(valkey, special, All(), b, p + |AuxBytes(aux)|, st, acc + AuxEvents(special, aux))
    decreases |aux|
  {
    hide At, Parse, Turn, AuxForm, Packable;
    if aux == [] {
      assert acc + [] == acc;
    } else {
      var init, a := aux[..|aux| - 1], aux[|aux| - 1];
      AtConcat(b, p, AuxBytes(init), a.raw);
      ParseAux(valkey, special, b, p, st, acc, init);
      var q, acc1 := p + |AuxBytes(init)|, acc + AuxEvents(special, init);
      TurnAux(valkey, special, b, q, st, a);
      if special {
        ParseEmit(valkey, special, b, q, st, acc1);
        assert acc1 + [AuxE(a.key, a.value)] == acc + AuxEvents(special, aux);
      } else {
        ParseSkip(valkey, special, b, q, st, acc1);
        assert acc1 == acc + AuxEvents(special, aux);
      }
    }
  }

  lemma HeaderReads(valkey: bool, b: bytes)
    requires At(b, 0, HeaderBytes(valkey))
    ensures CheckHeader(b) == Ok(Header(valkey, if valkey then 80 else 11), 9)
  {
    var h := HeaderBytes(valkey);
    AtSlice(b, 0, h);
    if valkey {
      assert h[..6] == VALKEY && h[..5] != REDIS by { assert h[..5][0] == 86; }
      var t := h[6..];
      assert t == [48, 56, 48];
      ThreeDigits(48, 56, 48);
    } else {
      assert h[..5] == REDIS;
      var t := h[5..];
      assert t == [48, 48, 49, 49];
      assert t[..3] == [48, 48, 49];
      ThreeDigits(48, 48, 49);
    }
  }

  lemma ThreeDigits(x: byte, y: byte, z: byte)
    requires IsDigit(x) && IsDigit(y) && IsDigit(z)
    ensures Digits([x, y, z])
      && Decimal.Value([x, y, z]) == (x - 48) as int * 100 + (y - 48) as int * 10 + (z - 48) as int
  {
    var s := [x, y, z];
    assert s[..2] == [x, y] && [x, y][..1] == [x] && [x][..0] == [];
    assert Decimal.Value([x]) == x - 48;
    assert Decimal.Value([x, y]) == Decimal.Value([x]) * 10 + (y - 48);
  }

  // ------------------------------------------------------------------ the whole file

  lemma ParseBody(valkey: bool, special: bool, b: bytes, d: Doc)
    requires d.header && d.pending.None? && d.ended && Formed(valkey, d) && FaithfulDoc(d)
    requires At(b, 0, BodyBytes(valkey, d))
    ensures At(b, 0, HeaderBytes(valkey))
    ensures Parse(valkey, special, All(), b, 9, START, []) == Parsed(EventsOf(special, d), None)
  {
    hide At, Turn, HeaderBytes, AuxBytes, SectionsBytes, Parse, AuxForm, SectionFormed, EntriesFaithful, Packable;
    var h, a, x := HeaderBytes(valkey), AuxBytes(d.aux), SectionsBytes(d.sections);
    BodyEnded(valkey, d);
    AtConcat(b, 0, h + a + x, [255]);
    AtConcat(b, 0, h + a, x);
    AtConcat(b, 0, h, a);
    ParseAux(valkey, special, b, 9, START, [], d.aux);
    var st' := ParseSections(valkey, special, b, 9 + |a|, START, [] + AuxEvents(special, d.aux), d.sections);
    var q := 9 + |a| + |x|;
    ParseEnd(valkey, special, b, q, st', [] + AuxEvents(special, d.aux) + SectionsEvents(special, d.sections));
    assert [] + AuxEvents(special, d.aux) + SectionsEvents(special, d.sections) == EventsOf(special, d);
  }

  lemma BodyEnded(valkey: bool, d: Doc)
    requires d.header && d.pending.None? && d.ended
    ensures BodyBytes(valkey, d) == HeaderBytes(valkey) + AuxBytes(d.aux) + SectionsBytes(d.sections) + [255]
  {
    hide HeaderBytes, AuxBytes, SectionsBytes;
  }

  lemma ParseEnd(valkey: bool, special: bool, b: bytes, p: nat, st: Vars, acc: seq<Event>)
    requires At(b, p, [255])
    ensures Parse(valkey, special, All(), b, p, st, acc) == Parsed(acc, None)
  {
    hide SimpleItem, ResizeDb, AuxField, SlotInfo, SlotImport, ObjectItem;
    AtIndex(b, p, [255]);
    assert b[p + 0] == 255;
  }

  // Whole-file round trip: a completed, well-formed file of faithful items is reported in full and
  // in order, without an error, whatever follows it.
  lemma FileRoundTrip(valkey: bool, special: bool, d: Doc, tab: seq<bv64>, rest: bytes)
    requires |tab| == 256 && WellFormed(d) && d.ended && Formed(valkey, d) && FaithfulDoc(d)
    ensures ParseFile(special, All(), FileBytes(valkey, d, tab) + rest) == Parsed(EventsOf(special, d), None)
  {
    hide BodyBytes, Formed, FaithfulDoc, EventsOf, Crc64.Fold, Nats, HeaderBytes, CheckHeader, Parse;
    var b := FileBytes(valkey, d, tab) + rest;
    var body := BodyBytes(valkey, d);
    assert b[0..|body|] == body;
    ParseBody(valkey, special, b, d);
    HeaderReads(valkey, b);
  }

  // A callback that stops early gets the beginning of that report.
  lemma FileStops(valkey: bool, special: bool, cb: Event -> bool, d: Doc, tab: seq<bv64>)
    requires |tab| == 256 && WellFormed(d) && d.ended && Formed(valkey, d) && FaithfulDoc(d)
    ensures ParseFile(special, cb, FileBytes(valkey, d, tab)) == Parsed(UpToRefusal(EventsOf(special, d), cb), None)
  {
    hide BodyBytes, Formed, FaithfulDoc, EventsOf, Crc64.Fold, Nats, HeaderBytes, CheckHeader, Parse, FileBytes;
    var b := FileBytes(valkey, d, tab);
    FileRoundTrip(valkey, special, d, tab, []);
    assert b + [] == b;
    FileAt(valkey, d, tab);
    HeaderReads(valkey, b);
    CallbackStops(valkey, special, cb, b, 9, START, []);
    var all := EventsOf(special, d);
    AllIs(valkey, special, b, 9);
    assert all[0..] == all;
    assert [] + UpToRefusal(all, cb) == UpToRefusal(all, cb);
  }

  lemma AllIs(valkey: bool, special: bool, b: bytes, p: nat)
    ensures Parse(valkey, special, _ => true, b, p, START, []) == Parse(valkey, special, All(), b, p, START, [])
  {
    ParseSame(valkey, special, _ => true, All(), b, p, START, []);
  }

  lemma {:induction false} ParseSame(valkey: bool, special: bool, f: Event -> bool, g: Event -> bool, b: bytes, p: nat,
                                     st: Vars, acc: seq<Event>)
    requires forall e :: f(e) == g(e)
    ensures Parse(valkey, special, f, b, p, st, acc) == Parse(valkey, special, g, b, p, st, acc)
    decreases |b| - p
  {
    hide Turn;
    match Turn(valkey, special, b, p, st)
    case Halt(_) =>
    case Skip(st', q) => ParseSame(valkey, special, f, g, b, q, st', acc);
    case Emit(event, st', q) => if f(event) { ParseSame(valkey, special, f, g, b, q, st', acc + [event]); }
  }

  lemma FileAt(valkey: bool, d: Doc, tab: seq<bv64>)
    requires |tab| == 256 && d.header && d.ended && d.pending.None?
    ensures At(FileBytes(valkey, d, tab), 0, HeaderBytes(valkey))
  {
    hide AuxBytes, SectionsBytes, Crc64.Fold, Nats, HeaderBytes;
    var b, h := FileBytes(valkey, d, tab), HeaderBytes(valkey);
    BodyEnded(valkey, d);
    assert b[0..9] == h;
  }

  // ------------------------------------------------------------------ runs of the encoder

  lemma EraseFaithful(d: Doc)
    ensures FaithfulDoc(Erase(d)) <==> FaithfulDoc(d)
  {
    hide Faithful, Packable;
    var r := Erase(d);
    assert forall i :: 0 <= i < |d.aux| ==> r.aux[i] == d.aux[i].(raw := []);
    forall i | 0 <= i < |d.sections|
      ensures EntriesFaithful(r.sections[i].entries) <==> EntriesFaithful(d.sections[i].entries)
    {
      EraseEntriesFaithful(d.sections[i].entries);
    }
  }

  lemma EraseEntriesFaithful(entries: seq<Entry>)
    ensures EntriesFaithful(EraseEntries(entries)) <==> EntriesFaithful(entries)
  {
    hide Faithful;
    var r := EraseEntries(entries);
    assert forall i :: 0 <= i < |entries| ==> r[i] == entries[i].(raw := []);
  }

  lemma {:induction false} EraseEntryEvents(db: u64, entries: seq<Entry>)
    ensures EntryEvents(db, EraseEntries(entries)) == EntryEvents(db, entries)
    decreases |entries|
  {
    hide Meaning, Reported;
    if entries != [] {
      var init := entries[..|entries| - 1];
      assert EraseEntries(entries)[..|entries| - 1] == EraseEntries(init);
      EraseEntryEvents(db, init);
    }
  }

  lemma {:induction false} EraseSectionsEvents(special: bool, sections: seq<Section>)
    ensures SectionsEvents(special, EraseSections(sections)) == SectionsEvents(special, sections)
    decreases |sections|
  {
    hide EntryEvents, EraseEntries;
    if sections != [] {
      var init, s := sections[..|sections| - 1], sections[|sections| - 1];
      assert EraseSections(sections)[..|sections| - 1] == EraseSections(init);
      EraseSectionsEvents(special, init);
      EraseEntryEvents(s.db, s.entries);
    }
  }

  lemma {:induction false} EraseAuxEvents(special: bool, aux: seq<Aux>, erased: seq<Aux>)
    requires |erased| == |aux| && forall i :: 0 <= i < |aux| ==> erased[i] == aux[i].(raw := [])
    ensures AuxEvents(special, erased) == AuxEvents(special, aux)
    decreases |aux|
  {
    if aux != [] { EraseAuxEvents(special, aux[..|aux| - 1], erased[..|aux| - 1]); }
  }

  lemma EraseEvents(special: bool, d: Doc)
    ensures EventsOf(special, Erase(d)) == EventsOf(special, d)
  {
    hide AuxEvents, SectionsEvents;
    EraseAuxEvents(special, d.aux, Erase(d).aux);
    EraseSectionsEvents(special, d.sections);
  }

  // Every completed run: what the calls asked for, as Run says, is what the decoder reports.
  lemma RunRoundTrip(enc: Encoding.Encoder, special: bool, cb: Event -> bool)
    requires enc.Valid() && enc.state == EndP && FaithfulDoc(Run(enc.valkey, enc.calls).doc)
    ensures ParseFile(special, cb, enc.out) ==
      Parsed(UpToRefusal(EventsOf(special, Run(enc.valkey, enc.calls).doc), cb), None)
  {
    hide FileBytes, BodyBytes, Formed, FaithfulDoc, EventsOf, Crc64.Fold, Erase, Bv, ParseFile, UpToRefusal, Run, Dbs,
      Crc64.IsTable;
    var d := enc.doc;
    EraseFaithful(d);
    EraseEvents(special, d);
    FileStops(enc.valkey, special, cb, d, enc.digest.tab[..]);
  }

  // ------------------------------------------------------------------ TTLs

  // A TTL comes back as the same instant exactly up to 9223372036854 ms; above that, the conversion
  // to nanoseconds wraps, and a TTL of zero or of 2^63 and more is not reported at all.
  lemma TTLReported(t: u64)
    ensures Reported(Some(t)) == Some(t * 1_000_000) <==> 1 <= t <= 9_223_372_036_854
    ensures Reported(Some(t)).None? <==> t == 0 || t >= 0x8000_0000_0000_0000
  {
    if t < 0x8000_0000_0000_0000 && t > 0 { SignedUnsigned(t * 1_000_000, TWO64); }
  }

  // The first TTL that goes wrong: 9223372036855 ms is reported as an instant before the epoch.
  lemma TTLOverflows()
    ensures Reported(Some(9_223_372_036_855)) == Some(-9_223_372_036_854_551_616)
  {}

  // Every object is reported with the TTL its own call asked for.
  ghost predicate OwnTTLs(d: Doc) {
    forall i, j :: 0 <= i < |d.sections| && 0 <= j < |d.sections[i].entries| ==>
      Reported(d.sections[i].entries[j].ttl) == Reported(d.sections[i].entries[j].own)
  }

  // A call that is rejected for its second TTL option after its first one has been written, the
  // first one being one that is reported.
  ghost predicate Leaks(s: State, c: Call) {
    && c.WriteObject? && |c.options| >= 2 && Reported(Some(c.options[0])).Some?
    && PhaseOf(s.doc) in {DbP, ObjectP}
  }

  ghost predicate LeakFree(valkey: bool, calls: seq<Call>) {
    forall i :: 0 <= i < |calls| ==> !Leaks(Run(valkey, calls[..i]), calls[i])
  }

  lemma AddOwn(d: Doc, e: Entry)
    requires d.sections != []
    ensures OwnTTLs(AddEntry(d, e)) <==> OwnTTLs(d) && Reported(e.ttl) == Reported(e.own)
  {
    hide Reported;
    var n := |d.sections| - 1;
    var m := |d.sections[n].entries|;
    var d' := AddEntry(d, e);
    assert d'.sections[n].entries[m] == e;
    assert forall i :: 0 <= i < n ==> d'.sections[i] == d.sections[i];
    assert forall j :: 0 <= j < m ==> d'.sections[n].entries[j] == d.sections[n].entries[j];
    if OwnTTLs(d') {
      forall i, j | 0 <= i < |d.sections| && 0 <= j < |d.sections[i].entries|
        ensures Reported(d.sections[i].entries[j].ttl) == Reported(d.sections[i].entries[j].own)
      {
        assert d'.sections[i].entries[j] == d.sections[i].entries[j];
      }
    }
  }

  // What a TTL left behind does to the next object.
  ghost predicate NoneWaiting(d: Doc) { Reported(d.pending).None? }

  lemma StepOwn(s: State, c: Call)
    requires WellFormed(s.doc)
    ensures OwnTTLs(Step(s, c).0.doc) && NoneWaiting(Step(s, c).0.doc)
      <==> OwnTTLs(s.doc) && NoneWaiting(s.doc) && !Leaks(s, c)
  {
    hide Reported;
    var d := s.doc;
    if c.WriteObject? {
      StepOwnObject(s, c);
    } else if c.WriteDBHeader? {
      NothingReported();
      assert forall i :: 0 <= i < |d.sections| ==>
        Step(s, c).0.doc.sections == d.sections || Step(s, c).0.doc.sections[i] == d.sections[i];
    }
  }

  lemma NothingReported()
    ensures Reported(None) == None
  {}

  lemma StepOwnObject(s: State, c: Call)
    requires WellFormed(s.doc) && c.WriteObject?
    ensures OwnTTLs(Step(s, c).0.doc) && NoneWaiting(Step(s, c).0.doc)
      <==> OwnTTLs(s.doc) && NoneWaiting(s.doc) && !Leaks(s, c)
  {
    hide Reported, OwnTTLs, AddEntry;
    NothingReported();
    var d := s.doc;
    if Accepts(PhaseOf(d), c.options) {
      var ttl := if c.options == [] then d.pending else Some(c.options[0]);
      var e := Entry(ttl, OwnTTL(c.options), s.cfg, c.key, c.content, []);
      AddOwn(d, e);
      AddPending(d, e);
      assert Step(s, c).0.doc == AddEntry(d, e);
    } else if Allowed(PhaseOf(d), ObjectP) && c.options != [] && Allowed(PhaseOf(d), TTLP) {
      SameOwn(d, d.(pending := Some(c.options[0])));
    }
  }

  lemma AddPending(d: Doc, e: Entry)
    requires d.sections != []
    ensures AddEntry(d, e).pending == None
  {}

  lemma SameOwn(d: Doc, d': Doc)
    requires d.sections == d'.sections
    ensures OwnTTLs(d) <==> OwnTTLs(d')
  {}

  // TTLs are attached to their own objects exactly when no call leaks one: in every run that ends
  // with no TTL waiting, completed runs included.
  lemma {:induction false} OwnTTLsIffLeakFree(valkey: bool, calls: seq<Call>)
    ensures OwnTTLs(Run(valkey, calls).doc) && NoneWaiting(Run(valkey, calls).doc) <==> LeakFree(valkey, calls)
    decreases |calls|
  {
    hide Reported, Step, Leaks, OwnTTLs, NoneWaiting, LeakFree;
    if calls == [] {
      NothingReported();
      EmptyOwn(valkey);
    } else {
      var n := |calls| - 1;
      OwnTTLsIffLeakFree(valkey, calls[..n]);
      StepOwn(Run(valkey, calls[..n]), calls[n]);
      LeakFreeSnoc(valkey, calls);
    }
  }

  lemma LeakFreeSnoc(valkey: bool, calls: seq<Call>)
    requires calls != []
    ensures var n := |calls| - 1;
      LeakFree(valkey, calls) <==> LeakFree(valkey, calls[..n]) && !Leaks(Run(valkey, calls[..n]), calls[n])
  {
    hide Leaks, Run;
    var n := |calls| - 1;
    var init := calls[..n];
    assert forall i :: 0 <= i < n ==> init[..i] == calls[..i] && init[i] == calls[i];
    if LeakFree(valkey, init) && !Leaks(Run(valkey, init), calls[n]) {
      forall i | 0 <= i < |calls| ensures !Leaks(Run(valkey, calls[..i]), calls[i]) {
        if i < n { assert !Leaks(Run(valkey, init[..i]), init[i]); }
      }
    }
    if LeakFree(valkey, calls) {
      forall i | 0 <= i < n ensures !Leaks(Run(valkey, init[..i]), init[i]) {
        assert !Leaks(Run(valkey, calls[..i]), calls[i]);
      }
      assert !Leaks(Run(valkey, calls[..n]), calls[n]);
    }
  }

  lemma EmptyOwn(valkey: bool)
    ensures OwnTTLs(Run(valkey, []).doc) && NoneWaiting(Run(valkey, []).doc) && LeakFree(valkey, [])
  {}

  // A completed run has no TTL waiting.
  lemma CompletedOwnTTLs(valkey: bool, calls: seq<Call>)
    requires Run(valkey, calls).doc.ended
    ensures OwnTTLs(Run(valkey, calls).doc) <==> LeakFree(valkey, calls)
  {
    hide OwnTTLs, LeakFree, Run;
    NothingReported();
    OwnTTLsIffLeakFree(valkey, calls);
  }

  // The leak: an object call with two TTLs is rejected, and the next object, written without a TTL,
  // is reported with the first of them. s is any state with a database just selected.
  lemma LeakExample(s: State, t: u64, t': u64, key: bytes, value: Value)
    requires WellFormed(s.doc) && PhaseOf(s.doc) == DbP && 1 <= t < 0x8000_0000_0000_0000
    ensures var (s1, ok1) := Step(s, WriteObject(key, value, [t, t']));
      var (s2, ok2) := Step(s1, WriteObject(key, value, []));
      var es := s2.doc.sections[|s2.doc.sections| - 1].entries;
      && !ok1 && ok2 && Leaks(s, WriteObject(key, value, [t, t']))
      && |es| == 1 && es[0].own == None && es[0].ttl == Some(t) && Reported(es[0].ttl).Some? && !OwnTTLs(s2.doc)
  {
    hide Dbs;
    var s1 := Step(s, WriteObject(key, value, [t, t'])).0;
    assert s1.doc == s.doc.(pending := Some(t));
    var s2 := Step(s1, WriteObject(key, value, [])).0;
    var e := Entry(Some(t), None, s.cfg, key, value, []);
    assert s2.doc == AddEntry(s1.doc, e);
    AddOwn(s1.doc, e);
    TTLReported(t);
  }
}
