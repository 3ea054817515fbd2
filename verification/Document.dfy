/** An RDB file as a document - header, aux fields, databases of objects, end mark and checksum - and
    the encoder's public calls as steps on documents (core/encoder.go). */
module Document {
  import opened Bytes
  import opened Strings
  import opened Objects
  import Crc64

  // ------------------------------------------------------------------ documents

  // raw is the bytes the item was written as.
  datatype Aux = Aux(compress: bool, key: bytes, value: bytes, raw: bytes)

  // ttl is the TTL standing before the object, own the one its call asked for.
  datatype Entry = Entry(ttl: Option<u64>, own: Option<u64>, cfg: Config, key: bytes, value: Value, raw: bytes)

  datatype Section = Section(db: u64, keys: u64, ttls: u64, entries: seq<Entry>)

  // pending is a TTL whose object has not been written yet.
  datatype Doc = Doc(header: bool, aux: seq<Aux>, sections: seq<Section>, pending: Option<u64>, ended: bool)

  const EMPTY := Doc(false, [], [], None, false)

  // ------------------------------------------------------------------ their bytes

  function HeaderBytes(valkey: bool): (e: bytes)
    ensures |e| == 9
  {
    if valkey then [86, 65, 76, 75, 69, 89, 48, 56, 48]  // VALKEY080
    else [82, 69, 68, 73, 83, 48, 48, 49, 49]            // REDIS0011
  }

  function AuxBytes(aux: seq<Aux>): bytes {
    if aux == [] then [] else AuxBytes(aux[..|aux| - 1]) + aux[|aux| - 1].raw
  }

  function TTLBytes(ttl: Option<u64>): bytes {
    match ttl
    case None => []
    case Some(t) => [252] + LE(t, 8)
  }

  function EntriesBytes(entries: seq<Entry>): bytes {
    if entries == [] then []
    else
      var e := entries[|entries| - 1];
      EntriesBytes(entries[..|entries| - 1]) + (TTLBytes(e.ttl) + e.raw)
  }

  function DbBytes(db: u64, keys: u64, ttls: u64): bytes {
    [254] + LengthBytes(db) + [251] + LengthBytes(keys) + LengthBytes(ttls)
  }

  function SectionBytes(s: Section): bytes
  {
    DbBytes(s.db, s.keys, s.ttls) + EntriesBytes(s.entries)
  }

  function SectionsBytes(sections: seq<Section>): bytes
  {
    if sections == [] then []
    else SectionsBytes(sections[..|sections| - 1]) + SectionBytes(sections[|sections| - 1])
  }

  // Everything before the checksum.
  function BodyBytes(valkey: bool, d: Doc): bytes
  {
    if !d.header then []
    else
      HeaderBytes(valkey) + AuxBytes(d.aux) + SectionsBytes(d.sections) + TTLBytes(d.pending)
      + if d.ended then [255] else []
  }

  // ------------------------------------------------------------------ checksums of bytes

  function Bv(p: bytes): (r: seq<bv8>)
    ensures |r| == |p|
  {
    seq(|p|, i requires 0 <= i < |p| => Crc64.Byte(p[i]))
  }

  function Nats(p: seq<bv8>): (r: bytes)
    ensures |r| == |p|
  {
    seq(|p|, i requires 0 <= i < |p| => Crc64.Nat(p[i]))
  }

  lemma BvConcat(p: bytes, q: bytes)
    ensures Bv(p + q) == Bv(p) + Bv(q)
  {
    hide Crc64.Byte;
    assert Bv(p + q) == Bv(p) + Bv(q);
  }

  lemma BvNats(p: seq<bv8>)
    ensures Bv(Nats(p)) == p
  {
    hide Crc64.Byte, Crc64.Nat;
    forall i | 0 <= i < |p| ensures Bv(Nats(p))[i] == p[i] {
      Crc64.ByteNat(p[i]);
    }
  }

  // The file: the body, and once it is ended the checksum of the body.
  function FileBytes(valkey: bool, d: Doc, tab: seq<bv64>): bytes
    requires |tab| == 256
  {
    var body := BodyBytes(valkey, d);
    if d.ended then body + Nats(Crc64.LittleEndian(Crc64.Fold(tab, 0, Bv(body)))) else body
  }

  // ------------------------------------------------------------------ phases

  // The encoder's states.
  datatype Phase = StartP | HeaderP | AuxP | DbP | TTLP | ObjectP | EndP

  // stateChanges
  predicate Allowed(from: Phase, to: Phase) {
    match from
    case StartP => to == HeaderP
    case HeaderP => to in {AuxP, DbP, EndP}
    case AuxP => to in {AuxP, DbP, EndP}
    case DbP => to in {TTLP, ObjectP}
    case TTLP => to == ObjectP
    case ObjectP => to in {TTLP, ObjectP, DbP, EndP}
    case EndP => false
  }

  // The state a document leaves the encoder in.
  function PhaseOf(d: Doc): Phase {
    if !d.header then StartP
    else if d.ended then EndP
    else if d.pending.Some? then TTLP
    else if d.sections == [] then if d.aux == [] then HeaderP else AuxP
    else if d.sections[|d.sections| - 1].entries == [] then DbP
    else ObjectP
  }

  function Dbs(d: Doc): set<u64> { set i | 0 <= i < |d.sections| :: d.sections[i].db }

  // The grammar header aux* (db (ttl? object)+)* eof, cut off anywhere: only the last database may
  // still be empty, a TTL may be waiting in it, no database is selected twice, and an ended file
  // has neither an empty database nor a waiting TTL.
  ghost predicate WellFormed(d: Doc) {
    && (!d.header ==> d == EMPTY)
    && (d.pending.Some? ==> d.sections != [] && !d.ended)
    && (forall i :: 0 <= i < |d.sections| - 1 ==> d.sections[i].entries != [])
    && (d.ended && d.sections != [] ==> d.sections[|d.sections| - 1].entries != [])
    && (forall i, j :: 0 <= i < j < |d.sections| ==> d.sections[i].db != d.sections[j].db)
  }

  // ------------------------------------------------------------------ calls

  datatype Call =
    | WriteHeader
    | WriteAux(key: bytes, value: bytes)
    | WriteDBHeader(db: u64, keys: u64, ttls: u64)
    | WriteObject(key: bytes, content: Value, options: seq<u64>) // the TTL options
    | WriteEnd
    | EnableCompress
    | SetListZipListOpt(opt: ZipListOpt)
    | SetHashZipListOpt(opt: ZipListOpt)

  datatype State = State(cfg: Config, doc: Doc)

  // Appends to the last database.
  function AddEntry(d: Doc, e: Entry): Doc
    requires d.sections != []
  {
    var n := |d.sections| - 1;
    d.(sections := d.sections[..n] + [d.sections[n].(entries := d.sections[n].entries + [e])], pending := None)
  }

  // What a call does and whether it is accepted. An object call writes its first TTL before it
  // finds that a second one is not allowed: rejected, it leaves the first TTL behind.
  ghost function Step(s: State, c: Call): (r: (State, bool))
    requires WellFormed(s.doc)
    ensures WellFormed(r.0.doc) && r.0.cfg.valkey == s.cfg.valkey
  {
    var d := s.doc;
    var phase := PhaseOf(d);
    match c
    case WriteHeader =>
      if Allowed(phase, HeaderP) then (s.(doc := d.(header := true)), true) else (s, false)
    case WriteAux(key, value) =>
      if Allowed(phase, AuxP) then (s.(doc := d.(aux := d.aux + [Aux(s.cfg.compress, key, value, [])])), true)
        else (s, false)
    case WriteDBHeader(db, keys, ttls) =>
      if Allowed(phase, DbP) && db !in Dbs(d)
      then (s.(doc := d.(sections := d.sections + [Section(db, keys, ttls, [])])), true) else (s, false)
    case WriteObject(key, value, options) =>
      if !Allowed(phase, ObjectP) then (s, false)
      else if options != [] && !Allowed(phase, TTLP) then (s, false)
      else
        var ttl := if options == [] then d.pending else Some(options[0]);
        if |options| > 1 then (s.(doc := d.(pending := ttl)), false)
        else
          var own := if options == [] then None else Some(options[0]);
          (s.(doc := AddEntry(d, Entry(ttl, own, s.cfg, key, value, []))), true)
    case WriteEnd =>
      if Allowed(phase, EndP) then (s.(doc := d.(ended := true)), true) else (s, false)
    case EnableCompress => (s.(cfg := s.cfg.(compress := true)), true)
    case SetListZipListOpt(opt) => (s.(cfg := s.cfg.(list := opt)), true)
    case SetHashZipListOpt(opt) => (s.(cfg := s.cfg.(hash := opt)), true)
  }

  function Initial(valkey: bool): State {
    State(Config(false, valkey, ZipListOpt(0, 0), ZipListOpt(0, 0)), EMPTY)
  }

  // The state after any sequence of calls, accepted or rejected: every run keeps the grammar.
  ghost function Run(valkey: bool, calls: seq<Call>): (s: State)
    ensures WellFormed(s.doc) && s.cfg.valkey == valkey
  {
    if calls == [] then Initial(valkey) else Step(Run(valkey, calls[..|calls| - 1]), calls[|calls| - 1]).0
  }

  // Nothing changes after the end.
  lemma EndIsFinal(s: State, c: Call)
    requires s.doc.ended && WellFormed(s.doc)
    ensures Step(s, c).0.doc == s.doc
  {}

  // ------------------------------------------------------------------ documents without their bytes

  function EraseEntries(entries: seq<Entry>): (r: seq<Entry>)
    ensures |r| == |entries| && forall i :: 0 <= i < |r| ==> r[i] == entries[i].(raw := [])
  {
    seq(|entries|, i requires 0 <= i < |entries| => entries[i].(raw := []))
  }

  function EraseSections(sections: seq<Section>): (r: seq<Section>)
    ensures |r| == |sections| && forall i :: 0 <= i < |r| ==>
      r[i] == sections[i].(entries := EraseEntries(sections[i].entries))
  {
    seq(|sections|, i requires 0 <= i < |sections| => sections[i].(entries := EraseEntries(sections[i].entries)))
  }

  // The document a run of calls asks for: everything but the bytes chosen for each item.
  function Erase(d: Doc): Doc {
    d.(aux := seq(|d.aux|, i requires 0 <= i < |d.aux| => d.aux[i].(raw := [])), sections := EraseSections(d.sections))
  }

  lemma EraseShape(d: Doc)
    ensures PhaseOf(Erase(d)) == PhaseOf(d) && Dbs(Erase(d)) == Dbs(d) && (WellFormed(Erase(d)) <==> WellFormed(d))
  {
    var r := Erase(d);
    assert forall i :: 0 <= i < |d.sections| ==>
      r.sections[i].db == d.sections[i].db && (r.sections[i].entries == [] <==> d.sections[i].entries == []);
    if r == EMPTY { assert d == EMPTY; }
    forall x ensures x in Dbs(r) <==> x in Dbs(d) {
      if x in Dbs(r) {
        var i :| 0 <= i < |r.sections| && r.sections[i].db == x;
        assert d.sections[i].db == x;
      }
      if x in Dbs(d) {
        var i :| 0 <= i < |d.sections| && d.sections[i].db == x;
        assert r.sections[i].db == x;
      }
    }
  }

  lemma EraseAux(d: Doc, a: Aux)
    ensures Erase(d.(aux := d.aux + [a])) == Erase(d).(aux := Erase(d).aux + [a.(raw := [])])
  {}

  lemma EraseDb(d: Doc, s: Section)
    requires s.entries == []
    ensures Erase(d.(sections := d.sections + [s])) == Erase(d).(sections := Erase(d).sections + [s])
  {
    assert EraseEntries([]) == [];
    assert EraseSections(d.sections + [s]) == EraseSections(d.sections) + [s];
  }

  lemma EraseEntry(d: Doc, e: Entry)
    requires d.sections != []
    ensures Erase(AddEntry(d, e)) == AddEntry(Erase(d), e.(raw := []))
  {
    var n := |d.sections| - 1;
    var es := d.sections[n].entries;
    assert EraseEntries(es + [e]) == EraseEntries(es) + [e.(raw := [])];
    var x, y := EraseSections(AddEntry(d, e).sections), AddEntry(Erase(d), e.(raw := [])).sections;
    assert |x| == |y| == n + 1 && x[n] == y[n];
    assert x == y;
  }

  // ------------------------------------------------------------------ object calls, seen from the document

  predicate Accepts(phase: Phase, options: seq<u64>) {
    Allowed(phase, ObjectP) && (options == [] || (Allowed(phase, TTLP) && |options| == 1))
  }

  // The document once the TTL options of an object call have been dealt with.
  function WithTTL(d: Doc, options: seq<u64>): Doc {
    if Allowed(PhaseOf(d), ObjectP) && options != [] && Allowed(PhaseOf(d), TTLP)
    then d.(pending := Some(options[0]))
    else d
  }

  function OwnTTL(options: seq<u64>): Option<u64> { if options == [] then None else Some(options[0]) }

  lemma RunSnoc(valkey: bool, calls: seq<Call>, c: Call)
    ensures Run(valkey, calls + [c]) == Step(Run(valkey, calls), c).0
  {
    assert (calls + [c])[..|calls|] == calls;
  }

  lemma HeaderStep(s: State, d: Doc)
    requires WellFormed(s.doc) && WellFormed(d) && s.doc == Erase(d)
    ensures Step(s, WriteHeader) ==
      if Allowed(PhaseOf(d), HeaderP) then (State(s.cfg, Erase(d.(header := true))), true) else (s, false)
  {
    EraseShape(d);
    hide EraseSections;
  }

  // When the state of a document allows each kind of item.
  lemma PhaseAllows(d: Doc)
    requires WellFormed(d)
    ensures var open := d.header && !d.ended; var last := |d.sections| - 1;
      && (Allowed(PhaseOf(d), HeaderP) <==> !d.header)
      && (Allowed(PhaseOf(d), AuxP) <==> open && d.sections == [])
      && (Allowed(PhaseOf(d), DbP) <==>
         open && d.pending.None? && (d.sections == [] || d.sections[last].entries != []))
      && (Allowed(PhaseOf(d), EndP) <==> Allowed(PhaseOf(d), DbP))
      && (Allowed(PhaseOf(d), ObjectP) <==> open && d.sections != [])
      && (Allowed(PhaseOf(d), TTLP) <==> open && d.sections != [] && d.pending.None?)
  {}

  lemma AuxStep(s: State, d: Doc, key: bytes, value: bytes, raw: bytes)
    requires WellFormed(s.doc) && s.doc == Erase(d)
    ensures Step(s, WriteAux(key, value)) ==
      if Allowed(PhaseOf(d), AuxP)
        then (State(s.cfg, Erase(d.(aux := d.aux + [Aux(s.cfg.compress, key, value, raw)]))), true)
      else (s, false)
  {
    EraseShape(d);
    EraseAux(d, Aux(s.cfg.compress, key, value, raw));
    hide EraseSections;
  }

  lemma DbStep(s: State, d: Doc, db: u64, keys: u64, ttls: u64)
    requires WellFormed(s.doc) && s.doc == Erase(d)
    ensures Step(s, WriteDBHeader(db, keys, ttls)) ==
      if Allowed(PhaseOf(d), DbP) && db !in Dbs(d)
      then (State(s.cfg, Erase(d.(sections := d.sections + [Section(db, keys, ttls, [])]))), true)
      else (s, false)
  {
    EraseShape(d);
    EraseDb(d, Section(db, keys, ttls, []));
    hide EraseSections, Dbs;
  }

  lemma EndStep(s: State, d: Doc)
    requires WellFormed(s.doc) && s.doc == Erase(d)
    ensures Step(s, WriteEnd) ==
      if Allowed(PhaseOf(d), EndP) then (State(s.cfg, Erase(d.(ended := true))), true) else (s, false)
  {
    EraseShape(d);
    hide EraseSections;
  }

  lemma ObjectRejected(s: State, d: Doc, key: bytes, value: Value, options: seq<u64>)
    requires WellFormed(s.doc) && s.doc == Erase(d) && !Accepts(PhaseOf(d), options)
    ensures Step(s, WriteObject(key, value, options)) == (State(s.cfg, Erase(WithTTL(d, options))), false)
  {
    EraseShape(d);
  }

  lemma ObjectAccepted(s: State, d: Doc, key: bytes, value: Value, options: seq<u64>, raw: bytes)
    requires WellFormed(s.doc) && s.doc == Erase(d) && Accepts(PhaseOf(d), options)
    ensures var d1 := WithTTL(d, options);
      d1.sections != [] && d1.header && !d1.ended &&
      Step(s, WriteObject(key, value, options)) ==
        (State(s.cfg, Erase(AddEntry(d1, Entry(d1.pending, OwnTTL(options), s.cfg, key, value, raw)))), true)
  {
    EraseShape(d);
    var d1 := WithTTL(d, options);
    var e := Entry(d1.pending, OwnTTL(options), s.cfg, key, value, raw);
    EraseEntry(d1, e);
    hide EraseSections;
    assert AddEntry(Erase(d1), e.(raw := [])) == AddEntry(Erase(d), e.(raw := []));
  }

  // ------------------------------------------------------------------ items as the encoder writes them

  ghost predicate AuxForm(a: Aux) {
    |a.key| < TWO64 && |a.value| < TWO64 && exists ek, ev ::
      StringForm(a.compress, a.key, ek) && StringForm(a.compress, a.value, ev) && a.raw == [250] + ek + ev
  }

  ghost predicate EntryForm(valkey: bool, e: Entry) {
    e.cfg.valkey == valkey && ObjectForm(e.cfg, e.key, e.value, e.raw)
  }

  ghost predicate Formed(valkey: bool, d: Doc) {
    && (forall i :: 0 <= i < |d.aux| ==> AuxForm(d.aux[i]))
    && forall i :: 0 <= i < |d.sections| ==> SectionFormed(valkey, d.sections[i])
  }

  ghost predicate SectionFormed(valkey: bool, s: Section) {
    forall i :: 0 <= i < |s.entries| ==> EntryForm(valkey, s.entries[i])
  }

  lemma AddFormed(valkey: bool, d: Doc, e: Entry)
    requires Formed(valkey, d) && d.sections != [] && EntryForm(valkey, e)
    ensures Formed(valkey, AddEntry(d, e))
  {
    hide EntryForm, AuxForm;
    var n := |d.sections| - 1;
    assert SectionFormed(valkey, d.sections[n]);
  }

  // ------------------------------------------------------------------ how the bytes grow

  lemma BodyAux(valkey: bool, d: Doc, a: Aux)
    requires d.header && d.sections == [] && d.pending.None? && !d.ended
    ensures BodyBytes(valkey, d.(aux := d.aux + [a])) == BodyBytes(valkey, d) + a.raw
  {
    hide HeaderBytes;
    assert (d.aux + [a])[..|d.aux|] == d.aux;
  }

  lemma SectionsSnoc(sections: seq<Section>, s: Section)
    ensures SectionsBytes(sections + [s]) == SectionsBytes(sections) + SectionBytes(s)
  {
    hide SectionBytes;
    assert (sections + [s])[..|sections|] == sections;
  }

  // An open document without a waiting TTL ends with its databases.
  lemma BodyIs(valkey: bool, d: Doc)
    requires d.header && d.pending.None? && !d.ended
    ensures BodyBytes(valkey, d) == HeaderBytes(valkey) + AuxBytes(d.aux) + SectionsBytes(d.sections)
  {
    hide HeaderBytes, AuxBytes, SectionsBytes;
  }

  lemma BodyDb(valkey: bool, d: Doc, s: Section)
    requires d.header && d.pending.None? && !d.ended && s.entries == []
    ensures BodyBytes(valkey, d.(sections := d.sections + [s])) == BodyBytes(valkey, d) + DbBytes(s.db, s.keys, s.ttls)
  {
    hide HeaderBytes, AuxBytes, DbBytes, SectionsBytes, BodyBytes;
    BodyIs(valkey, d);
    BodyIs(valkey, d.(sections := d.sections + [s]));
    SectionsSnoc(d.sections, s);
    var h, x, e := HeaderBytes(valkey) + AuxBytes(d.aux), SectionsBytes(d.sections), DbBytes(s.db, s.keys, s.ttls);
    assert SectionBytes(s) == e;
    assert h + (x + e) == h + x + e;
  }

  lemma BodyPending(valkey: bool, d: Doc, t: u64)
    requires d.header && d.pending.None? && !d.ended
    ensures BodyBytes(valkey, d.(pending := Some(t))) == BodyBytes(valkey, d) + ([252] + LE(t, 8))
  {
    hide HeaderBytes, AuxBytes, SectionsBytes, LE;
  }

  // A waiting TTL stands at the end.
  lemma BodyWithTTL(valkey: bool, d: Doc)
    requires d.header && !d.ended
    ensures BodyBytes(valkey, d)
      == HeaderBytes(valkey) + AuxBytes(d.aux) + SectionsBytes(d.sections) + TTLBytes(d.pending)
  {
    hide HeaderBytes, AuxBytes, SectionsBytes, TTLBytes;
  }

  lemma SectionGrows(s: Section, e: Entry)
    ensures SectionBytes(s.(entries := s.entries + [e])) == SectionBytes(s) + TTLBytes(e.ttl) + e.raw
  {
    hide DbBytes, TTLBytes;
    assert (s.entries + [e])[..|s.entries|] == s.entries;
    var t, db, es := TTLBytes(e.ttl), DbBytes(s.db, s.keys, s.ttls), EntriesBytes(s.entries);
    assert db + (es + (t + e.raw)) == db + es + t + e.raw;
  }

  lemma BodyEntry(valkey: bool, d: Doc, e: Entry)
    requires d.header && d.sections != [] && e.ttl == d.pending && !d.ended
    ensures BodyBytes(valkey, AddEntry(d, e)) == BodyBytes(valkey, d) + e.raw
  {
    hide HeaderBytes, AuxBytes, TTLBytes, SectionBytes, SectionsBytes, BodyBytes;
    var n := |d.sections| - 1;
    var init, last := d.sections[..n], d.sections[n];
    BodyWithTTL(valkey, d);
    BodyIs(valkey, AddEntry(d, e));
    SectionsSnoc(init, last);
    SectionsSnoc(init, last.(entries := last.entries + [e]));
    SectionGrows(last, e);
    assert init + [last] == d.sections;
    var h, x, y, t := HeaderBytes(valkey) + AuxBytes(d.aux), SectionsBytes(init), SectionBytes(last), TTLBytes(e.ttl);
    assert h + (x + (y + t + e.raw)) == h + (x + y) + t + e.raw;
  }

  // What it takes for the encoder's log and state to follow a document that is still open.
  ghost predicate Grown(valkey: bool, d: Doc, phase: Phase, body: bytes) {
    WellFormed(d) && Formed(valkey, d) && !d.ended && PhaseOf(d) == phase && BodyBytes(valkey, d) == body
  }

  lemma HeaderGrows(valkey: bool, d: Doc)
    requires WellFormed(d) && Allowed(PhaseOf(d), HeaderP)
    ensures d == EMPTY && BodyBytes(valkey, d) == [] && Dbs(d.(header := true)) == Dbs(d)
    ensures Grown(valkey, d.(header := true), HeaderP, HeaderBytes(valkey))
  {
    hide HeaderBytes, AuxForm, SectionFormed, Dbs;
    var d' := EMPTY.(header := true);
    SameDbs(d, d');
    HeaderBody(valkey);
  }

  lemma HeaderBody(valkey: bool)
    ensures BodyBytes(valkey, EMPTY.(header := true)) == HeaderBytes(valkey)
  {
    hide HeaderBytes;
    BodyIs(valkey, EMPTY.(header := true));
  }

  lemma AuxGrows(valkey: bool, d: Doc, a: Aux)
    requires WellFormed(d) && Formed(valkey, d) && Allowed(PhaseOf(d), AuxP) && AuxForm(a)
    ensures !d.ended && Dbs(d.(aux := d.aux + [a])) == Dbs(d)
    ensures Grown(valkey, d.(aux := d.aux + [a]), AuxP, BodyBytes(valkey, d) + a.raw)
  {
    hide BodyBytes, AuxForm, SectionFormed, Dbs, Formed;
    BodyAux(valkey, d, a);
    AuxFormed(valkey, d, a);
    SameDbs(d, d.(aux := d.aux + [a]));
  }

  lemma SameDbs(d: Doc, d': Doc)
    requires d.sections == d'.sections
    ensures Dbs(d) == Dbs(d')
  {}

  lemma AuxFormed(valkey: bool, d: Doc, a: Aux)
    requires Formed(valkey, d) && AuxForm(a)
    ensures Formed(valkey, d.(aux := d.aux + [a]))
  {
    hide AuxForm, SectionFormed;
  }

  lemma DbGrows(valkey: bool, d: Doc, s: Section)
    requires WellFormed(d) && Formed(valkey, d) && Allowed(PhaseOf(d), DbP) && s.entries == [] && s.db !in Dbs(d)
    ensures !d.ended && Dbs(d.(sections := d.sections + [s])) == Dbs(d) + {s.db}
    ensures Grown(valkey, d.(sections := d.sections + [s]), DbP, BodyBytes(valkey, d) + DbBytes(s.db, s.keys, s.ttls))
  {
    hide BodyBytes, AuxForm, DbBytes, Formed, Dbs, WellFormed;
    DbShape(d, s);
    BodyDb(valkey, d, s);
    DbsSnoc(d, s);
    DbFormed(valkey, d, s);
  }

  lemma DbShape(d: Doc, s: Section)
    requires WellFormed(d) && Allowed(PhaseOf(d), DbP) && s.entries == [] && s.db !in Dbs(d)
    ensures d.header && d.pending.None? && !d.ended
    ensures WellFormed(d.(sections := d.sections + [s])) && PhaseOf(d.(sections := d.sections + [s])) == DbP
  {}

  lemma DbFormed(valkey: bool, d: Doc, s: Section)
    requires Formed(valkey, d) && s.entries == []
    ensures Formed(valkey, d.(sections := d.sections + [s]))
  {
    hide AuxForm;
    assert SectionFormed(valkey, s);
  }

  lemma DbsSnoc(d: Doc, s: Section)
    ensures Dbs(d.(sections := d.sections + [s])) == Dbs(d) + {s.db}
  {
    var d' := d.(sections := d.sections + [s]);
    forall x ensures x in Dbs(d') <==> x in Dbs(d) + {s.db} {
      if x == s.db { assert d'.sections[|d.sections|].db == x; }
      if x in Dbs(d) {
        var i :| 0 <= i < |d.sections| && d.sections[i].db == x;
        assert d'.sections[i].db == x;
      }
    }
  }

  lemma PendingGrows(valkey: bool, d: Doc, t: u64)
    requires WellFormed(d) && Formed(valkey, d) && Allowed(PhaseOf(d), TTLP)
    ensures !d.ended && Dbs(d.(pending := Some(t))) == Dbs(d)
    ensures Grown(valkey, d.(pending := Some(t)), TTLP, BodyBytes(valkey, d) + ([252] + LE(t, 8)))
  {
    hide BodyBytes, AuxForm, SectionFormed, Dbs, WellFormed, PhaseOf;
    PendingShape(d, t);
    BodyPending(valkey, d, t);
    SameDbs(d, d.(pending := Some(t)));
  }

  lemma PendingShape(d: Doc, t: u64)
    requires WellFormed(d) && Allowed(PhaseOf(d), TTLP)
    ensures d.header && d.pending.None? && !d.ended
    ensures WellFormed(d.(pending := Some(t))) && PhaseOf(d.(pending := Some(t))) == TTLP
  {}

  lemma EntryGrows(valkey: bool, d: Doc, e: Entry)
    requires WellFormed(d) && Formed(valkey, d) && Allowed(PhaseOf(d), ObjectP) && EntryForm(valkey, e)
      && e.ttl == d.pending
    ensures !d.ended && d.sections != [] && Dbs(AddEntry(d, e)) == Dbs(d)
    ensures Grown(valkey, AddEntry(d, e), ObjectP, BodyBytes(valkey, d) + e.raw)
  {
    hide BodyBytes, Formed, EntryForm, Dbs, AddEntry, WellFormed, PhaseOf;
    EntryShape(d, e);
    BodyEntry(valkey, d, e);
    AddFormed(valkey, d, e);
    AddDbs(d, e);
  }

  lemma EntryShape(d: Doc, e: Entry)
    requires WellFormed(d) && Allowed(PhaseOf(d), ObjectP)
    ensures d.header && d.sections != [] && !d.ended
    ensures WellFormed(AddEntry(d, e)) && PhaseOf(AddEntry(d, e)) == ObjectP && !AddEntry(d, e).ended
  {}

  lemma AddDbs(d: Doc, e: Entry)
    requires d.sections != []
    ensures Dbs(AddEntry(d, e)) == Dbs(d)
  {
    var d' := AddEntry(d, e);
    assert forall i :: 0 <= i < |d.sections| ==> d'.sections[i].db == d.sections[i].db;
    forall x ensures x in Dbs(d') <==> x in Dbs(d) {
      if x in Dbs(d) {
        var i :| 0 <= i < |d.sections| && d.sections[i].db == x;
        assert d'.sections[i].db == x;
      }
    }
  }

  lemma EndGrows(valkey: bool, d: Doc)
    requires WellFormed(d) && Formed(valkey, d) && Allowed(PhaseOf(d), EndP)
    ensures !d.ended
    ensures var d' := d.(ended := true);
      && WellFormed(d') && Formed(valkey, d') && PhaseOf(d') == EndP && Dbs(d') == Dbs(d)
      && BodyBytes(valkey, d') == BodyBytes(valkey, d) + [255]
  {
    hide BodyBytes, AuxForm, SectionFormed, Dbs, WellFormed, PhaseOf;
    EndShape(d);
    BodyEnd(valkey, d);
    SameDbs(d, d.(ended := true));
  }

  lemma EndShape(d: Doc)
    requires WellFormed(d) && Allowed(PhaseOf(d), EndP)
    ensures d.header && d.pending.None? && !d.ended
    ensures WellFormed(d.(ended := true)) && PhaseOf(d.(ended := true)) == EndP
  {}

  lemma BodyEnd(valkey: bool, d: Doc)
    requires d.header && d.pending.None? && !d.ended
    ensures BodyBytes(valkey, d.(ended := true)) == BodyBytes(valkey, d) + [255]
  {
    hide HeaderBytes, AuxBytes, SectionsBytes;
  }

  // A finished file, its checksum included, has CRC zero.
  lemma FileResidue(valkey: bool, d: Doc, tab: seq<bv64>)
    requires d.ended && Crc64.IsTable(Crc64.JONES_REFLECTED, tab)
    ensures Crc64.Fold(tab, 0, Bv(FileBytes(valkey, d, tab))) == 0
  {
    hide BodyBytes, Crc64.Fold, Crc64.IsTable, Crc64.LittleEndian, Nats, Bv;
    TableSize(tab);
    var body := BodyBytes(valkey, d);
    var sum := Crc64.LittleEndian(Crc64.Fold(tab, 0, Bv(body)));
    BvConcat(body, Nats(sum));
    BvNats(sum);
    Crc64.Residue(Crc64.JONES_REFLECTED, tab, 0, Bv(body));
  }

  // Change up to eight consecutive bytes of a finished file, and its CRC is no longer zero.
  lemma FileCorrupted(valkey: bool, d: Doc, tab: seq<bv64>, p: seq<bv8>, x: seq<bv8>, y: seq<bv8>, q: seq<bv8>)
    requires d.ended && Crc64.IsTable(Crc64.JONES_REFLECTED, tab) && Bv(FileBytes(valkey, d, tab)) == p + x + q
    requires |x| == |y| <= 8 && x != y
    ensures Crc64.Fold(tab, 0, p + y + q) != 0
  {
    hide FileBytes, Crc64.Fold, Crc64.Serial, Crc64.IsTable, Bv, Crc64.TopBit;
    FileResidue(valkey, d, tab);
    JonesTop();
    Crc64.FoldIsSerial(Crc64.JONES_REFLECTED, tab, 0, p + x + q);
    Crc64.FoldIsSerial(Crc64.JONES_REFLECTED, tab, 0, p + y + q);
    Crc64.BurstDetected(Crc64.JONES_REFLECTED, 0, p, x, y, q);
  }

  lemma JonesTop()
    ensures Crc64.TopBit(Crc64.JONES_REFLECTED)
  {}

  lemma TableSize(tab: seq<bv64>)
    requires Crc64.IsTable(Crc64.JONES_REFLECTED, tab)
    ensures |tab| == 256
  {}
}
