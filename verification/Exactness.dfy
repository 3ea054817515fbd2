/** Whole files whose values may be ones the formats do not carry: the report is right exactly if every
    value is carried. */
module Exactness {
  import opened Bytes
  import opened Strings
  import opened Objects
  import opened Document
  import opened Parser
  import opened RoundTrip
  import Encoding
  import Crc64

  ghost predicate EntriesReach(entries: seq<Entry>) {
    forall i :: 0 <= i < |entries| ==> Reach(entries[i].cfg, entries[i].key, entries[i].value)
  }

  ghost predicate EntriesCarried(entries: seq<Entry>) {
    forall i :: 0 <= i < |entries| ==> Carried(entries[i].cfg, entries[i].value)
  }

  ghost predicate ReachDoc(d: Doc) {
    && (forall i :: 0 <= i < |d.aux| ==>
      Packable(d.aux[i].compress, d.aux[i].key) && Packable(d.aux[i].compress, d.aux[i].value))
    && forall i :: 0 <= i < |d.sections| ==> EntriesReach(d.sections[i].entries)
  }

  ghost predicate CarriedDoc(d: Doc) { forall i :: 0 <= i < |d.sections| ==> EntriesCarried(d.sections[i].entries) }

  // The parse does not report these events, nor any run that begins with them.
  predicate Misses(r: Parsed, events: seq<Event>) { !(events <= r.events) }

  lemma MissesMore(r: Parsed, events: seq<Event>, more: seq<Event>)
    requires Misses(r, events)
    ensures Misses(r, events + more)
  {
    assert events <= events + more;
  }

  // ------------------------------------------------------------------ up to the first value not carried

  lemma ObjectMisses(valkey: bool, special: bool, b: bytes, p: nat, st: Vars, acc: seq<Event>, e: Entry)
    requires EntryForm(valkey, e) && Reach(e.cfg, e.key, e.value) && !Carried(e.cfg, e.value) && At(b, p, e.raw)
    ensures var event := ObjectE(st.db, e.key, Expiration(st.expireMs), st.lru, st.lfu, Meaning(e.value));
      Misses(Parse(valkey, special, All(), b, p, st, acc), acc + [event])
  {
    hide At, Turn, EntryForm, Reach, Carried, Meaning, Expiration, Parse;
    TurnObject(valkey, special, b, p, st, e);
    match Turn(valkey, special, b, p, st)
    case Halt(_) => ParseHalt(valkey, special, b, p, st, acc);
    case Emit(event, st', q) =>
      ParseEmit(valkey, special, b, p, st, acc);
      ParseExtends(valkey, special, All(), b, q, st', acc + [event]);
      var r := Parse(valkey, special, All(), b, q, st', acc + [event]);
      assert r.events[|acc|] == r.events[..|acc| + 1][|acc|] == event;
  }

  lemma ParseHalt(valkey: bool, special: bool, b: bytes, p: nat, st: Vars, acc: seq<Event>)
    requires Turn(valkey, special, b, p, st).Halt?
    ensures Parse(valkey, special, All(), b, p, st, acc).events == acc
  {
    hide Turn;
  }

  lemma EntryMisses(valkey: bool, special: bool, b: bytes, p: nat, st: Vars, acc: seq<Event>, db: u64, e: Entry)
    requires EntryForm(valkey, e) && Reach(e.cfg, e.key, e.value) && !Carried(e.cfg, e.value)
    requires Idle(st) && st.db == Wrap64(db) && At(b, p, TTLBytes(e.ttl) + e.raw)
    ensures Misses(Parse(valkey, special, All(), b, p, st, acc), acc + [EntryEvent(db, e)])
  {
    hide At, Turn, Parse, EntryForm, Reach, Carried, Meaning, LE, Expiration, Misses;
    var q, st1 := p, st;
    AtConcat(b, p, TTLBytes(e.ttl), e.raw);
    if e.ttl.Some? {
      TurnTTL(valkey, special, b, p, st, e.ttl.value);
      ParseSkip(valkey, special, b, p, st, acc);
      q, st1 := p + 9, st.(expireMs := Signed(e.ttl.value, TWO64));
    }
    NotPositive(st.expireMs);
    ObjectMisses(valkey, special, b, q, st1, acc, e);
  }

  lemma {:induction false} EntriesMiss(valkey: bool, special: bool, b: bytes, p: nat, st: Vars, acc: seq<Event>,
                                       db: u64, entries: seq<Entry>)
    requires forall i :: 0 <= i < |entries| ==> EntryForm(valkey, entries[i])
    requires EntriesReach(entries) && !EntriesCarried(entries)
    requires Idle(st) && st.db == Wrap64(db) && At(b, p, EntriesBytes(entries))
    ensures Misses(Parse(valkey, special, All(), b, p, st, acc), acc + EntryEvents(db, entries))
    decreases |entries|
  {
    hide At, Parse, EntryForm, Reach, Carried, EntryEvent, TTLBytes, Idle, Misses;
    var init, e := entries[..|entries| - 1], entries[|entries| - 1];
    var events := acc + EntryEvents(db, init);
    AtConcat(b, p, EntriesBytes(init), TTLBytes(e.ttl) + e.raw);
    if EntriesCarried(init) {
      var st1 := ParseEntries(valkey, special, b, p, st, acc, db, init);
      EntryMisses(valkey, special, b, p + |EntriesBytes(init)|, st1, events, db, e);
    } else {
      EntriesMiss(valkey, special, b, p, st, acc, db, init);
      MissesMore(Parse(valkey, special, All(), b, p, st, acc), events, [EntryEvent(db, e)]);
    }
    assert events + [EntryEvent(db, e)] == acc + EntryEvents(db, entries);
  }

  lemma SectionMisses(valkey: bool, special: bool, b: bytes, p: nat, st: Vars, acc: seq<Event>, s: Section)
    requires SectionFormed(valkey, s) && EntriesReach(s.entries) && !EntriesCarried(s.entries)
    requires Idle(st) && At(b, p, SectionBytes(s))
    ensures Misses(Parse(valkey, special, All(), b, p, st, acc), acc + SectionEvents(special, s))
  {
    hide At, Turn, Parse, EntryForm, EntryEvents, EntriesBytes, DbBytes, EntriesReach, EntriesCarried, Wrap64, Idle,
      DbEvents, Misses;
    var st1 := ParseDb(valkey, special, b, p, st, acc, s);
    var q, acc1 := p + |DbBytes(s.db, s.keys, s.ttls)|, acc + DbEvents(special, s);
    EntriesMiss(valkey, special, b, q, st1, acc1, s.db, s.entries);
    assert acc1 + EntryEvents(s.db, s.entries) == acc + SectionEvents(special, s);
  }

  lemma {:induction false} SectionsMiss(valkey: bool, special: bool, b: bytes, p: nat, st: Vars, acc: seq<Event>,
                                        sections: seq<Section>)
    requires forall i :: 0 <= i < |sections| ==> SectionFormed(valkey, sections[i]) && EntriesReach(sections[i].entries)
    requires exists i :: 0 <= i < |sections| && !EntriesCarried(sections[i].entries)
    requires Idle(st) && At(b, p, SectionsBytes(sections))
    ensures Misses(Parse(valkey, special, All(), b, p, st, acc), acc + SectionsEvents(special, sections))
    decreases |sections|
  {
    hide At, Parse, SectionFormed, EntriesReach, EntriesCarried, EntriesFaithful, SectionEvents, SectionBytes, Idle,
      Misses;
    var init, s := sections[..|sections| - 1], sections[|sections| - 1];
    var events := acc + SectionsEvents(special, init);
    AtConcat(b, p, SectionsBytes(init), SectionBytes(s));
    if i :| 0 <= i < |init| && !EntriesCarried(init[i].entries) {
      SectionsMiss(valkey, special, b, p, st, acc, init);
      MissesMore(Parse(valkey, special, All(), b, p, st, acc), events, SectionEvents(special, s));
    } else {
      forall i | 0 <= i < |init| ensures EntriesFaithful(init[i].entries) { FaithfulIs(init[i].entries); }
      var st1 := ParseSections(valkey, special, b, p, st, acc, init);
      SectionMisses(valkey, special, b, p + |SectionsBytes(init)|, st1, events, s);
    }
    assert events + SectionEvents(special, s) == acc + SectionsEvents(special, sections);
  }

  lemma FaithfulIs(entries: seq<Entry>)
    ensures EntriesFaithful(entries) <==> EntriesReach(entries) && EntriesCarried(entries)
  {
    hide Reach, Carried;
  }

  lemma FaithfulDocIs(d: Doc)
    ensures FaithfulDoc(d) <==> ReachDoc(d) && CarriedDoc(d)
  {
    hide Packable, EntriesFaithful, EntriesReach, EntriesCarried;
    forall i | 0 <= i < |d.sections|
      ensures EntriesFaithful(d.sections[i].entries)
        <==> EntriesReach(d.sections[i].entries) && EntriesCarried(d.sections[i].entries)
    {
      FaithfulIs(d.sections[i].entries);
    }
  }

  // ------------------------------------------------------------------ the whole file

  lemma BodyMisses(valkey: bool, special: bool, b: bytes, d: Doc)
    requires d.header && d.pending.None? && d.ended && Formed(valkey, d) && ReachDoc(d) && !CarriedDoc(d)
    requires At(b, 0, BodyBytes(valkey, d))
    ensures At(b, 0, HeaderBytes(valkey))
    ensures Misses(Parse(valkey, special, All(), b, 9, START, []), EventsOf(special, d))
  {
    hide At, Turn, HeaderBytes, AuxBytes, SectionsBytes, Parse, AuxForm, SectionFormed, EntriesReach, EntriesCarried,
      Packable, Misses, AuxEvents, SectionsEvents;
    var h, a, x := HeaderBytes(valkey), AuxBytes(d.aux), SectionsBytes(d.sections);
    BodyEnded(valkey, d);
    AtConcat(b, 0, h + a + x, [255]);
    AtConcat(b, 0, h + a, x);
    AtConcat(b, 0, h, a);
    ParseAux(valkey, special, b, 9, START, [], d.aux);
    SectionsMiss(valkey, special, b, 9 + |a|, START, [] + AuxEvents(special, d.aux), d.sections);
    assert [] + AuxEvents(special, d.aux) + SectionsEvents(special, d.sections) == EventsOf(special, d);
  }

  // A completed file within reach is reported in full, in order and without an error exactly if all of
  // its values are carried; otherwise what is reported differs in or stops before one that is not.
  lemma FileExact(valkey: bool, special: bool, d: Doc, tab: seq<bv64>, rest: bytes)
    requires |tab| == 256 && WellFormed(d) && d.ended && Formed(valkey, d) && ReachDoc(d)
    ensures var r := ParseFile(special, All(), FileBytes(valkey, d, tab) + rest);
      && (r == Parsed(EventsOf(special, d), None) <==> CarriedDoc(d))
      && (EventsOf(special, d) <= r.events <==> CarriedDoc(d))
  {
    hide BodyBytes, Formed, ReachDoc, CarriedDoc, FaithfulDoc, EventsOf, Crc64.Fold, Nats, HeaderBytes, CheckHeader,
      Parse;
    FaithfulDocIs(d);
    if CarriedDoc(d) {
      FileRoundTrip(valkey, special, d, tab, rest);
    } else {
      var b := FileBytes(valkey, d, tab) + rest;
      var body := BodyBytes(valkey, d);
      assert b[0..|body|] == body;
      BodyMisses(valkey, special, b, d);
      HeaderReads(valkey, b);
    }
  }

  // ------------------------------------------------------------------ runs of the encoder

  lemma EraseReach(d: Doc)
    ensures ReachDoc(Erase(d)) <==> ReachDoc(d)
    ensures CarriedDoc(Erase(d)) <==> CarriedDoc(d)
  {
    hide EntriesReach, EntriesCarried, Packable;
    var r := Erase(d);
    assert forall i :: 0 <= i < |d.aux| ==> r.aux[i] == d.aux[i].(raw := []);
    forall i | 0 <= i < |d.sections|
      ensures EntriesReach(r.sections[i].entries) <==> EntriesReach(d.sections[i].entries)
      ensures EntriesCarried(r.sections[i].entries) <==> EntriesCarried(d.sections[i].entries)
    {
      EraseEntriesReach(d.sections[i].entries);
    }
  }

  lemma EraseEntriesReach(entries: seq<Entry>)
    ensures EntriesReach(EraseEntries(entries)) <==> EntriesReach(entries)
    ensures EntriesCarried(EraseEntries(entries)) <==> EntriesCarried(entries)
  {
    hide Reach, Carried;
    var r := EraseEntries(entries);
    assert forall i :: 0 <= i < |entries| ==> r[i] == entries[i].(raw := []);
  }

  // Every ended encoder whose calls wrote values within reach: what the calls asked for is reported, and
  // nothing else, exactly if all of the values are carried.
  lemma RunExact(enc: Encoding.Encoder, special: bool)
    requires enc.Valid() && enc.state == EndP && ReachDoc(Run(enc.valkey, enc.calls).doc)
    ensures var d := Run(enc.valkey, enc.calls).doc; var r := ParseFile(special, All(), enc.out);
      && (r == Parsed(EventsOf(special, d), None) <==> CarriedDoc(d))
      && (EventsOf(special, d) <= r.events <==> CarriedDoc(d))
  {
    hide FileBytes, BodyBytes, Formed, ReachDoc, CarriedDoc, EventsOf, Crc64.Fold, Erase, Bv, ParseFile, Run, Dbs,
      Crc64.IsTable;
    var d := enc.doc;
    EraseReach(d);
    EraseEvents(special, d);
    FileExact(enc.valkey, special, d, enc.digest.tab[..], []);
    assert enc.out + [] == enc.out;
  }
}
