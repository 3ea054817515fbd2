/** What core/decoder.go makes of a byte sequence: the header check and the opcode loop of parse. */
module Parser {
  import opened Bytes
  import opened Decimal
  import opened Strings
  import opened Hashes
  import opened Objects

  // ------------------------------------------------------------------ header

  const REDIS: bytes := [82, 69, 68, 73, 83]
  const VALKEY: bytes := [86, 65, 76, 75, 69, 89]

  datatype Header = Header(valkey: bool, version: int)

  // checkHeader: Redis versions 1 to 12, Valkey version 80.
  function CheckHeader(b: bytes): (r: Res<Header>)
    ensures r.Ok? ==> r.next == 9 <= |b|
  {
    var (header, p) :- ReadBytes(b, 0, 9);
    if header[..5] == REDIS then
      match Atoi(header[5..])
      case None => Fail(Corrupt)
      case Some(v) => if v < 1 || v > 12 then Fail(Corrupt) else Ok(Header(false, v), p)
    else if header[..6] == VALKEY then
      match Atoi(header[6..])
      case None => Fail(Corrupt)
      case Some(v) => if v < 80 || v > 80 then Fail(Corrupt) else Ok(Header(true, v), p)
    else Fail(Corrupt)
  }

  // ------------------------------------------------------------------ the loop

  // What is handed to the callback. An expiration is in nanoseconds since the epoch.
  datatype Event =
    | AuxE(key: bytes, value: bytes)
    | SizeE(db: int, keys: nat, ttls: nat)
    | FunctionsE(lua: bytes)
    | ObjectE(db: int, key: bytes, expiration: Option<int>, idle: Option<int>, freq: Option<int>, content: Decoded)

  // The variables parse carries from item to item.
  datatype Vars = Vars(db: int, expireMs: int, lru: Option<int>, lfu: Option<int>)

  datatype Move =
    | Halt(error: Option<Error>)
    | Skip(vars: Vars, next: nat)
    | Emit(event: Event, vars: Vars, next: nat)

  // time.Unix(0, expireMs * int64(time.Millisecond)), for a positive expireMs.
  function Expiration(expireMs: int): Option<int> {
    if expireMs > 0 then Some(Wrap64(expireMs * 1_000_000)) else None
  }

  // The slot ranges of a slot import.
  function ReadRanges(b: bytes, p: nat, n: nat): (r: Res<()>)
    ensures r.Ok? ==> p <= r.next && (p <= |b| ==> r.next <= |b|)
    decreases n
  {
    if n == 0 then Ok((), p)
    else
      var (_, p1) :- ReadLength(b, p);
      var (_, p2) :- ReadLength(b, p1);
      ReadRanges(b, p2, n - 1)
  }

  // A failed read ends the parse with its error.
  function Then(r: Res<Move>): (m: Move)
    ensures r.Fail? ==> m == Halt(Some(r.error))
    ensures r.Ok? ==> m == r.value
  {
    if r.Fail? then Halt(Some(r.error)) else r.value
  }

  predicate Advances(m: Move, b: bytes, p: nat) {
    !m.Halt? ==> p < m.next <= |b|
  }

  function ResizeDb(special: bool, b: bytes, p: nat, st: Vars): (r: Res<Move>)
    ensures r.Ok? ==> Advances(r.value, b, p)
  {
    var (keys, p1) :- ReadLength(b, p);
    match ReadLength(b, p1)
    case Fail(_) => Ok(Halt(None), p1) // the error is dropped and the loop left
    case Ok(ttls, p2) => Ok(if special then Emit(SizeE(st.db, keys.n, ttls.n), st, p2) else Skip(st, p2), p2)
  }

  function AuxField(special: bool, b: bytes, p: nat, st: Vars): (r: Res<Move>)
    ensures r.Ok? ==> Advances(r.value, b, p)
  {
    var (key, p1) :- ReadString(b, p);
    match ReadString(b, p1)
    case Fail(Panic) => Fail(Panic) // a panic leaves parse altogether
    case Fail(_) => Ok(Halt(None), p1) // the error is dropped and the loop left
    case Ok(value, p2) => Ok(if special then Emit(AuxE(key, value), st, p2) else Skip(st, p2), p2)
  }

  function SlotInfo(b: bytes, p: nat, st: Vars): (r: Res<Move>)
    ensures r.Ok? ==> !r.value.Halt? && r.value.next == r.next && Advances(r.value, b, p)
  {
    var (_, p1) :- ReadLength(b, p);
    var (_, p2) :- ReadLength(b, p1);
    var (_, p3) :- ReadLength(b, p2);
    Ok(Skip(st, p3), p3)
  }

  function SlotImport(b: bytes, p: nat, st: Vars): (r: Res<Move>)
    ensures r.Ok? ==> !r.value.Halt? && r.value.next == r.next && Advances(r.value, b, p)
  {
    var (_, p1) :- ReadString(b, p);
    var (n, p2) :- ReadLength(b, p1);
    if n.n > MAX_INT64 then Fail(Panic) // make with a negative length
    else
      var (_, p3) :- ReadRanges(b, p2, n.n);
      Ok(Skip(st, p3), p3)
  }

  function ObjectItem(valkey: bool, t: byte, b: bytes, p: nat, st: Vars): (r: Res<Move>)
    ensures r.Ok? ==> !r.value.Halt? && r.value.next == r.next && Advances(r.value, b, p)
  {
    var (key, p1) :- ReadString(b, p);
    var (value, p2) :- ReadPayload(valkey, t, b, p1);
    Ok(Emit(ObjectE(st.db, key, Expiration(st.expireMs), st.lru, st.lfu, value),
            Vars(st.db, if st.expireMs > 0 then 0 else st.expireMs, None, None), p2), p2)
  }

  function SimpleItem(op: byte, special: bool, b: bytes, p: nat, st: Vars): (r: Res<Move>)
    requires op in {254, 253, 252, 249, 248, 245}
    ensures r.Ok? ==> !r.value.Halt? && r.value.next == r.next && Advances(r.value, b, p)
  {
    if op == 254 then
      var (db, q) :- ReadLength(b, p);
      Ok(Skip(st.(db := Wrap64(db.n)), q), q)
    else if op == 253 then
      var (e, q) :- ReadBytes(b, p, 4);
      Ok(Skip(st.(expireMs := FromLE(e) * 1000), q), q)
    else if op == 252 then
      var (ms, q) :- ReadInt64(b, p);
      Ok(Skip(st.(expireMs := ms), q), q)
    else if op == 249 then
      var (e, q) :- ReadBytes(b, p, 1);
      Ok(Skip(st.(lfu := Some(e[0] as int)), q), q)
    else if op == 248 then
      var (idle, q) :- ReadLength(b, p);
      Ok(Skip(st.(lru := Some(Wrap64(idle.n))), q), q)
    else
      var (lua, q) :- ReadString(b, p);
      Ok(if special then Emit(FunctionsE(lua), st, q) else Skip(st, q), q)
  }

  // One turn of the loop.
  function Turn(valkey: bool, special: bool, b: bytes, p: nat, st: Vars): (m: Move)
    ensures Advances(m, b, p)
  {
    if p >= |b| then Halt(Some(UnexpectedEnd))
    else
      var op := b[p];
      if op == 255 then Halt(None)
      else if op in {254, 253, 252, 249, 248, 245} then Then(SimpleItem(op, special, b, p + 1, st))
      else if op == 251 then Then(ResizeDb(special, b, p + 1, st))
      else if op == 250 then Then(AuxField(special, b, p + 1, st))
      else if op == 247 then Halt(Some(Unmodelled))
      else if op == 244 then if valkey then Then(SlotInfo(b, p + 1, st)) else Halt(Some(Corrupt))
      else if op == 243 then if valkey then Then(SlotImport(b, p + 1, st)) else Halt(Some(Corrupt))
      else Then(ObjectItem(valkey, op, b, p + 1, st))
  }

  // The events delivered and the error returned, if any.
  datatype Parsed = Parsed(events: seq<Event>, error: Option<Error>)

  // parse from position p; the callback stops it by returning false.
  function Parse(valkey: bool, special: bool, cb: Event -> bool, b: bytes, p: nat, st: Vars, events: seq<Event>): Parsed
    decreases |b| - p
  {
    match Turn(valkey, special, b, p, st)
    case Halt(error) => Parsed(events, error)
    case Skip(st', q) => Parse(valkey, special, cb, b, q, st', events)
    case Emit(event, st', q) =>
      if cb(event) then Parse(valkey, special, cb, b, q, st', events + [event]) else Parsed(events + [event], None)
  }

  const START := Vars(0, 0, None, None)

  // Decoder.Parse
  function ParseFile(special: bool, cb: Event -> bool, b: bytes): Parsed {
    match CheckHeader(b)
    case Fail(error) => Parsed([], Some(error))
    case Ok(h, p) => Parse(h.valkey, special, cb, b, p, START, [])
  }

  // ------------------------------------------------------------------ stopping early

  // The events up to and including the first one the callback refuses.
  function UpToRefusal(events: seq<Event>, cb: Event -> bool): seq<Event> {
    if events == [] then []
    else if cb(events[0]) then [events[0]] + UpToRefusal(events[1..], cb)
    else [events[0]]
  }

  lemma {:induction false} ParseExtends(valkey: bool, special: bool, cb: Event -> bool, b: bytes, p: nat, st: Vars,
                                        events: seq<Event>)
    ensures var r := Parse(valkey, special, cb, b, p, st, events);
      |events| <= |r.events| && r.events[..|events|] == events
    decreases |b| - p
  {
    hide Turn;
    var m := Turn(valkey, special, b, p, st);
    match m
    case Halt(_) =>
    case Skip(st', q) => ParseExtends(valkey, special, cb, b, q, st', events);
    case Emit(event, st', q) =>
      if cb(event) {
        ParseExtends(valkey, special, cb, b, q, st', events + [event]);
        var r := Parse(valkey, special, cb, b, q, st', events + [event]);
        assert r.events[..|events|] == r.events[..|events| + 1][..|events|];
      }
  }

  // A callback that stops sees what one that never stops sees, up to its first refusal; having
  // refused, it gets no error.
  lemma {:induction false} CallbackStops(valkey: bool, special: bool, cb: Event -> bool, b: bytes, p: nat, st: Vars,
                                         events: seq<Event>)
    ensures |events| <= |Parse(valkey, special, _ => true, b, p, st, events).events|
    ensures var all := Parse(valkey, special, _ => true, b, p, st, events);
      var r := Parse(valkey, special, cb, b, p, st, events);
      var seen := UpToRefusal(all.events[|events|..], cb);
      && r.events == events + seen
      && (r.error == if seen != [] && !cb(seen[|seen| - 1]) then None else all.error)
    decreases |b| - p
  {
    hide Turn;
    var yes := (_: Event) => true;
    ParseExtends(valkey, special, yes, b, p, st, events);
    var all := Parse(valkey, special, yes, b, p, st, events);
    match Turn(valkey, special, b, p, st)
    case Halt(_) => assert all.events[|events|..] == [];
    case Skip(st', q) => CallbackStops(valkey, special, cb, b, q, st', events);
    case Emit(event, st', q) =>
      ParseExtends(valkey, special, yes, b, q, st', events + [event]);
      OneEvent(events, event, all.events, cb);
      if cb(event) { CallbackStops(valkey, special, cb, b, q, st', events + [event]); }
  }

  // The next event and what follows it.
  lemma OneEvent(events: seq<Event>, event: Event, all: seq<Event>, cb: Event -> bool)
    requires |events| < |all| && all[..|events| + 1] == events + [event]
    ensures var seen, rest := UpToRefusal(all[|events|..], cb), UpToRefusal(all[|events + [event]|..], cb);
      && seen == [event] + (if cb(event) then rest else [])
      && events + seen == events + [event] + if cb(event) then rest else []
  {
    var tail := all[|events|..];
    assert tail[0] == all[..|events| + 1][|events|] == event;
    assert tail[1..] == all[|events + [event]|..];
  }
}
