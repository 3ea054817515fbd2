/** The items the encoder never writes but the decoder understands: what each does, and how an object
    behind them is reported (core/decoder.go). */
module Items {
  import opened Bytes
  import opened Decimal
  import opened Strings
  import opened Sets
  import opened Hashes
  import opened Objects
  import opened Document
  import opened Parser
  import opened RoundTrip

  // ------------------------------------------------------------------ one item

  // Items in front of an object.
  datatype Item =
    | Seconds(s: nat)   // EXPIRETIME
    | Millis(t: u64)    // EXPIRETIME_MS
    | Idle(v: u64)      // IDLE
    | Freq(f: byte)     // FREQ
    | Select(db: u64)   // SELECTDB

  predicate Fits(i: Item) { i.Seconds? ==> i.s < TWO32 }

  function ItemBytes(i: Item): bytes {
    match i
    case Seconds(s) => [253] + LE(s, 4)
    case Millis(t) => [252] + LE(t, 8)
    case Idle(v) => [248] + LengthBytes(v)
    case Freq(f) => [249, f]
    case Select(db) => [254] + LengthBytes(db)
  }

  lemma TurnSeconds(valkey: bool, special: bool, b: bytes, p: nat, st: Vars, s: nat)
    requires s < TWO32 && At(b, p, [253] + LE(s, 4))
    ensures Turn(valkey, special, b, p, st) == Skip(st.(expireMs := 1000 * s), p + 5)
  {
    hide At, LE, FromLE, ReadInt64, ReadLength, ReadString, ResizeDb, AuxField, SlotInfo, SlotImport, ObjectItem;
    OpAt(b, p, 253, LE(s, 4));
    ReadBytesAt(b, p + 1, LE(s, 4));
    Powers();
    FromLEofLE(s, 4);
    SmallMod(s, TWO32);
  }

  lemma TurnFreq(valkey: bool, special: bool, b: bytes, p: nat, st: Vars, f: byte)
    requires At(b, p, [249, f])
    ensures Turn(valkey, special, b, p, st) == Skip(st.(lfu := Some(f as int)), p + 2)
  {
    hide At, FromLE, ReadInt64, ReadLength, ReadString, ResizeDb, AuxField, SlotInfo, SlotImport, ObjectItem;
    assert [249] + [f] == [249, f];
    OpAt(b, p, 249, [f]);
    ReadBytesAt(b, p + 1, [f]);
  }

  lemma TurnIdle(valkey: bool, special: bool, b: bytes, p: nat, st: Vars, v: u64)
    requires At(b, p, [248] + LengthBytes(v))
    ensures Turn(valkey, special, b, p, st) == Skip(st.(lru := Some(Wrap64(v))), p + 1 + |LengthBytes(v)|)
  {
    hide At, ReadLength, LengthBytes, ResizeDb, AuxField, SlotInfo, SlotImport, ObjectItem;
    OpAt(b, p, 248, LengthBytes(v));
    ReadLengthBytes(b, p + 1, v);
  }

  // FUNCTION2, with the source of a library.
  lemma TurnFunctions(valkey: bool, special: bool, compress: bool, b: bytes, p: nat, st: Vars, lua: bytes, e: bytes)
    requires Packable(compress, lua) && |lua| < TWO64 && StringForm(compress, lua, e) && At(b, p, [245] + e)
    ensures Turn(valkey, special, b, p, st) ==
      if special then Emit(FunctionsE(lua), st, p + 1 + |e|) else Skip(st, p + 1 + |e|)
  {
    hide At, ReadString, StringForm, Packable, ResizeDb, AuxField, SlotInfo, SlotImport, ObjectItem;
    OpAt(b, p, 245, e);
    ReadStringForm(compress, b, p + 1, lua, e);
  }

  // Slot information of a Valkey file is passed over; a Redis file may not have it.
  lemma TurnSlotInfo(valkey: bool, special: bool, b: bytes, p: nat, st: Vars, x: u64, y: u64, z: u64)
    requires At(b, p, [244] + (LengthBytes(x) + (LengthBytes(y) + LengthBytes(z))))
    ensures Turn(valkey, special, b, p, st) ==
      if valkey then Skip(st, p + 1 + |LengthBytes(x)| + |LengthBytes(y)| + |LengthBytes(z)|) else Halt(Some(Corrupt))
  {
    hide At, ReadLength, LengthBytes, SimpleItem, ResizeDb, AuxField, SlotImport, ObjectItem;
    OpAt(b, p, 244, LengthBytes(x) + (LengthBytes(y) + LengthBytes(z)));
    AtConcat(b, p + 1, LengthBytes(x), LengthBytes(y) + LengthBytes(z));
    AtConcat(b, p + 1 + |LengthBytes(x)|, LengthBytes(y), LengthBytes(z));
    ReadLengthBytes(b, p + 1, x);
    ReadLengthBytes(b, p + 1 + |LengthBytes(x)|, y);
    ReadLengthBytes(b, p + 1 + |LengthBytes(x)| + |LengthBytes(y)|, z);
  }

  // The bounds of slot ranges.
  function RangeBytes(ranges: seq<(u64, u64)>): bytes {
    if ranges == [] then []
    else LengthBytes(ranges[0].0) + LengthBytes(ranges[0].1) + RangeBytes(ranges[1..])
  }

  lemma {:induction false} ReadRangesOf(b: bytes, p: nat, ranges: seq<(u64, u64)>)
    requires At(b, p, RangeBytes(ranges))
    ensures ReadRanges(b, p, |ranges|) == Ok((), p + |RangeBytes(ranges)|)
    decreases |ranges|
  {
    hide At, ReadLength, LengthBytes;
    if ranges != [] {
      var x, y := LengthBytes(ranges[0].0), LengthBytes(ranges[0].1);
      AtConcat(b, p, x + y, RangeBytes(ranges[1..]));
      AtConcat(b, p, x, y);
      ReadLengthBytes(b, p, ranges[0].0);
      ReadLengthBytes(b, p + |x|, ranges[0].1);
      ReadRangesOf(b, p + |x| + |y|, ranges[1..]);
    }
  }

  // So is the import of slots, with its job and its ranges.
  lemma TurnSlotImport(valkey: bool, special: bool, compress: bool, b: bytes, p: nat, st: Vars, job: bytes, e: bytes,
                       ranges: seq<(u64, u64)>)
    requires Packable(compress, job) && |job| < TWO64 && StringForm(compress, job, e) && |ranges| <= MAX_INT64
    requires At(b, p, [243] + (e + (LengthBytes(|ranges|) + RangeBytes(ranges))))
    ensures Turn(valkey, special, b, p, st) ==
      if valkey then Skip(st, p + 1 + |e| + |LengthBytes(|ranges|)| + |RangeBytes(ranges)|) else Halt(Some(Corrupt))
  {
    hide At, ReadString, ReadLength, ReadRanges, StringForm, Packable, LengthBytes, RangeBytes, SimpleItem, ResizeDb,
      AuxField, SlotInfo, ObjectItem;
    var n := LengthBytes(|ranges|);
    OpAt(b, p, 243, e + (n + RangeBytes(ranges)));
    AtConcat(b, p + 1, e, n + RangeBytes(ranges));
    AtConcat(b, p + 1 + |e|, n, RangeBytes(ranges));
    ReadStringForm(compress, b, p + 1, job, e);
    ReadLengthBytes(b, p + 1 + |e|, |ranges|);
    ReadRangesOf(b, p + 1 + |e| + |n|, ranges);
  }

  // ------------------------------------------------------------------ an object behind items

  function ItemsBytes(items: seq<Item>): bytes {
    if items == [] then [] else ItemsBytes(items[..|items| - 1]) + ItemBytes(items[|items| - 1])
  }

  // What the last item of each kind says, or what held before.
  function LastDb(items: seq<Item>, db: int): int {
    if items == [] then db
    else
      match items[|items| - 1]
      case Select(d) => Wrap64(d)
      case _ => LastDb(items[..|items| - 1], db)
  }

  // An expiry in milliseconds, of either kind.
  function LastExpiry(items: seq<Item>, ms: int): int {
    if items == [] then ms
    else
      match items[|items| - 1]
      case Seconds(s) => 1000 * s
      case Millis(t) => Signed(t, TWO64)
      case _ => LastExpiry(items[..|items| - 1], ms)
  }

  function LastIdle(items: seq<Item>, idle: Option<int>): Option<int> {
    if items == [] then idle
    else
      match items[|items| - 1]
      case Idle(v) => Some(Wrap64(v))
      case _ => LastIdle(items[..|items| - 1], idle)
  }

  function LastFreq(items: seq<Item>, freq: Option<int>): Option<int> {
    if items == [] then freq
    else
      match items[|items| - 1]
      case Freq(f) => Some(f as int)
      case _ => LastFreq(items[..|items| - 1], freq)
  }

  function After(items: seq<Item>, st: Vars): Vars {
    Vars(LastDb(items, st.db), LastExpiry(items, st.expireMs), LastIdle(items, st.lru), LastFreq(items, st.lfu))
  }

  function With(st: Vars, i: Item): Vars {
    match i
    case Seconds(s) => st.(expireMs := 1000 * s)
    case Millis(t) => st.(expireMs := Signed(t, TWO64))
    case Idle(v) => st.(lru := Some(Wrap64(v)))
    case Freq(f) => st.(lfu := Some(f as int))
    case Select(db) => st.(db := Wrap64(db))
  }

  lemma TurnItem(valkey: bool, special: bool, b: bytes, p: nat, st: Vars, i: Item)
    requires Fits(i) && At(b, p, ItemBytes(i))
    ensures Turn(valkey, special, b, p, st) == Skip(With(st, i), p + |ItemBytes(i)|)
  {
    hide At, Turn, LE, LengthBytes, Signed, Wrap64;
    match i
    case Seconds(s) => TurnSeconds(valkey, special, b, p, st, s);
    case Millis(t) => TurnTTL(valkey, special, b, p, st, t);
    case Idle(v) => TurnIdle(valkey, special, b, p, st, v);
    case Freq(f) => TurnFreq(valkey, special, b, p, st, f);
    case Select(db) => TurnSelect(valkey, special, b, p, st, db);
  }

  lemma AfterOne(items: seq<Item>, i: Item, st: Vars)
    ensures After(items + [i], st) == With(After(items, st), i)
  {
    hide Signed, Wrap64;
    var more := items + [i];
    assert more[..|more| - 1] == items && more[|more| - 1] == i;
  }

  // Items are passed over, and the last of each kind is what waits.
  lemma {:induction false} ParseItems(valkey: bool, special: bool, b: bytes, p: nat, st: Vars, acc: seq<Event>,
                                      items: seq<Item>)
    requires (forall k :: 0 <= k < |items| ==> Fits(items[k])) && At(b, p, ItemsBytes(items))
    ensures Parse(valkey, special, All(), b, p, st, acc) ==
      Parse(valkey, special, All(), b, p + |ItemsBytes(items)|, After(items, st), acc)
    decreases |items|
  {
    hide At, Parse, Turn, ItemBytes, Signed, Wrap64, Fits;
    if items != [] {
      var init, i := items[..|items| - 1], items[|items| - 1];
      AtConcat(b, p, ItemsBytes(init), ItemBytes(i));
      ParseItems(valkey, special, b, p, st, acc, init);
      var q := p + |ItemsBytes(init)|;
      TurnItem(valkey, special, b, q, After(init, st), i);
      ParseSkip(valkey, special, b, q, After(init, st), acc);
      assert init + [i] == items;
      AfterOne(init, i, st);
    }
  }

  // The object behind them is reported with exactly these values, and the next one with none of them.
  lemma ParseBehind(valkey: bool, special: bool, b: bytes, p: nat, st: Vars, acc: seq<Event>, items: seq<Item>,
                    e: Entry)
    requires (forall k :: 0 <= k < |items| ==> Fits(items[k])) && At(b, p, ItemsBytes(items) + e.raw)
    requires EntryForm(valkey, e) && Faithful(e.cfg, e.key, e.value)
    ensures var ms := LastExpiry(items, st.expireMs);
      Parse(valkey, special, All(), b, p, st, acc) ==
        Parse(valkey, special, All(), b, p + |ItemsBytes(items) + e.raw|,
              Vars(LastDb(items, st.db), if ms > 0 then 0 else ms, None, None),
              acc + [ObjectE(LastDb(items, st.db), e.key, Expiration(ms), LastIdle(items, st.lru),
                             LastFreq(items, st.lfu), Meaning(e.value))])
  {
    hide At, Parse, Turn, ItemsBytes, EntryForm, Reach, Carried, Meaning, Expiration, LastDb, LastExpiry, LastIdle,
      LastFreq, Fits;
    AtConcat(b, p, ItemsBytes(items), e.raw);
    ParseItems(valkey, special, b, p, st, acc, items);
    var q := p + |ItemsBytes(items)|;
    TurnObject(valkey, special, b, q, After(items, st), e);
    ParseEmit(valkey, special, b, q, After(items, st), acc);
  }

  // An LFU file: f9 05 in front of an object gives it the frequency 5, and no idle time.
  lemma FreqFive(valkey: bool, special: bool, b: bytes, p: nat, db: int, acc: seq<Event>, e: Entry)
    requires At(b, p, [249, 5] + e.raw) && EntryForm(valkey, e) && Faithful(e.cfg, e.key, e.value)
    ensures Parse(valkey, special, All(), b, p, Vars(db, 0, None, None), acc) ==
      Parse(valkey, special, All(), b, p + 2 + |e.raw|, Vars(db, 0, None, None),
            acc + [ObjectE(db, e.key, None, None, Some(5), Meaning(e.value))])
  {
    hide At, Parse, Turn, EntryForm, Faithful, Meaning;
    var items := [Freq(5)];
    assert items[..0] == [] && ItemsBytes(items) == [249, 5];
    ParseBehind(valkey, special, b, p, Vars(db, 0, None, None), acc, items, e);
  }

  // ------------------------------------------------------------------ headers

  // Fewer than nine bytes, another magic string, or a version that is no number: no header.
  lemma NoHeader(b: bytes)
    ensures |b| < 9 ==> CheckHeader(b) == Fail(UnexpectedEnd)
    ensures |b| >= 9 && b[..5] != REDIS && b[..6] != VALKEY ==> CheckHeader(b) == Fail(Corrupt)
    ensures |b| >= 9 && b[..5] == REDIS && Atoi(b[5..9]).None? ==> CheckHeader(b) == Fail(Corrupt)
    ensures |b| >= 9 && b[..6] == VALKEY && Atoi(b[6..9]).None? ==> CheckHeader(b) == Fail(Corrupt)
  {
    hide Atoi;
    if |b| >= 9 {
      var header := b[0..9];
      assert header[..5] == b[..5] && header[..6] == b[..6] && header[5..] == b[5..9] && header[6..] == b[6..9];
      assert b[..6] == VALKEY ==> b[..5][0] == b[..6][0] == 86;
    }
  }

  // Every version a header may declare: Redis 1 to 12 in four digits, Valkey 80 in three.
  lemma HeaderVersions(valkey: bool, digits: bytes, rest: bytes)
    requires Digits(digits) && |digits| == if valkey then 3 else 4
    ensures var v: int := Decimal.Value(digits);
      CheckHeader((if valkey then VALKEY else REDIS) + digits + rest) ==
        if (if valkey then v == 80 else 1 <= v <= 12) then Ok(Header(valkey, v), 9) else Fail(Corrupt)
  {
    hide Decimal.Value;
    var b := (if valkey then VALKEY else REDIS) + digits + rest;
    var header := b[0..9];
    if valkey {
      assert header[..5][0] == 86;
      assert header[..6] == VALKEY && header[6..] == digits;
    } else {
      assert header[..5] == REDIS && header[5..] == digits;
    }
  }
}
