/** The decoder of core/decoder.go and the readers of core/string.go, list.go, set.go, hash.go and
    ziplist.go, over a byte sequence. readCount is the number of bytes consumed. */
module Decoding {
  import opened Bytes
  import opened Decimal
  import opened Objects
  import opened Parser
  import Strings
  import Ziplist
  import Lists
  import Sets
  import Hashes
  import Lzf

  class Decoder {
    const input: bytes
    var readCount: nat
    var withSpecialOpCode: bool
    var valkey: bool
    var rdbVersion: int

    constructor (reader: bytes)
      ensures input == reader && readCount == 0 && !withSpecialOpCode
    {
      input, readCount, withSpecialOpCode, valkey, rdbVersion := reader, 0, false, false, 0;
    }

    method WithSpecialOpCode()
      modifies this`withSpecialOpCode
      ensures withSpecialOpCode
    {
      withSpecialOpCode := true;
    }

    // Every reader: what it returns, and where it stops when it succeeds.
    ghost predicate Reads<T>(r: Res<T>, spec: Res<T>)
      reads this`readCount
    {
      r == spec && (r.Ok? ==> readCount == r.next)
    }

    // readByte and readFull
    method ReadFull(n: nat) returns (r: Res<bytes>)
      modifies this`readCount
      ensures Reads(r, Strings.ReadBytes(input, old(readCount), n))
    {
      r := Strings.ReadBytes(input, readCount, n);
      if r.Ok? { readCount := r.next; }
    }

    // ---------------------------------------------------------------- strings

    method ReadLength() returns (r: Res<Strings.Length>)
      modifies this`readCount
      ensures Reads(r, Strings.ReadLength(input, old(readCount)))
    {
      hide FromBE;
      if readCount >= |input| { return Fail(UnexpectedEnd); }
      var first: int := input[readCount];
      readCount := readCount + 1;
      var lenType := first / 64;
      if lenType == 0 {
        r := Ok(Strings.Length(first, false), readCount);
      } else if lenType == 1 {
        var e :- ReadFull(1);
        r := Ok(Strings.Length(first % 64 * 256 + e.0[0], false), readCount);
      } else if lenType == 2 {
        if first == 0x80 {
          var e :- ReadFull(4);
          r := Ok(Strings.Length(FromBE(e.0), false), readCount);
        } else if first == 0x81 {
          var e :- ReadFull(8);
          r := Ok(Strings.Length(FromBE(e.0), false), readCount);
        } else {
          r := Fail(Corrupt);
        }
      } else {
        r := Ok(Strings.Length(first % 64, true), readCount);
      }
    }

    method ReadLZF() returns (r: Res<bytes>)
      modifies this`readCount
      ensures Reads(r, Strings.ReadLZF(input, old(readCount)))
    {
      hide Strings.ReadLength, Lzf.Expand;
      var inLen :- ReadLength();
      var outLen :- ReadLength();
      if inLen.0.n > Strings.MAX_INT64 { return Fail(Panic); }
      var val :- ReadFull(inLen.0.n);
      if outLen.0.n > Strings.MAX_INT64 { return Fail(Panic); }
      assert val.0[..inLen.0.n] == val.0;
      var out := Lzf.Decompress(val.0, inLen.0.n, outLen.0.n);
      match out
      case Done(data) => r := Ok(data, readCount);
      case Failed(error) => r := Fail(error);
    }

    method ReadString() returns (r: Res<bytes>)
      modifies this`readCount
      ensures Reads(r, Strings.ReadString(input, old(readCount)))
    {
      hide Strings.ReadLength, FromLE, Itoa, Strings.ReadLZF;
      var length :- ReadLength();
      if !length.0.special {
        if length.0.n > Strings.MAX_INT64 { return Fail(Panic); }
        r := ReadFull(length.0.n);
        return;
      }
      match length.0.n
      case 0 =>
        var b :- ReadFull(1);
        r := Ok(Itoa(Signed(b.0[0], 0x100)), readCount);
      case 1 =>
        var b :- ReadFull(2);
        Strings.FromLEPow(b.0); Powers();
        r := Ok(Itoa(Signed(FromLE(b.0), TWO16)), readCount);
      case 2 =>
        var b :- ReadFull(4);
        Strings.FromLEPow(b.0); Powers();
        r := Ok(Itoa(Signed(FromLE(b.0), TWO32)), readCount);
      case 3 =>
        r := ReadLZF();
      case _ =>
        r := Fail(Corrupt);
    }

    method ReadInt64() returns (r: Res<int>)
      modifies this`readCount
      ensures Reads(r, Hashes.ReadInt64(input, old(readCount)))
    {
      hide FromLE;
      var e :- ReadFull(8);
      Strings.FromLEPow(e.0); Powers();
      r := Ok(Signed(FromLE(e.0), TWO64), readCount);
    }

    // ---------------------------------------------------------------- lists and sets

    // readList and readSet
    method ReadStrings() returns (r: Res<seq<bytes>>)
      modifies this`readCount
      ensures Reads(r, Sets.ReadSet(input, old(readCount)))
    {
      hide Strings.ReadLength, Strings.ReadString;
      var size :- ReadLength();
      if size.0.n > Strings.MAX_INT64 { return Fail(Panic); }
      ghost var spec := Strings.ReadStrings(input, readCount, size.0.n, []);
      var values: seq<bytes>, i := [], 0;
      while i < size.0.n
        invariant 0 <= i <= size.0.n
        invariant Strings.ReadStrings(input, readCount, size.0.n - i, values) == spec
      {
        var val :- ReadString();
        values, i := values + [val.0], i + 1;
      }
      r := Ok(values, readCount);
    }

    method ReadZipList() returns (r: Res<seq<bytes>>)
      modifies this`readCount
      ensures Reads(r, Ziplist.ReadZipList(input, old(readCount)))
    {
      hide Strings.ReadString, Ziplist.ReadBlob;
      var buf :- ReadString();
      var entries := Ziplist.ReadZipListBlob(buf.0);
      if entries.Fail? { return Fail(entries.error); }
      r := Ok(entries.value, readCount);
    }

    method ReadQuickList() returns (r: Res<seq<bytes>>)
      modifies this`readCount
      ensures Reads(r, Lists.ReadQuickList(input, old(readCount)))
    {
      hide Strings.ReadLength, Ziplist.ReadZipList;
      var size :- ReadLength();
      var n := Strings.AsInt(size.0.n);
      ghost var spec := Lists.ReadPages(input, readCount, n, []);
      var entries: seq<bytes>, i := [], 0;
      while i < n
        invariant 0 <= i <= n
        invariant Lists.ReadPages(input, readCount, n - i, entries) == spec
      {
        var page :- ReadZipList();
        entries, i := entries + page.0, i + 1;
      }
      r := Ok(entries, readCount);
    }

    method ReadIntSet() returns (r: Res<seq<bytes>>)
      modifies this`readCount
      ensures Reads(r, Sets.ReadIntSet(input, old(readCount)))
    {
      hide Strings.ReadString, Sets.ReadIntSetBlob;
      var buf :- ReadString();
      var members := Sets.ReadIntSetBuf(buf.0);
      if members.Fail? { return Fail(members.error); }
      r := Ok(members.value, readCount);
    }

    // ---------------------------------------------------------------- hashes

    // The loop body of the three hash readers.
    method ReadField(layout: Hashes.Layout) returns (r: Res<Hashes.Field>)
      modifies this`readCount
      ensures Reads(r, Hashes.ReadField(layout, input, old(readCount)))
    {
      hide Strings.ReadLength, Strings.ReadString, Hashes.ReadInt64;
      match layout
      case Plain =>
        var field :- ReadString();
        var value :- ReadString();
        r := Ok(Hashes.Field(field.0, value.0, 0), readCount);
      case Relative(min) =>
        var ttl :- ReadLength();
        var expire := if ttl.0.n == 0 then 0 else Wrap64(Signed(ttl.0.n, TWO64) + min - 1);
        if expire > Hashes.EB_EXPIRE_TIME_MAX { return Fail(Corrupt); }
        var field :- ReadString();
        var value :- ReadString();
        r := Ok(Hashes.Field(field.0, value.0, expire), readCount);
      case Absolute =>
        var field :- ReadString();
        var value :- ReadString();
        var expire :- ReadInt64();
        r := Ok(Hashes.Field(field.0, value.0, if expire.0 < 0 then 0 else expire.0), readCount);
    }

    method ReadFields(layout: Hashes.Layout, n: nat) returns (r: Res<Hashes.Fields>)
      modifies this`readCount
      ensures Reads(r, Hashes.ReadFields(layout, input, old(readCount), n, Hashes.Fields(map[], map[])))
    {
      hide Hashes.ReadField;
      var m: map<bytes, bytes>, e: map<bytes, int>, i := map[], map[], 0;
      ghost var spec := Hashes.ReadFields(layout, input, readCount, n, Hashes.Fields(m, e));
      while i < n
        invariant 0 <= i <= n
        invariant Hashes.ReadFields(layout, input, readCount, n - i, Hashes.Fields(m, e)) == spec
      {
        var f :- ReadField(layout);
        m, e, i := m[f.0.name := f.0.value], e[f.0.name := f.0.expire], i + 1;
      }
      r := Ok(Hashes.Fields(m, e), readCount);
    }

    method ReadHashMap() returns (r: Res<Hashes.Fields>)
      modifies this`readCount
      ensures Reads(r, Hashes.ReadHashMap(input, old(readCount)))
    {
      hide Strings.ReadLength, Hashes.ReadFields;
      var size :- ReadLength();
      r := ReadFields(Hashes.Plain, Strings.AsInt(size.0.n));
    }

    method ReadHashMapEx() returns (r: Res<Hashes.Fields>)
      modifies this`readCount
      ensures Reads(r, Hashes.ReadHashMapEx(input, old(readCount)))
    {
      hide Strings.ReadLength, Hashes.ReadFields, Hashes.ReadInt64;
      var min :- ReadInt64();
      if min.0 > Hashes.EB_EXPIRE_TIME_INVALID { return Fail(Corrupt); }
      var size :- ReadLength();
      if size.0.n == 0 { return Fail(Corrupt); }
      r := ReadFields(Hashes.Relative(min.0), Strings.AsInt(size.0.n));
    }

    method ReadHashMapExValkey() returns (r: Res<Hashes.Fields>)
      modifies this`readCount
      ensures Reads(r, Hashes.ReadHashMapExValkey(input, old(readCount)))
    {
      hide Strings.ReadLength, Hashes.ReadFields;
      var size :- ReadLength();
      if size.0.n == 0 { return Fail(Corrupt); }
      r := ReadFields(Hashes.Absolute, Strings.AsInt(size.0.n));
    }

    method ReadZipListHash() returns (r: Res<map<bytes, bytes>>)
      modifies this`readCount
      ensures Reads(r, Hashes.ReadZipListHash(input, old(readCount)))
    {
      hide Strings.ReadString, Hashes.ReadZipHashBlob;
      var buf :- ReadString();
      var m := ReadZipHashBuf(buf.0);
      if m.Fail? { return Fail(m.error); }
      r := Ok(m.value, readCount);
    }

    static method ReadZipHashBuf(buf: bytes) returns (r: Res<map<bytes, bytes>>)
      ensures r == Hashes.ReadZipHashBlob(buf)
    {
      hide Ziplist.ReadEntry, FromLE;
      if |buf| < 10 { return Fail(Panic); }
      var size, cursor := FromLE(buf[8..10]), 10;
      var m: map<bytes, bytes>, i := map[], 0;
      while i < size
        invariant 0 <= i <= size + 1 && i % 2 == 0
        invariant Hashes.ReadPairs(buf, cursor, (size + 1 - i) / 2, m) == Hashes.ReadZipHashBlob(buf)
      {
        var key :- Ziplist.ReadZipListEntry(buf, cursor);
        var val :- Ziplist.ReadZipListEntry(buf, key.1);
        m, cursor := m[key.0 := val.0], val.1;
        i := i + 2;
      }
      r := Ok(m, cursor);
    }

    // ---------------------------------------------------------------- objects and the file

    method ReadObject(flag: byte) returns (r: Res<Decoded>)
      modifies this`readCount
      ensures Reads(r, ReadPayload(valkey, flag, input, old(readCount)))
    {
      hide Strings.ReadString, Sets.ReadSet, Hashes.ReadHashMap, Ziplist.ReadZipList, Sets.ReadIntSet,
        Hashes.ReadZipListHash,
        Lists.ReadQuickList, Hashes.ReadHashMapEx, Hashes.ReadHashMapExValkey;
      match flag
      case 0 =>
        var s :- ReadString();
        r := Ok(StringD(s.0), readCount);
      case 1 =>
        var list :- ReadStrings();
        r := Ok(ListD(list.0), readCount);
      case 2 =>
        var set' :- ReadStrings();
        r := Ok(SetD(set'.0), readCount);
      case 4 =>
        var hash :- ReadHashMap();
        r := Ok(HashD(hash.0.hash), readCount);
      case 10 =>
        var list :- ReadZipList();
        r := Ok(ListD(list.0), readCount);
      case 11 =>
        var set' :- ReadIntSet();
        r := Ok(SetD(set'.0), readCount);
      case 13 =>
        var m :- ReadZipListHash();
        r := Ok(HashD(m.0), readCount);
      case 14 =>
        var list :- ReadQuickList();
        r := Ok(ListD(list.0), readCount);
      case 22 =>
        if !valkey { return Fail(Unmodelled); }
        var hash :- ReadHashMapExValkey();
        r := Ok(HashExD(hash.0.hash, hash.0.expire), readCount);
      case 24 =>
        var hash;
        if valkey {
          hash :- ReadHashMapExValkey();
        } else {
          hash :- ReadHashMapEx();
        }
        r := Ok(HashExD(hash.0.hash, hash.0.expire), readCount);
      case _ =>
        r := Fail(Unmodelled);
    }

    method CheckHeader() returns (r: Res<Header>)
      requires readCount == 0
      modifies this`readCount, this`valkey, this`rdbVersion
      ensures r == Parser.CheckHeader(input)
      ensures r.Ok? ==> readCount == r.next && valkey == r.value.valkey && rdbVersion == r.value.version
    {
      hide Atoi;
      var read :- ReadFull(9);
      var header := read.0;
      var versionString;
      if header[..5] == REDIS {
        valkey, versionString := false, header[5..];
      } else if header[..6] == VALKEY {
        valkey, versionString := true, header[6..];
      } else {
        return Fail(Corrupt);
      }
      var version := Atoi(versionString);
      if version.None? { return Fail(Corrupt); }
      if !valkey && (version.value < 1 || version.value > 12) { return Fail(Corrupt); }
      if valkey && (version.value < 80 || version.value > 80) { return Fail(Corrupt); }
      rdbVersion := version.value;
      r := Ok(Header(valkey, rdbVersion), readCount);
    }

    // A loop item that only sets a variable of the loop, or the functions item.
    method SimpleItem(op: byte, st: Vars) returns (r: Res<Move>)
      requires op in {254, 253, 252, 249, 248, 245}
      modifies this`readCount
      ensures Reads(r, Parser.SimpleItem(op, withSpecialOpCode, input, old(readCount), st))
      ensures r.Ok? && !r.value.Halt? ==> readCount == r.value.next
    {
      hide Strings.ReadLength, Strings.ReadString, Hashes.ReadInt64, FromLE;
      match op
      case 254 =>
        var db :- ReadLength();
        r := Ok(Skip(st.(db := Wrap64(db.0.n)), readCount), readCount);
      case 253 =>
        var e :- ReadFull(4);
        r := Ok(Skip(st.(expireMs := FromLE(e.0) * 1000), readCount), readCount);
      case 252 =>
        var ms :- ReadInt64();
        r := Ok(Skip(st.(expireMs := ms.0), readCount), readCount);
      case 249 =>
        var e :- ReadFull(1);
        r := Ok(Skip(st.(lfu := Some(e.0[0] as int)), readCount), readCount);
      case 248 =>
        var idle :- ReadLength();
        r := Ok(Skip(st.(lru := Some(Wrap64(idle.0.n))), readCount), readCount);
      case _ =>
        var lua :- ReadString();
        r := Ok(if withSpecialOpCode then Emit(FunctionsE(lua.0), st, readCount) else Skip(st, readCount), readCount);
    }

    method ResizeDb(st: Vars) returns (r: Res<Move>)
      modifies this`readCount
      ensures r == Parser.ResizeDb(withSpecialOpCode, input, old(readCount), st)
      ensures r.Ok? && !r.value.Halt? ==> readCount == r.value.next
    {
      hide Strings.ReadLength;
      var keys :- ReadLength();
      var p := readCount;
      var ttls := ReadLength();
      if ttls.Fail? { return Ok(Halt(None), p); }
      r := Ok(if withSpecialOpCode then Emit(SizeE(st.db, keys.0.n, ttls.value.n), st, readCount)
        else Skip(st, readCount), readCount);
    }

    method AuxField(st: Vars) returns (r: Res<Move>)
      modifies this`readCount
      ensures r == Parser.AuxField(withSpecialOpCode, input, old(readCount), st)
      ensures r.Ok? && !r.value.Halt? ==> readCount == r.value.next
    {
      hide Strings.ReadString;
      var key :- ReadString();
      var p := readCount;
      var value := ReadString();
      if value == Fail(Panic) { return Fail(Panic); }
      if value.Fail? { return Ok(Halt(None), p); }
      r := Ok(if withSpecialOpCode then Emit(AuxE(key.0, value.value), st, readCount)
        else Skip(st, readCount), readCount);
    }

    method SlotInfo(st: Vars) returns (r: Res<Move>)
      modifies this`readCount
      ensures r == Parser.SlotInfo(input, old(readCount), st)
      ensures r.Ok? && !r.value.Halt? ==> readCount == r.value.next
    {
      hide Strings.ReadLength;
      var _ :- ReadLength();
      var _ :- ReadLength();
      var _ :- ReadLength();
      r := Ok(Skip(st, readCount), readCount);
    }

    method SlotImport(st: Vars) returns (r: Res<Move>)
      modifies this`readCount
      ensures r == Parser.SlotImport(input, old(readCount), st)
      ensures r.Ok? && !r.value.Halt? ==> readCount == r.value.next
    {
      hide Strings.ReadLength, Strings.ReadString;
      var _ :- ReadString();
      var ranges :- ReadLength();
      var n := ranges.0.n;
      if n > Strings.MAX_INT64 { return Fail(Panic); }
      ghost var spec := ReadRanges(input, readCount, n);
      var i := 0;
      while i < n
        invariant 0 <= i <= n && ReadRanges(input, readCount, n - i) == spec
      {
        var _ :- ReadLength();
        var _ :- ReadLength();
        i := i + 1;
      }
      r := Ok(Skip(st, readCount), readCount);
    }

    method ObjectItem(op: byte, st: Vars) returns (r: Res<Move>)
      modifies this`readCount
      ensures r == Parser.ObjectItem(valkey, op, input, old(readCount), st)
      ensures r.Ok? && !r.value.Halt? ==> readCount == r.value.next
    {
      hide Strings.ReadString, ReadPayload, Expiration;
      var key :- ReadString();
      var expiration, expireMs := None, st.expireMs;
      expiration := Expiration(expireMs);
      if expireMs > 0 { expireMs := 0; } // it belongs to this object only
      var obj :- ReadObject(op);
      r := Ok(Emit(ObjectE(st.db, key.0, expiration, st.lru, st.lfu, obj.0), Vars(st.db, expireMs, None, None),
        readCount), readCount);
    }

    // One turn of the loop.
    method Turn(st: Vars) returns (m: Move)
      modifies this`readCount
      ensures m == Parser.Turn(valkey, withSpecialOpCode, input, old(readCount), st)
      ensures !m.Halt? ==> readCount == m.next
    {
      hide Parser.SimpleItem, Parser.ResizeDb, Parser.AuxField, Parser.SlotInfo, Parser.SlotImport, Parser.ObjectItem;
      if readCount >= |input| { return Halt(Some(UnexpectedEnd)); }
      var op := input[readCount];
      readCount := readCount + 1;
      var r: Res<Move>;
      match op {
      case 255 => return Halt(None);
      case 254 | 253 | 252 | 249 | 248 | 245 => r := SimpleItem(op, st);
      case 251 => r := ResizeDb(st);
      case 250 => r := AuxField(st);
      case 247 => return Halt(Some(Unmodelled));
      case 244 =>
        if !valkey { return Halt(Some(Corrupt)); }
        r := SlotInfo(st);
      case 243 =>
        if !valkey { return Halt(Some(Corrupt)); }
        r := SlotImport(st);
      case _ => r := ObjectItem(op, st);
      }
      m := Then(r);
    }

    // Decoder.Parse: the events delivered to the callback, and the error returned.
    method Parse(cb: Event -> bool) returns (p: Parsed)
      requires readCount == 0
      modifies this`readCount, this`valkey, this`rdbVersion
      ensures p == ParseFile(withSpecialOpCode, cb, input)
    {
      hide Parser.CheckHeader, Parser.Turn;
      var header := CheckHeader();
      if header.Fail? { return Parsed([], Some(header.error)); }
      var st, events := START, [];
      ghost var spec := Parser.Parse(valkey, withSpecialOpCode, cb, input, readCount, st, events);
      while true
        invariant Parser.Parse(valkey, withSpecialOpCode, cb, input, readCount, st, events) == spec
        decreases |input| - readCount
      {
        var m := Turn(st);
        match m
        case Halt(error) => return Parsed(events, error);
        case Skip(st', q) => st := st';
        case Emit(event, st', q) =>
          events, st := events + [event], st';
          if !cb(event) { return Parsed(events, None); }
      }
    }
  }
}
