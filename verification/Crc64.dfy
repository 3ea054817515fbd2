/** CRC-64 of the Jones flavour as computed by crc64jones/crc64.go: bit-serial division by the
    polynomial, the table-driven byte step, and the slicing-by-8 fast path that refines both. */
module Crc64 {

  // The Jones polynomial, in normal and in reflected (least significant bit first) form.
  const JONES: bv64 := 0xad93d23594c935a9
  const JONES_REFLECTED: bv64 := 0x95ac9329ac4bc9b5

  // ------------------------------------------------------------------ words

  function Xor(a: bv64, b: bv64): bv64 { a ^ b }
  function Half(c: bv64): bv64 { c >> 1 }
  predicate Odd(c: bv64) { c & 1 == 1 }
  function Wide(v: bv8): bv64 { v as bv64 }
  function Low(c: bv64): bv8 { (c & 0xff) as bv8 }
  function Tail(c: bv64): bv64 { c >> 8 }
  function Up(c: bv64): bv64 { c << 8 }

  function Nat(v: bv8): (n: nat)
    ensures n < 256
  {
    v as int
  }
  function Byte(n: nat): bv8
    requires n < 256
  {
    n as bv8
  }

  lemma ByteNat(v: bv8)
    ensures Byte(Nat(v)) == v
  {}

  // The little-endian word whose bytes are p.
  function Word(p: seq<bv8>): bv64 {
    if p == [] then 0 else Xor(Wide(p[0]), Up(Word(p[1..])))
  }

  // The eight little-endian bytes of a word, as digest.Sum lays them out.
  function LittleEndian(c: bv64): (p: seq<bv8>)
    ensures |p| == 8
  {
    [Low(c), Low(c >> 8), Low(c >> 16), Low(c >> 24), Low(c >> 32), Low(c >> 40), Low(c >> 48), Low(c >> 56)]
  }

  // ------------------------------------------------------------------ bit-serial definition

  // One bit of division by the reflected polynomial.
  function Shift(poly: bv64, c: bv64): bv64 {
    if Odd(c) then Xor(Half(c), poly) else Half(c)
  }

  function Shifts(poly: bv64, c: bv64, n: nat): bv64 {
    if n == 0 then c else Shift(poly, Shifts(poly, c, n - 1))
  }

  // Division by k whole bytes.
  function Roll(poly: bv64, c: bv64, k: nat): bv64
    decreases k
  {
    if k == 0 then c else Roll(poly, Shifts(poly, c, 8), k - 1)
  }

  // The bit-serial CRC of p, continuing from crc: no table, no words.
  function Serial(poly: bv64, crc: bv64, p: seq<bv8>): bv64
    decreases |p|
  {
    if p == [] then crc else Serial(poly, Shifts(poly, Xor(crc, Wide(p[0])), 8), p[1..])
  }

  // ------------------------------------------------------------------ table-driven definition

  // The table of a reflected polynomial.
  ghost predicate IsTable(poly: bv64, tab: seq<bv64>) {
    |tab| == 256 && forall i :: 0 <= i < 256 ==> tab[i] == Shifts(poly, Wide(Byte(i)), 8)
  }

  // tab[byte(crc) ^ v] ^ (crc >> 8)
  function Step(tab: seq<bv64>, crc: bv64, v: bv8): bv64
    requires |tab| == 256
  {
    Xor(tab[Nat(Low(crc) ^ v)], Tail(crc))
  }

  // The byte-at-a-time fold of Step.
  function Fold(tab: seq<bv64>, crc: bv64, p: seq<bv8>): bv64
    requires |tab| == 256
    decreases |p|
  {
    if p == [] then crc else Fold(tab, Step(tab, crc, p[0]), p[1..])
  }

  // Entry i of the j-th slicing table: j fold steps over zero bytes from tab[i].
  function Sliced(tab: seq<bv64>, i: nat, j: nat): bv64
    requires |tab| == 256 && i < 256
    decreases j
  {
    if j == 0 then tab[i] else Step(tab, Sliced(tab, i, j - 1), 0)
  }

  // ------------------------------------------------------------------ algebra of words

  lemma XorAssoc(x: bv64, y: bv64, z: bv64)
    ensures Xor(Xor(x, y), z) == Xor(x, Xor(y, z))
  {
    assert Xor(Xor(x, y), z) == (x ^ y) ^ z;
    assert Xor(x, Xor(y, z)) == x ^ (y ^ z);
    RawXorAssoc(x, y, z);
  }

  lemma RawXorAssoc(x: bv64, y: bv64, z: bv64)
    ensures (x ^ y) ^ z == x ^ (y ^ z)
  {}

  lemma XorUnit(x: bv64, y: bv64)
    ensures Xor(x, y) == Xor(y, x) && Xor(x, x) == 0 && Xor(x, 0) == x == Xor(0, x)
  {}

  lemma XorLaws(x: bv64, y: bv64, z: bv64)
    ensures Xor(x, y) == Xor(y, x)
    ensures Xor(Xor(x, y), z) == Xor(x, Xor(y, z))
    ensures Xor(x, x) == 0 && Xor(x, 0) == x == Xor(0, x)
  {
    hide Xor;
    XorAssoc(x, y, z);
    XorUnit(x, y);
  }

  lemma XorCancel(x: bv64, y: bv64, z: bv64)
    ensures Xor(Xor(x, z), Xor(y, z)) == Xor(x, y)
  {
    hide Xor;
    XorLaws(x, z, Xor(y, z));
    XorLaws(y, z, z);
    XorLaws(z, Xor(y, z), z);
  }

  lemma HalfXor(x: bv64, y: bv64)
    ensures Half(Xor(x, y)) == Xor(Half(x), Half(y)) && (Odd(Xor(x, y)) <==> Odd(x) != Odd(y))
  {}

  lemma ShiftLinear(poly: bv64, x: bv64, y: bv64)
    ensures Shift(poly, Xor(x, y)) == Xor(Shift(poly, x), Shift(poly, y))
  {
    hide Xor, Half, Odd;
    HalfXor(x, y);
    XorCancel(Half(x), Half(y), poly);
    XorLaws(Half(x), Half(y), poly);
    XorLaws(Half(x), poly, Half(y));
    XorLaws(poly, Half(y), poly);
  }

  lemma {:induction false} ShiftsLinear(poly: bv64, x: bv64, y: bv64, n: nat)
    ensures Shifts(poly, Xor(x, y), n) == Xor(Shifts(poly, x, n), Shifts(poly, y, n))
  {
    hide Xor, Shift;
    if n > 0 {
      ShiftsLinear(poly, x, y, n - 1);
      ShiftLinear(poly, Shifts(poly, x, n - 1), Shifts(poly, y, n - 1));
    }
  }

  lemma {:induction false} RollLinear(poly: bv64, x: bv64, y: bv64, k: nat)
    ensures Roll(poly, Xor(x, y), k) == Xor(Roll(poly, x, k), Roll(poly, y, k))
    decreases k
  {
    hide Xor, Shifts;
    if k > 0 {
      ShiftsLinear(poly, x, y, 8);
      RollLinear(poly, Shifts(poly, x, 8), Shifts(poly, y, 8), k - 1);
    }
  }

  // w doubled n times, and the condition that no bit is lost on the way.
  function Double(w: bv64): bv64 { w << 1 }
  function Doubled(w: bv64, n: nat): bv64
    decreases n
  {
    if n == 0 then w else Doubled(Double(w), n - 1)
  }
  predicate Fits(w: bv64, n: nat)
    decreases n
  {
    n == 0 || (w < 0x8000_0000_0000_0000 && Fits(Double(w), n - 1))
  }

  // A remainder divisible by 2^n is divided by shifting alone.
  lemma {:induction false} ShiftsDoubled(poly: bv64, w: bv64, n: nat)
    requires Fits(w, n)
    ensures Shifts(poly, Doubled(w, n), n) == w
    decreases n
  {
    if n > 0 {
      ShiftsDoubled(poly, Double(w), n - 1);
      ShiftDouble(poly, w);
      hide Shift, Double;
    }
  }

  lemma ShiftDouble(poly: bv64, w: bv64)
    requires w < 0x8000_0000_0000_0000
    ensures Shift(poly, Double(w)) == w
  {}

  lemma UpIsDoubled(w: bv64)
    requires w < 0x100_0000_0000_0000
    ensures Up(w) == Doubled(w, 8) && Fits(w, 8)
  {
    var w1, w2, w3, w4, w5, w6, w7 := w << 1, w << 2, w << 3, w << 4, w << 5, w << 6, w << 7;
    assert Doubled(w7, 1) == Double(w7) == Up(w) && Fits(w7, 1);
    assert Doubled(w6, 2) == Up(w) && Fits(w6, 2);
    assert Doubled(w5, 3) == Up(w) && Fits(w5, 3);
    assert Doubled(w4, 4) == Up(w) && Fits(w4, 4);
    assert Doubled(w3, 5) == Up(w) && Fits(w3, 5);
    assert Doubled(w2, 6) == Up(w) && Fits(w2, 6);
    assert Doubled(w1, 7) == Up(w) && Fits(w1, 7);
  }

  // Dividing a word by eight bits: the low byte is divided, the rest shifts down.
  lemma ShiftsSplit(poly: bv64, c: bv64)
    ensures Shifts(poly, c, 8) == Xor(Shifts(poly, Wide(Low(c)), 8), Tail(c))
  {
    SplitLow(c);
    UpIsDoubled(Tail(c));
    ShiftsDoubled(poly, Tail(c), 8);
    ShiftsLinear(poly, Wide(Low(c)), Up(Tail(c)), 8);
  }

  lemma SplitLow(c: bv64)
    ensures c == Xor(Wide(Low(c)), Up(Tail(c))) && Tail(c) < 0x100_0000_0000_0000
  {}

  // ------------------------------------------------------------------ the table step is the bit-serial step

  lemma StepIsSerial(poly: bv64, tab: seq<bv64>, crc: bv64, v: bv8)
    requires IsTable(poly, tab)
    ensures Step(tab, crc, v) == Shifts(poly, Xor(crc, Wide(v)), 8)
  {
    LowXor(crc, v);
    ShiftsSplit(poly, Xor(crc, Wide(v)));
    ByteNat(Low(crc) ^ v);
    assert tab[Nat(Low(crc) ^ v)] == Shifts(poly, Wide(Low(crc) ^ v), 8);
  }

  lemma LowXor(crc: bv64, v: bv8)
    ensures Low(Xor(crc, Wide(v))) == Low(crc) ^ v && Tail(Xor(crc, Wide(v))) == Tail(crc)
  {}

  // The table-driven fold computes the bit-serial CRC of every byte string.
  lemma {:induction false} FoldIsSerial(poly: bv64, tab: seq<bv64>, crc: bv64, p: seq<bv8>)
    requires IsTable(poly, tab)
    ensures Fold(tab, crc, p) == Serial(poly, crc, p)
    decreases |p|
  {
    hide Xor, Shifts, Step;
    if p != [] {
      StepIsSerial(poly, tab, crc, p[0]);
      FoldIsSerial(poly, tab, Step(tab, crc, p[0]), p[1..]);
    }
  }

  // A CRC continues across any split of its input.
  lemma {:induction false} FoldConcat(tab: seq<bv64>, crc: bv64, p: seq<bv8>, q: seq<bv8>)
    requires |tab| == 256
    ensures Fold(tab, crc, p + q) == Fold(tab, Fold(tab, crc, p), q)
    decreases |p|
  {
    hide Step;
    if p == [] {
      assert p + q == q;
    } else {
      assert (p + q)[1..] == p[1..] + q;
      FoldConcat(tab, Step(tab, crc, p[0]), p[1..], q);
    }
  }

  // ------------------------------------------------------------------ slicing by eight

  // Up to eight bytes fold in as one word.
  lemma {:induction false} SerialIsRoll(poly: bv64, crc: bv64, p: seq<bv8>)
    requires |p| <= 8
    ensures Serial(poly, crc, p) == Roll(poly, Xor(crc, Word(p)), |p|)
    decreases |p|
  {
    hide Xor, Shifts, Up, Wide;
    if p == [] {
      XorUnit(crc, 0);
    } else {
      var w := Word(p[1..]);
      WordBound(p[1..]);
      BelowTop(w, |p| - 1);
      UpIsDoubled(w);
      ShiftsDoubled(poly, w, 8);
      XorAssoc(crc, Wide(p[0]), Up(w));
      ShiftsLinear(poly, Xor(crc, Wide(p[0])), Up(w), 8);
      SerialIsRoll(poly, Shifts(poly, Xor(crc, Wide(p[0])), 8), p[1..]);
    }
  }

  // 2^(8n)
  function Limit(n: nat): bv64
    requires n <= 7
  {
    match n
    case 0 => 0x1
    case 1 => 0x100
    case 2 => 0x1_0000
    case 3 => 0x100_0000
    case 4 => 0x1_0000_0000
    case 5 => 0x100_0000_0000
    case 6 => 0x1_0000_0000_0000
    case 7 => 0x100_0000_0000_0000
  }

  predicate Below(w: bv64, n: nat)
    requires n <= 7
  {
    w < Limit(n)
  }

  lemma {:induction false} WordBound(p: seq<bv8>)
    requires |p| <= 7
    ensures Below(Word(p), |p|)
    decreases |p|
  {
    if p == [] {
      WordNil();
    } else {
      hide Limit, Below, Word, Xor, Up, Wide;
      WordHead(p);
      WordBound(p[1..]);
      PushByte(p[0], Word(p[1..]), |p| - 1);
    }
  }

  lemma PushByte(v: bv8, w: bv64, n: nat)
    requires n <= 6 && Below(w, n)
    ensures Below(Xor(Wide(v), Up(w)), n + 1)
  {}

  lemma BelowTop(w: bv64, n: nat)
    requires n <= 7 && Below(w, n)
    ensures w < 0x100_0000_0000_0000
  {}

  // c divided byte by byte, each byte through the table of its distance from the end.
  function SliceSum(poly: bv64, c: bv64, k: nat): bv64
    decreases k
  {
    if k == 0 then 0 else Xor(Roll(poly, Wide(Low(c)), k), SliceSum(poly, Tail(c), k - 1))
  }

  function Tails(c: bv64, k: nat): bv64
    decreases k
  {
    if k == 0 then c else Tails(Tail(c), k - 1)
  }

  lemma {:induction false} RollIsSliceSum(poly: bv64, c: bv64, k: nat)
    requires Tails(c, k) == 0
    ensures Roll(poly, c, k) == SliceSum(poly, c, k)
    decreases k
  {
    hide Xor, Shifts, Up, Wide, Low, Tail;
    if k > 0 {
      var b, t := Wide(Low(c)), Tail(c);
      SplitLow(c);
      UpIsDoubled(t);
      ShiftsDoubled(poly, t, 8);
      RollLinear(poly, b, Up(t), k);
      RollIsSliceSum(poly, t, k - 1);
    }
  }

  // Entry i of slicing table j divides byte i by j + 1 bytes.
  lemma {:induction false} SlicedIsRoll(poly: bv64, tab: seq<bv64>, i: nat, j: nat)
    requires IsTable(poly, tab) && i < 256
    ensures Sliced(tab, i, j) == Roll(poly, Wide(Byte(i)), j + 1)
    decreases j
  {
    hide Xor, Shifts, Step, Byte, Wide;
    var w := Wide(Byte(i));
    if j == 0 {
      assert tab[i] == Shifts(poly, w, 8);
      RollSnoc(poly, w, 0);
    } else {
      SlicedIsRoll(poly, tab, i, j - 1);
      StepIsSerial(poly, tab, Sliced(tab, i, j - 1), 0);
      XorUnit(Sliced(tab, i, j - 1), 0);
      ZeroByte();
      RollSnoc(poly, w, j);
    }
  }

  lemma ZeroByte()
    ensures Wide(0) == 0
  {}

  lemma {:induction false} RollSnoc(poly: bv64, c: bv64, k: nat)
    ensures Roll(poly, c, k + 1) == Shifts(poly, Roll(poly, c, k), 8)
    decreases k
  {
    hide Shifts;
    if k > 0 { RollSnoc(poly, Shifts(poly, c, 8), k - 1); }
  }

  // One slicing step over the k low bytes of c, each looked up in its own table.
  function SliceLookup(tab: seq<bv64>, c: bv64, k: nat): bv64
    requires |tab| == 256
    decreases k
  {
    if k == 0 then 0 else Xor(Sliced(tab, Nat(Low(c)), k - 1), SliceLookup(tab, Tail(c), k - 1))
  }

  lemma {:induction false} SliceLookupIsSum(poly: bv64, tab: seq<bv64>, c: bv64, k: nat)
    requires IsTable(poly, tab)
    ensures SliceLookup(tab, c, k) == SliceSum(poly, c, k)
    decreases k
  {
    hide Xor, Shifts, Low, Tail, Step, Wide, Roll, Nat, Byte;
    if k > 0 {
      SlicedIsRoll(poly, tab, Nat(Low(c)), k - 1);
      ByteNat(Low(c));
      SliceLookupIsSum(poly, tab, Tail(c), k - 1);
    }
  }

  // One slicing step is eight steps of the fold.
  lemma SliceIsFold(poly: bv64, tab: seq<bv64>, crc: bv64, p: seq<bv8>)
    requires IsTable(poly, tab) && |p| == 8
    ensures SliceLookup(tab, Xor(crc, Word(p)), 8) == Fold(tab, crc, p)
  {
    hide Xor, Roll, Serial, SliceLookup, SliceSum, Word;
    var c := Xor(crc, Word(p));
    FoldIsSerial(poly, tab, crc, p);
    SerialIsRoll(poly, crc, p);
    TailsEnd(c);
    RollIsSliceSum(poly, c, 8);
    SliceLookupIsSum(poly, tab, c, 8);
  }

  lemma TailShifts(c: bv64)
    ensures Tail(c) == c >> 8 && Tail(c >> 8) == c >> 16 && Tail(c >> 16) == c >> 24 && Tail(c >> 24) == c >> 32
    ensures Tail(c >> 32) == c >> 40 && Tail(c >> 40) == c >> 48 && Tail(c >> 48) == c >> 56 && Tail(c >> 56) == 0
  {}

  // Eight bytes exhaust a word.
  lemma TailsEnd(c: bv64)
    ensures Tails(c, 8) == 0
  {
    TailShifts(c);
    hide Tail;
    assert Tails(c, 8) == Tails(c >> 8, 7) == Tails(c >> 16, 6);
    assert Tails(c >> 16, 6) == Tails(c >> 24, 5) == Tails(c >> 32, 4);
    assert Tails(c >> 32, 4) == Tails(c >> 40, 3) == Tails(c >> 48, 2);
    assert Tails(c >> 48, 2) == Tails(c >> 56, 1) == Tails(0, 0);
  }

  // The eight looked-up entries combined from left to right.
  function Xor8(x7: bv64, x6: bv64, x5: bv64, x4: bv64, x3: bv64, x2: bv64, x1: bv64, x0: bv64): bv64 {
    Xor(Xor(Xor(Xor(Xor(Xor(Xor(x7, x6), x5), x4), x3), x2), x1), x0)
  }

  lemma SliceLookupUnrolled(tab: seq<bv64>, c: bv64, c1: bv64, c2: bv64, c3: bv64, c4: bv64, c5: bv64, c6: bv64,
                            c7: bv64)
    requires |tab| == 256
    requires c1 == Tail(c) && c2 == Tail(c1) && c3 == Tail(c2) && c4 == Tail(c3)
    requires c5 == Tail(c4) && c6 == Tail(c5) && c7 == Tail(c6)
    ensures SliceLookup(tab, c, 8) ==
      Xor8(Sliced(tab, Nat(Low(c)), 7), Sliced(tab, Nat(Low(c1)), 6), Sliced(tab, Nat(Low(c2)), 5),
           Sliced(tab, Nat(Low(c3)), 4), Sliced(tab, Nat(Low(c4)), 3), Sliced(tab, Nat(Low(c5)), 2),
           Sliced(tab, Nat(Low(c6)), 1), Sliced(tab, Nat(Low(c7)), 0))
  {
    hide Tail, Low, Sliced, Xor, Nat;
    SliceLookupHead(tab, c, 8); SliceLookupHead(tab, c1, 7); SliceLookupHead(tab, c2, 6); SliceLookupHead(tab, c3, 5);
    SliceLookupHead(tab, c4, 4); SliceLookupHead(tab, c5, 3); SliceLookupHead(tab, c6, 2); SliceLookupHead(tab, c7, 1);
    assert SliceLookup(tab, Tail(c7), 0) == 0;
    hide SliceLookup, Xor8;
    Xor8Assoc(Sliced(tab, Nat(Low(c)), 7), Sliced(tab, Nat(Low(c1)), 6), Sliced(tab, Nat(Low(c2)), 5),
              Sliced(tab, Nat(Low(c3)), 4), Sliced(tab, Nat(Low(c4)), 3), Sliced(tab, Nat(Low(c5)), 2),
              Sliced(tab, Nat(Low(c6)), 1), Sliced(tab, Nat(Low(c7)), 0));
  }

  lemma SliceLookupHead(tab: seq<bv64>, c: bv64, k: nat)
    requires |tab| == 256 && k > 0
    ensures SliceLookup(tab, c, k) == Xor(Sliced(tab, Nat(Low(c)), k - 1), SliceLookup(tab, Tail(c), k - 1))
  {}

  lemma Xor8Assoc(x7: bv64, x6: bv64, x5: bv64, x4: bv64, x3: bv64, x2: bv64, x1: bv64, x0: bv64)
    ensures Xor8(x7, x6, x5, x4, x3, x2, x1, x0) ==
      Xor(x7, Xor(x6, Xor(x5, Xor(x4, Xor(x3, Xor(x2, Xor(x1, Xor(x0, 0))))))))
  {
    hide Xor;
    XorUnit(x0, 0);
    XorAssoc(Xor(Xor(Xor(Xor(Xor(x7, x6), x5), x4), x3), x2), x1, x0);
    XorAssoc(Xor(Xor(Xor(Xor(x7, x6), x5), x4), x3), x2, Xor(x1, x0));
    XorAssoc(Xor(Xor(Xor(x7, x6), x5), x4), x3, Xor(x2, Xor(x1, x0)));
    XorAssoc(Xor(Xor(x7, x6), x5), x4, Xor(x3, Xor(x2, Xor(x1, x0))));
    XorAssoc(Xor(x7, x6), x5, Xor(x4, Xor(x3, Xor(x2, Xor(x1, x0)))));
    XorAssoc(x7, x6, Xor(x5, Xor(x4, Xor(x3, Xor(x2, Xor(x1, x0))))));
  }

  // The source's little-endian load of eight bytes.
  function Load(v0: bv8, v1: bv8, v2: bv8, v3: bv8, v4: bv8, v5: bv8, v6: bv8, v7: bv8): bv64 {
    Wide(v0) | (Wide(v1) << 8) | (Wide(v2) << 16) | (Wide(v3) << 24) |
    (Wide(v4) << 32) | (Wide(v5) << 40) | (Wide(v6) << 48) | (Wide(v7) << 56)
  }

  lemma LoadIsWord(p: seq<bv8>)
    requires |p| == 8
    ensures Load(p[0], p[1], p[2], p[3], p[4], p[5], p[6], p[7]) == Word(p)
  {
    hide Xor, Up, Wide, Load;
    LoadIsNested(p[0], p[1], p[2], p[3], p[4], p[5], p[6], p[7]);
    WordHead(p[7..]); WordHead(p[6..]); WordHead(p[5..]); WordHead(p[4..]);
    WordHead(p[3..]); WordHead(p[2..]); WordHead(p[1..]); WordHead(p);
    WordNil();
    hide Word;
    assert p[7..][1..] == [] && p[6..][1..] == p[7..] && p[5..][1..] == p[6..] && p[4..][1..] == p[5..];
    assert p[3..][1..] == p[4..] && p[2..][1..] == p[3..] && p[1..][1..] == p[2..];
  }

  lemma WordNil()
    ensures Word([]) == 0
  {}

  lemma WordHead(p: seq<bv8>)
    requires p != []
    ensures Word(p) == Xor(Wide(p[0]), Up(Word(p[1..])))
  {}

  lemma LoadIsNested(v0: bv8, v1: bv8, v2: bv8, v3: bv8, v4: bv8, v5: bv8, v6: bv8, v7: bv8)
    ensures Load(v0, v1, v2, v3, v4, v5, v6, v7) ==
      Xor(Wide(v0), Up(Xor(Wide(v1), Up(Xor(Wide(v2), Up(Xor(Wide(v3),
      Up(Xor(Wide(v4), Up(Xor(Wide(v5), Up(Xor(Wide(v6), Up(Xor(Wide(v7), Up(0))))))))))))))))
  {}

  // ------------------------------------------------------------------ residue

  // Appending a CRC, little-endian, to the bytes it covers gives CRC zero.
  lemma Residue(poly: bv64, tab: seq<bv64>, crc: bv64, p: seq<bv8>)
    requires IsTable(poly, tab)
    ensures Fold(tab, crc, p + LittleEndian(Fold(tab, crc, p))) == 0
  {
    assert |tab| == 256;
    hide Xor, Step, LittleEndian, Roll, Word, Serial, IsTable;
    var c := Fold(tab, crc, p);
    FoldConcat(tab, crc, p, LittleEndian(c));
    FoldIsSerial(poly, tab, c, LittleEndian(c));
    SerialIsRoll(poly, c, LittleEndian(c));
    WordOfBytes(c);
    XorUnit(c, 0);
    RollZero(poly, 8);
  }

  lemma WordOfBytes(c: bv64)
    ensures Word(LittleEndian(c)) == c
  {
    var p := LittleEndian(c);
    LoadIsWord(p);
    hide Word;
    LoadOfBytes(c);
  }

  lemma LoadOfBytes(c: bv64)
    ensures Load(Low(c), Low(c >> 8), Low(c >> 16), Low(c >> 24), Low(c >> 32), Low(c >> 40), Low(c >> 48),
      Low(c >> 56)) == c
  {}

  lemma {:induction false} RollZero(poly: bv64, k: nat)
    ensures Roll(poly, 0, k) == 0
    decreases k
  {
    if k > 0 {
      UpIsDoubled(0);
      ShiftsDoubled(poly, 0, 8);
      RollZero(poly, k - 1);
    }
  }

  // ------------------------------------------------------------------ the code

  // crc64.MakeTable for a reflected polynomial.
  method MakeTable(poly: bv64) returns (tab: array<bv64>)
    ensures fresh(tab) && IsTable(poly, tab[..])
  {
    hide Shift, Wide, Byte;
    tab := new bv64[256];
    var i := 0;
    while i < 256
      invariant 0 <= i <= 256
      invariant forall k :: 0 <= k < i ==> tab[k] == Shifts(poly, Wide(Byte(k)), 8)
    {
      var crc, j := Wide(Byte(i)), 0;
      while j < 8
        invariant 0 <= j <= 8 && crc == Shifts(poly, Wide(Byte(i)), j)
        invariant forall k :: 0 <= k < i ==> tab[k] == Shifts(poly, Wide(Byte(k)), 8)
      {
        ShiftCases(poly, crc);
        crc := if Odd(crc) then Xor(Half(crc), poly) else Half(crc);
        j := j + 1;
      }
      tab[i] := crc;
      i := i + 1;
    }
  }

  lemma ShiftCases(poly: bv64, c: bv64)
    ensures Shift(poly, c) == if Odd(c) then Xor(Half(c), poly) else Half(c)
  {}

  // The eight tables of slicing-by-8: entry i of table j is entry i of t, j zero bytes later.
  method MakeSlicingBy8Table(t: array<bv64>) returns (helper: array2<bv64>)
    requires t.Length == 256
    ensures fresh(helper) && helper.Length0 == 8 && helper.Length1 == 256
    ensures forall j, i :: 0 <= j < 8 && 0 <= i < 256 ==> helper[j, i] == Sliced(t[..], i, j)
  {
    helper := new bv64[8, 256];
    var i := 0;
    while i < 256
      invariant 0 <= i <= 256
      invariant forall j, k :: 0 <= j < 8 && 0 <= k < i ==> helper[j, k] == Sliced(t[..], k, j)
    {
      FillColumn(t, helper, i);
      i := i + 1;
    }
  }

  method FillColumn(t: array<bv64>, helper: array2<bv64>, i: nat)
    requires t.Length == 256 && i < 256 && helper.Length0 == 8 && helper.Length1 == 256
    modifies helper
    ensures forall j :: 0 <= j < 8 ==> helper[j, i] == Sliced(t[..], i, j)
    ensures forall j, k :: 0 <= j < 8 && 0 <= k < 256 && k != i ==> helper[j, k] == old(helper[j, k])
  {
    hide Step;
    var crc, j := t[i], 1;
    helper[0, i] := crc;
    while j < 8
      invariant 1 <= j <= 8 && crc == Sliced(t[..], i, j - 1)
      invariant forall l :: 0 <= l < j ==> helper[l, i] == Sliced(t[..], i, l)
      invariant forall l, k :: 0 <= l < 8 && 0 <= k < 256 && k != i ==> helper[l, k] == old(helper[l, k])
    {
      ZeroStep(t[..], crc);
      crc := Xor(t[Nat(Low(crc))], Tail(crc));
      helper[j, i] := crc;
      j := j + 1;
    }
  }

  lemma ZeroStep(tab: seq<bv64>, crc: bv64)
    requires |tab| == 256
    ensures Step(tab, crc, 0) == Xor(tab[Nat(Low(crc))], Tail(crc))
  {
    assert Low(crc) ^ 0 == Low(crc);
  }

  // update: the slicing-by-8 fast path for long inputs, then the byte-at-a-time loop. A table that
  // is neither the Jones one nor worth slicing (below 2048 bytes) takes the byte loop alone.
  method Update(crc0: bv64, tab: array<bv64>, p0: seq<bv8>, jones: array<bv64>, ghost poly: bv64) returns (crc: bv64)
    requires tab.Length == 256 == jones.Length
    requires IsTable(poly, tab[..])
    ensures crc == Fold(tab[..], crc0, p0)
  {
    crc := crc0;
    var p := p0;
    while |p| >= 64
      invariant Fold(tab[..], crc, p) == Fold(tab[..], crc0, p0)
      decreases |p|
    {
      var helper;
      if tab[..] == jones[..] {
        helper := MakeSlicingBy8Table(jones);
      } else if |p| >= 2048 {
        helper := MakeSlicingBy8Table(tab);
      } else {
        break;
      }
      crc, p := SliceBy8(crc, tab, p, helper, poly);
    }
    hide Step;
    while p != []
      invariant Fold(tab[..], crc, p) == Fold(tab[..], crc0, p0)
      decreases |p|
    {
      StepIs(tab[..], crc, p[0]);
      crc := Xor(tab[Nat(Low(crc) ^ p[0])], Tail(crc));
      p := p[1..];
    }
  }

  lemma StepIs(tab: seq<bv64>, crc: bv64, v: bv8)
    requires |tab| == 256
    ensures Step(tab, crc, v) == Xor(tab[Nat(Low(crc) ^ v)], Tail(crc))
  {}

  // The inner slicing loop: eight bytes a turn while more than eight are left.
  method SliceBy8(crc0: bv64, tab: array<bv64>, p0: seq<bv8>, helper: array2<bv64>, ghost poly: bv64)
    returns (crc: bv64, p: seq<bv8>)
    requires tab.Length == 256 && IsTable(poly, tab[..]) && |p0| > 8
    requires helper.Length0 == 8 && helper.Length1 == 256
    requires forall j, i :: 0 <= j < 8 && 0 <= i < 256 ==> helper[j, i] == Sliced(tab[..], i, j)
    ensures |p| <= 8 && Fold(tab[..], crc, p) == Fold(tab[..], crc0, p0)
  {
    ghost var t := tab[..];
    hide Step, Word, Load, Xor, Sliced, IsTable, SlicedXor;
    crc, p := crc0, p0;
    while |p| > 8
      invariant Fold(t, crc, p) == Fold(t, crc0, p0)
      decreases |p|
    {
      SliceStep(poly, t, crc, p);
      crc := Xor(crc, Load(p[0], p[1], p[2], p[3], p[4], p[5], p[6], p[7]));
      crc := LookupXor(crc, helper, t);
      p := p[8..];
    }
  }

  // One entry from each of the eight tables, picked by the eight bytes of c.
  method LookupXor(c: bv64, helper: array2<bv64>, ghost tab: seq<bv64>) returns (r: bv64)
    requires |tab| == 256 && helper.Length0 == 8 && helper.Length1 == 256
    requires forall j, i :: 0 <= j < 8 && 0 <= i < 256 ==> helper[j, i] == Sliced(tab, i, j)
    ensures r == SlicedXor(tab, c)
  {
    hide Nat, Low, Xor8, Sliced;
    r := Xor8(helper[7, Nat(Low(c))], helper[6, Nat(Low(c >> 8))], helper[5, Nat(Low(c >> 16))],
              helper[4, Nat(Low(c >> 24))], helper[3, Nat(Low(c >> 32))], helper[2, Nat(Low(c >> 40))],
              helper[1, Nat(Low(c >> 48))], helper[0, Nat(Low(c >> 56))]);
  }

  function SlicedXor(tab: seq<bv64>, c: bv64): bv64
    requires |tab| == 256
  {
    Xor8(Sliced(tab, Nat(Low(c)), 7), Sliced(tab, Nat(Low(c >> 8)), 6), Sliced(tab, Nat(Low(c >> 16)), 5),
         Sliced(tab, Nat(Low(c >> 24)), 4), Sliced(tab, Nat(Low(c >> 32)), 3), Sliced(tab, Nat(Low(c >> 40)), 2),
         Sliced(tab, Nat(Low(c >> 48)), 1), Sliced(tab, Nat(Low(c >> 56)), 0))
  }

  lemma SlicedXorIsLookup(tab: seq<bv64>, c: bv64)
    requires |tab| == 256
    ensures SlicedXor(tab, c) == SliceLookup(tab, c, 8)
  {
    TailShifts(c);
    hide Tail, Low, Nat, Xor8, SliceLookup, Sliced;
    SliceLookupUnrolled(tab, c, c >> 8, c >> 16, c >> 24, c >> 32, c >> 40, c >> 48, c >> 56);
  }

  // A slicing step over the first eight bytes of p, as the code takes it.
  lemma SliceStep(poly: bv64, tab: seq<bv64>, crc: bv64, p: seq<bv8>)
    requires IsTable(poly, tab) && |p| >= 8
    ensures var c := Xor(crc, Load(p[0], p[1], p[2], p[3], p[4], p[5], p[6], p[7]));
      Fold(tab, crc, p) == Fold(tab, SlicedXor(tab, c), p[8..])
  {
    hide Step, Word, Load, Xor, SlicedXor, SliceLookup, Fold;
    var q := p[..8];
    var c := Xor(crc, Load(p[0], p[1], p[2], p[3], p[4], p[5], p[6], p[7]));
    LoadIsWord(q);
    SliceIsFold(poly, tab, crc, q);
    SlicedXorIsLookup(tab, c);
    FoldConcat(tab, crc, q, p[8..]);
    assert q + p[8..] == p;
  }

  // ------------------------------------------------------------------ reflection

  // The low bit of p enters x from the right.
  function Push(x: bv64, p: bv64): bv64 { (x << 1) | (p & 1) }

  function Pushes(p: bv64, x: bv64, n: nat): bv64
    decreases n
  {
    if n == 0 then x else Pushes(Half(p), Push(x, p), n - 1)
  }

  // A byte with its bits in reverse order.
  function Flip(b: bv64): bv64 {
    ((b & 0x01) << 7) | ((b & 0x02) << 5) | ((b & 0x04) << 3) | ((b & 0x08) << 1)
    | ((b & 0x10) >> 1) | ((b & 0x20) >> 3) | ((b & 0x40) >> 5) | ((b & 0x80) >> 7)
  }

  function Flip32(p: bv64): bv64 { (Flip(p) << 24) | (Flip(p >> 8) << 16) | (Flip(p >> 16) << 8) | Flip(p >> 24) }

  // A word with its bits in reverse order.
  function Mirror(p: bv64): bv64 { Push32(Flip32(p), Half32(p)) }

  // The word with only bit i set.
  function One(i: bv6): bv64 { 1 << i }

  predicate HasBit(p: bv64, i: bv6) { And(p, One(i)) != 0 }

  function And(p: bv64, q: bv64): bv64 { p & q }

  // Bit i of a word is bit 63 - i of the mirrored word.
  lemma MirrorBit(p: bv64, i: bv6)
    ensures HasBit(Mirror(p), 63 - i) <==> HasBit(p, i)
  {
    hide Mirror, One, And;
    MirrorAnd(p, One(i));
    MirrorOne(i);
    MirrorZero(And(p, One(i)));
  }

  lemma MirrorAnd(p: bv64, q: bv64)
    ensures Mirror(And(p, q)) == And(Mirror(p), Mirror(q))
  {}

  lemma MirrorOne(i: bv6)
    ensures Mirror(One(i)) == One(63 - i)
  {}

  lemma MirrorZero(p: bv64)
    ensures Mirror(p) == 0 <==> p == 0
  {}

  // Reflecting twice gives the polynomial back.
  lemma MirrorTwice(p: bv64)
    ensures Mirror(Mirror(p)) == p
  {}

  lemma MirrorJones()
    ensures Mirror(JONES) == JONES_REFLECTED
  {}

  function Nibble(p: bv64): bv64 { ((p & 1) << 3) | ((p & 2) << 1) | ((p & 4) >> 1) | ((p & 8) >> 3) }
  function Half4(p: bv64): bv64 { p >> 4 }
  function Push4(x: bv64, p: bv64): bv64 { (x << 4) | Nibble(p) }
  function Half8(p: bv64): bv64 { p >> 8 }
  function Push8(x: bv64, p: bv64): bv64 { (x << 8) | Flip(p) }

  lemma PushFour(p: bv64, x: bv64, n: nat)
    requires n >= 4
    ensures Pushes(p, x, n) == Pushes(Half4(p), Push4(x, p), n - 4)
  {
    hide Half, Push, Half4, Push4;
    var p1, x1 := Half(p), Push(x, p);
    var p2, x2 := Half(p1), Push(x1, p1);
    var p3, x3 := Half(p2), Push(x2, p2);
    assert Pushes(p, x, n) == Pushes(p1, x1, n - 1) == Pushes(p2, x2, n - 2) == Pushes(p3, x3, n - 3);
    RawFour(p, x);
  }

  lemma RawFour(p: bv64, x: bv64)
    ensures Half(Half(Half(Half(p)))) == Half4(p)
    ensures Push(Push(Push(Push(x, p), Half(p)), Half(Half(p))), Half(Half(Half(p)))) == Push4(x, p)
  {
    hide Push, Push4;
    RawPush(p, x);
  }

  lemma RawPush(p: bv64, x: bv64)
    ensures Push(Push(Push(Push(x, p), Half(p)), Half(Half(p))), Half(Half(Half(p)))) == Push4(x, p)
  {}

  lemma PushEight(p: bv64, x: bv64, n: nat)
    requires n >= 8
    ensures Pushes(p, x, n) == Pushes(Half8(p), Push8(x, p), n - 8)
  {
    hide Pushes, Half4, Push4, Half8, Push8;
    PushFour(p, x, n);
    PushFour(Half4(p), Push4(x, p), n - 4);
    RawByte(p, x);
  }

  lemma RawByte(p: bv64, x: bv64)
    ensures Half4(Half4(p)) == Half8(p) && Push4(Push4(x, p), Half4(p)) == Push8(x, p)
  {}

  function Half16(p: bv64): bv64 { p >> 16 }
  function Push16(x: bv64, p: bv64): bv64 { (x << 16) | (Flip(p) << 8) | Flip(p >> 8) }

  lemma PushTwo(p: bv64, x: bv64, n: nat)
    requires n >= 16
    ensures Pushes(p, x, n) == Pushes(Half16(p), Push16(x, p), n - 16)
  {
    hide Pushes, Half8, Push8, Half16, Push16;
    PushEight(p, x, n);
    PushEight(Half8(p), Push8(x, p), n - 8);
    RawTwo(p, x);
  }

  lemma RawTwo(p: bv64, x: bv64)
    ensures Half8(Half8(p)) == Half16(p) && Push8(Push8(x, p), Half8(p)) == Push16(x, p)
  {}

  function Half32(p: bv64): bv64 { p >> 32 }
  function Push32(x: bv64, p: bv64): bv64 { (x << 32) | Flip32(p) }

  // Sixty-four turns mirror the word.
  lemma PushesMirror(p: bv64)
    ensures Pushes(p, 0, 64) == Mirror(p)
  {
    hide Pushes, Half16, Push16, Half32, Push32, Mirror;
    var p1, x1 := Half16(p), Push16(0, p);
    PushTwo(p, 0, 64);
    PushTwo(p1, x1, 48);
    RawQuad(p, 0);
    var p2, x2 := Half32(p), Push32(0, p);
    var p3, x3 := Half16(p2), Push16(x2, p2);
    PushTwo(p2, x2, 32);
    PushTwo(p3, x3, 16);
    RawQuad(p2, x2);
    NoPushes(Half32(p2), Push32(x2, p2));
    RawMirror(p);
  }

  lemma NoPushes(p: bv64, x: bv64)
    ensures Pushes(p, x, 0) == x
  {}

  lemma RawQuad(p: bv64, x: bv64)
    ensures Half16(Half16(p)) == Half32(p) && Push16(Push16(x, p), Half16(p)) == Push32(x, p)
  {}

  lemma RawMirror(p: bv64)
    ensures Push32(Push32(0, p), Half32(p)) == Mirror(p)
  {
    hide Push32, Half32, Flip32;
    FirstHalf(p);
  }

  lemma FirstHalf(p: bv64)
    ensures Push32(0, p) == Flip32(p)
  {
    hide Flip, Flip32;
    RawZero(Flip32(p));
  }

  lemma RawZero(y: bv64)
    ensures (0 << 32) | y == y
  {}

  // reflect
  method Reflect(poly: bv64) returns (x: bv64)
    ensures x == Mirror(poly) && forall k: bv6 :: HasBit(x, 63 - k) <==> HasBit(poly, k)
  {
    hide Mirror, HasBit;
    PushesMirror(poly);
    var p := poly;
    x := p & 1;
    FirstPush(p);
    var i := 1;
    while i < 64
      invariant 1 <= i <= 64 && Pushes(Half(p), x, 64 - i) == Pushes(poly, 0, 64)
    {
      p := p >> 1;
      x := x << 1;
      x := x | (p & 1);
      i := i + 1;
    }
    forall k: bv6 ensures HasBit(x, 63 - k) <==> HasBit(poly, k) { MirrorBit(poly, k); }
  }

  lemma FirstPush(p: bv64)
    ensures Push(0, p) == p & 1
  {}

  // ------------------------------------------------------------------ the checksum tells strings apart

  // The check value of the specification: the checksum of "123456789".
  lemma CheckValue(tab: seq<bv64>)
    requires IsTable(JONES_REFLECTED, tab)
    ensures Fold(tab, 0, NINE_DIGITS) == Serial(JONES_REFLECTED, 0, NINE_DIGITS) == 0xe9c6_d914_c4b8_d9ca
  {
    hide IsTable, Fold, Serial, Divided;
    FoldIsSerial(JONES_REFLECTED, tab, 0, NINE_DIGITS);
    NineSteps(NINE_DIGITS);
    Feed(0x0000_0000_0000_0000, 0x31);
    Digit1(0x0000_0000_0000_0000 ^ 0x31);
    Feed(0xfdc1_7184_a9f7_39fa, 0x32);
    Digit2(0xfdc1_7184_a9f7_39fa ^ 0x32);
    Feed(0xe103_6451_3a98_ed96, 0x33);
    Digit3(0xe103_6451_3a98_ed96 ^ 0x33);
    Feed(0xd5bc_fb81_4479_b1ac, 0x34);
    Digit4(0xd5bc_fb81_4479_b1ac ^ 0x34);
    Feed(0x4359_3c5d_cda5_21f0, 0x35);
    Digit5(0x4359_3c5d_cda5_21f0 ^ 0x35);
    Feed(0xf075_8513_239c_7e0d, 0x36);
    Digit6(0xf075_8513_239c_7e0d ^ 0x36);
    Feed(0xa3a9_0925_b2ab_4903, 0x37);
    Digit7(0xa3a9_0925_b2ab_4903 ^ 0x37);
    Feed(0x4782_4d36_2431_ad45, 0x38);
    Digit8(0x4782_4d36_2431_ad45 ^ 0x38);
    Feed(0x49ec_20b3_15e8_6dc2, 0x39);
    Digit9(0x49ec_20b3_15e8_6dc2 ^ 0x39);
  }

  const NINE_DIGITS: seq<bv8> := [0x31, 0x32, 0x33, 0x34, 0x35, 0x36, 0x37, 0x38, 0x39]

  // One byte of the reflected Jones polynomial, written out.
  function Halved(c: bv64): bv64 { if c & 1 == 1 then (c >> 1) ^ 0x95ac_9329_ac4b_c9b5 else c >> 1 }

  function Divided(c: bv64): bv64 { Halved(Halved(Halved(Halved(Halved(Halved(Halved(Halved(c)))))))) }

  lemma DividedIs(c: bv64)
    ensures Shifts(JONES_REFLECTED, c, 8) == Divided(c)
  {
    hide Halved, Shift;
    var d := Halved(Halved(Halved(Halved(c))));
    FourShifts(c);
    FourShifts(d);
    ShiftsAgain(c, 4, 4);
  }

  lemma FourShifts(c: bv64)
    ensures Shifts(JONES_REFLECTED, c, 4) == Halved(Halved(Halved(Halved(c))))
  {
    hide Halved, Shift;
    ShiftIsHalved(c);
    ShiftIsHalved(Halved(c));
    ShiftIsHalved(Halved(Halved(c)));
    ShiftIsHalved(Halved(Halved(Halved(c))));
    assert Shifts(JONES_REFLECTED, c, 0) == c;
    assert Shifts(JONES_REFLECTED, c, 1) == Halved(c);
    assert Shifts(JONES_REFLECTED, c, 2) == Halved(Halved(c));
    assert Shifts(JONES_REFLECTED, c, 3) == Halved(Halved(Halved(c)));
  }

  lemma ShiftIsHalved(c: bv64)
    ensures Shift(JONES_REFLECTED, c) == Halved(c)
  {}

  lemma {:induction false} ShiftsAgain(c: bv64, m: nat, n: nat)
    ensures Shifts(JONES_REFLECTED, c, m + n) == Shifts(JONES_REFLECTED, Shifts(JONES_REFLECTED, c, m), n)
  {
    hide Shift;
    if n > 0 { ShiftsAgain(c, m, n - 1); }
  }

  function Fed(crc: bv64, v: bv8): bv64 { Shifts(JONES_REFLECTED, Xor(crc, Wide(v)), 8) }

  lemma Feed(crc: bv64, v: bv8)
    ensures Fed(crc, v) == Divided(crc ^ (v as bv64))
  {
    hide Divided, Shifts;
    DividedIs(Xor(crc, Wide(v)));
  }

  lemma NineSteps(s: seq<bv8>)
    requires |s| == 9
    ensures Serial(JONES_REFLECTED, 0, s) ==
      Fed(Fed(Fed(Fed(Fed(Fed(Fed(Fed(Fed(0, s[0]), s[1]), s[2]), s[3]), s[4]), s[5]), s[6]), s[7]), s[8])
  {
    hide Fed, Serial;
    var c3 := Fed(Fed(Fed(0, s[0]), s[1]), s[2]);
    var c6 := Fed(Fed(Fed(c3, s[3]), s[4]), s[5]);
    ThreeSteps(0, s);
    ThreeSteps(c3, s[3..]);
    ThreeSteps(c6, s[6..]);
    assert s[3..][3..] == s[6..];
    assert |s[6..][3..]| == 0;
    NoStep(Fed(Fed(Fed(c6, s[6]), s[7]), s[8]));
  }

  lemma NoStep(crc: bv64)
    ensures Serial(JONES_REFLECTED, crc, []) == crc
  {}

  lemma ThreeSteps(crc: bv64, s: seq<bv8>)
    requires |s| >= 3
    ensures Serial(JONES_REFLECTED, crc, s) == Serial(JONES_REFLECTED, Fed(Fed(Fed(crc, s[0]), s[1]), s[2]), s[3..])
  {
    hide Fed, Serial;
    OneStep(crc, s);
    OneStep(Fed(crc, s[0]), s[1..]);
    OneStep(Fed(Fed(crc, s[0]), s[1]), s[2..]);
    assert s[1..][1..] == s[2..] && s[2..][1..] == s[3..];
  }

  lemma OneStep(crc: bv64, s: seq<bv8>)
    requires s != []
    ensures Serial(JONES_REFLECTED, crc, s) == Serial(JONES_REFLECTED, Fed(crc, s[0]), s[1..])
  {
    hide Shifts, Xor, Wide;
  }

  lemma Digit1(c: bv64)
    requires c == 0x0000_0000_0000_0000 ^ 0x31
    ensures Divided(c) == 0xfdc1_7184_a9f7_39fa
  {}

  lemma Digit2(c: bv64)
    requires c == 0xfdc1_7184_a9f7_39fa ^ 0x32
    ensures Divided(c) == 0xe103_6451_3a98_ed96
  {}

  lemma Digit3(c: bv64)
    requires c == 0xe103_6451_3a98_ed96 ^ 0x33
    ensures Divided(c) == 0xd5bc_fb81_4479_b1ac
  {}

  lemma Digit4(c: bv64)
    requires c == 0xd5bc_fb81_4479_b1ac ^ 0x34
    ensures Divided(c) == 0x4359_3c5d_cda5_21f0
  {}

  lemma Digit5(c: bv64)
    requires c == 0x4359_3c5d_cda5_21f0 ^ 0x35
    ensures Divided(c) == 0xf075_8513_239c_7e0d
  {}

  lemma Digit6(c: bv64)
    requires c == 0xf075_8513_239c_7e0d ^ 0x36
    ensures Divided(c) == 0xa3a9_0925_b2ab_4903
  {}

  lemma Digit7(c: bv64)
    requires c == 0xa3a9_0925_b2ab_4903 ^ 0x37
    ensures Divided(c) == 0x4782_4d36_2431_ad45
  {}

  lemma Digit8(c: bv64)
    requires c == 0x4782_4d36_2431_ad45 ^ 0x38
    ensures Divided(c) == 0x49ec_20b3_15e8_6dc2
  {}

  lemma Digit9(c: bv64)
    requires c == 0x49ec_20b3_15e8_6dc2 ^ 0x39
    ensures Divided(c) == 0xe9c6_d914_c4b8_d9ca
  {}

  // Division by a polynomial with its top bit set loses nothing.
  lemma ShiftInjective(poly: bv64, x: bv64, y: bv64)
    requires poly >= 0x8000_0000_0000_0000 && Shift(poly, x) == Shift(poly, y)
    ensures x == y
  {}

  lemma {:induction false} ShiftsInjective(poly: bv64, x: bv64, y: bv64, n: nat)
    requires poly >= 0x8000_0000_0000_0000 && Shifts(poly, x, n) == Shifts(poly, y, n)
    ensures x == y
  {
    hide Shift;
    if n > 0 {
      ShiftInjective(poly, Shifts(poly, x, n - 1), Shifts(poly, y, n - 1));
      ShiftsInjective(poly, x, y, n - 1);
    }
  }

  lemma {:induction false} RollInjective(poly: bv64, x: bv64, y: bv64, k: nat)
    requires TopBit(poly) && Roll(poly, x, k) == Roll(poly, y, k)
    ensures x == y
    decreases k
  {
    hide Shifts;
    if k > 0 {
      RollInjective(poly, Shifts(poly, x, 8), Shifts(poly, y, 8), k - 1);
      ShiftsInjective(poly, x, y, 8);
    }
  }

  predicate TopBit(poly: bv64) { poly >= 0x8000_0000_0000_0000 }

  // From different states the same bytes lead to different states.
  lemma {:induction false} SerialInjective(poly: bv64, x: bv64, y: bv64, s: seq<bv8>)
    requires TopBit(poly) && Serial(poly, x, s) == Serial(poly, y, s)
    ensures x == y
    decreases |s|
  {
    hide Shifts, Xor, TopBit;
    if s != [] {
      var v := Wide(s[0]);
      SerialInjective(poly, Shifts(poly, Xor(x, v), 8), Shifts(poly, Xor(y, v), 8), s[1..]);
      TopShiftsInjective(poly, Xor(x, v), Xor(y, v));
      XorBack(x, y, v);
    }
  }

  lemma TopShiftsInjective(poly: bv64, x: bv64, y: bv64)
    requires TopBit(poly) && Shifts(poly, x, 8) == Shifts(poly, y, 8)
    ensures x == y
  {
    hide Shifts;
    ShiftsInjective(poly, x, y, 8);
  }

  lemma XorBack(x: bv64, y: bv64, v: bv64)
    requires Xor(x, v) == Xor(y, v)
    ensures x == y
  {}

  lemma {:induction false} SerialConcat(poly: bv64, crc: bv64, p: seq<bv8>, q: seq<bv8>)
    ensures Serial(poly, crc, p + q) == Serial(poly, Serial(poly, crc, p), q)
    decreases |p|
  {
    hide Shifts, Xor;
    if p == [] {
      assert p + q == q;
    } else {
      assert (p + q)[1..] == p[1..] + q;
      SerialConcat(poly, Shifts(poly, Xor(crc, Wide(p[0])), 8), p[1..], q);
    }
  }

  // Words of as many bytes are equal only if the bytes are.
  lemma {:induction false} WordInjective(p: seq<bv8>, q: seq<bv8>)
    requires |p| == |q| <= 8 && Word(p) == Word(q)
    ensures p == q
    decreases |p|
  {
    hide Xor, Up, Wide, Word;
    if p != [] {
      var v, w := Word(p[1..]), Word(q[1..]);
      WordHead(p);
      WordHead(q);
      WordBound(p[1..]);
      WordBound(q[1..]);
      BelowTop(v, |p| - 1);
      BelowTop(w, |q| - 1);
      HeadTail(p[0], v, q[0], w);
      WordInjective(p[1..], q[1..]);
      assert p == [p[0]] + p[1..] && q == [q[0]] + q[1..];
    }
  }

  lemma HeadTail(a: bv8, v: bv64, b: bv8, w: bv64)
    requires v < 0x100_0000_0000_0000 && w < 0x100_0000_0000_0000
    requires Xor(Wide(a), Up(v)) == Xor(Wide(b), Up(w))
    ensures a == b && v == w
  {}

  // A change inside eight consecutive bytes always changes the checksum.
  lemma BurstDetected(poly: bv64, crc: bv64, p: seq<bv8>, x: seq<bv8>, y: seq<bv8>, q: seq<bv8>)
    requires TopBit(poly) && |x| == |y| <= 8 && x != y
    ensures Serial(poly, crc, p + x + q) != Serial(poly, crc, p + y + q)
  {
    hide Serial, Roll, Word, Xor, TopBit;
    SerialConcat(poly, crc, p + x, q);
    SerialConcat(poly, crc, p + y, q);
    SerialConcat(poly, crc, p, x);
    SerialConcat(poly, crc, p, y);
    var c := Serial(poly, crc, p);
    if Serial(poly, crc, p + x + q) == Serial(poly, crc, p + y + q) {
      SerialInjective(poly, Serial(poly, c, x), Serial(poly, c, y), q);
      SerialIsRoll(poly, c, x);
      SerialIsRoll(poly, c, y);
      RollInjective(poly, Xor(c, Word(x)), Xor(c, Word(y)), |x|);
      XorLaws(c, Word(x), 0);
      XorLaws(c, Word(y), 0);
      XorBack(Word(x), Word(y), c);
      WordInjective(x, y);
    }
  }

  // digest: a running checksum.
  class Digest {
    var crc: bv64
    const tab: array<bv64>
    const jones: array<bv64>
    ghost const poly: bv64
    ghost var written: seq<bv8>

    ghost predicate Valid()
      reads this, tab, jones
    {
      tab.Length == 256 == jones.Length && IsTable(poly, tab[..]) && crc == Fold(tab[..], 0, written)
    }

    constructor ()
      ensures Valid() && written == [] && poly == JONES_REFLECTED && fresh(tab) && fresh(jones)
    {
      MirrorJones();
      var reflected := Reflect(JONES);
      var t := MakeTable(reflected);
      crc, tab, jones, poly, written := 0, t, t, JONES_REFLECTED, [];
    }

    method Reset()
      requires Valid()
      modifies this
      ensures Valid() && written == []
    {
      crc, written := 0, [];
    }

    method Write(p: seq<bv8>) returns (n: nat)
      requires Valid()
      modifies this
      ensures Valid() && written == old(written) + p && n == |p|
      ensures crc == Fold(tab[..], old(crc), p) == Serial(poly, 0, written)
    {
      FoldConcat(tab[..], 0, written, p);
      FoldIsSerial(poly, tab[..], 0, written + p);
      crc := Update(crc, tab, p, jones, poly);
      written := written + p;
      n := |p|;
    }

    method Sum64() returns (s: bv64)
      requires Valid()
      ensures s == Fold(tab[..], 0, written)
    {
      s := crc;
    }

    // Appends the checksum, little-endian; what it sums, extended by the checksum, sums to zero.
    method Sum(prefix: seq<bv8>) returns (out: seq<bv8>)
      requires Valid()
      ensures out == prefix + LittleEndian(crc)
      ensures Fold(tab[..], 0, written + LittleEndian(crc)) == 0
    {
      Residue(poly, tab[..], 0, written);
      out := prefix + LittleEndian(crc);
    }
  }
}
