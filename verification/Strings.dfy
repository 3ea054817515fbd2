/** Length encoding and string encoding (core/string.go). Readers are functions from the file's bytes
    and a position; forms say which bytes a writer may produce for a string. */
module Strings {
  import opened Bytes
  import opened Decimal
  import Lzf

  const MAX_INT8: nat := 0x7f
  const MAX_INT16: nat := 0x7fff
  const MAX_INT32: nat := 0x7fff_ffff
  const MAX_INT64: nat := 0x7fff_ffff_ffff_ffff

  // Go slices are never longer than this.
  type Len = n: nat | n <= MAX_INT64

  // ------------------------------------------------------------------ lengths

  // writeLength
  function LengthBytes(v: nat): (e: bytes)
    requires v < TWO64
    ensures 1 <= |e| <= 9
  {
    if v <= 0x3f then [v]
    else if v <= 0x3fff then [v / 256 + 0x40, v % 256]
    else if v < TWO32 then [0x80] + BE(v, 4)
    else [0x81] + BE(v, 8)
  }

  // A length, or with special set the kind of an encoded string.
  datatype Length = Length(n: nat, special: bool)

  function ReadBytes(b: bytes, p: nat, n: nat): (r: Res<bytes>)
    ensures r.Ok? ==> r.next == p + n <= |b| && r.value == b[p..p + n]
  {
    if p + n <= |b| then Ok(b[p..p + n], p + n) else Fail(UnexpectedEnd)
  }

  // readLength
  function ReadLength(b: bytes, p: nat): (r: Res<Length>)
    ensures r.Ok? ==> p < r.next <= |b| && r.value.n < TWO64
  {
    if p >= |b| then Fail(UnexpectedEnd)
    else
      var c: int := b[p];
      if c / 64 == 0 then Ok(Length(c, false), p + 1)
      else if c / 64 == 1 then
        var (e, q) :- ReadBytes(b, p + 1, 1);
        Ok(Length(c % 64 * 256 + e[0], false), q)
      else if c / 64 == 2 then
        if c == 0x80 then
          var (e, q) :- ReadBytes(b, p + 1, 4);
          FromBEBound(e);
          Ok(Length(FromBE(e), false), q)
        else if c == 0x81 then
          var (e, q) :- ReadBytes(b, p + 1, 8);
          FromBEBound(e);
          Ok(Length(FromBE(e), false), q)
        else Fail(Corrupt)
      else Ok(Length(c % 64, true), p + 1)
  }

  lemma FromBEBound(e: bytes)
    requires |e| <= 8
    ensures FromBE(e) < TWO64
  {
    FromBEPow(e);
    Powers();
    PowGrows(|e|, 8);
  }

  lemma {:induction false} FromBEPow(e: bytes)
    ensures FromBE(e) < Pow256(|e|)
  {
    if e != [] { FromBEPow(e[..|e| - 1]); }
  }

  lemma {:induction false} FromLEPow(e: bytes)
    ensures FromLE(e) < Pow256(|e|)
  {
    if e != [] { FromLEPow(e[1..]); }
  }

  lemma {:induction false} PowGrows(j: nat, k: nat)
    requires j <= k
    ensures Pow256(j) <= Pow256(k)
    decreases k - j
  {
    if j < k { PowGrows(j + 1, k); }
  }

  // Every length reads back, wherever it stands and whatever follows it.
  lemma ReadLengthBytes(b: bytes, p: nat, v: nat)
    requires v < TWO64 && At(b, p, LengthBytes(v))
    ensures ReadLength(b, p) == Ok(Length(v, false), p + |LengthBytes(v)|)
  {
    var e := LengthBytes(v);
    AtIndex(b, p, e);
    assert b[p + 0] == e[0];
    if v <= 0x3f {
    } else if v <= 0x3fff {
      assert b[p + 1] == e[1];
    } else if v < TWO32 {
      Powers();
      ReadWideLength(b, p, v, 0x80, 4);
    } else {
      Powers();
      ReadWideLength(b, p, v, 0x81, 8);
    }
  }

  lemma ReadWideLength(b: bytes, p: nat, v: nat, c: byte, k: nat)
    requires At(b, p, [c] + BE(v, k)) && v < Pow256(k)
    requires (c == 0x80 && k == 4) || (c == 0x81 && k == 8)
    ensures ReadLength(b, p) == Ok(Length(v, false), p + 1 + k)
  {
    hide BE, FromBE, Pow256;
    AtConcat(b, p, [c], BE(v, k));
    AtIndex(b, p, [c]);
    assert b[p + 0] == c;
    FromBEofBE(v, k);
    SmallMod(v, Pow256(k));
  }

  lemma SmallMod(v: nat, m: nat)
    requires v < m
    ensures v % m == v
  {}

  // ------------------------------------------------------------------ strings

  // The integer forms of tryWriteIntString.
  function IntForm(v: nat): bytes
    requires v <= MAX_INT32
  {
    if v <= MAX_INT8 then [0xc0, v]
    else if v <= MAX_INT16 then [0xc1] + LE(v, 2)
    else [0xc2] + LE(v, 4)
  }

  function PlainForm(s: bytes): bytes
    requires |s| < TWO64
  {
    LengthBytes(|s|) + s
  }

  // s stored as its LZF stream z.
  function PackedForm(s: bytes, z: bytes): bytes
    requires |s| < TWO64 && |z| < TWO64
  {
    [0xc3] + LengthBytes(|z|) + LengthBytes(|s|) + z
  }

  // What Compress promises of a stream for s.
  ghost predicate Packs(z: bytes, s: bytes) {
    && |z| < |s| && (|s| <= TWO32 ==> Lzf.Expand(z, 0, [], |s|) == Lzf.Done(s))
    && !Lzf.NoRepeat(s) && forall m: nat :: Lzf.Repeats(s, m) ==> |z| <= Lzf.Budget(|s|, m)
  }

  // A string the codec is sure to shrink.
  ghost predicate Shrinks(s: bytes) { exists m: nat :: Lzf.Repeats(s, m) }

  // The bytes writeNanString may produce: plain, or with compression on packed, as far as the string
  // shrinks.
  ghost predicate BlobForm(compress: bool, s: bytes, e: bytes)
    requires |s| < TWO64
  {
    || (e == PlainForm(s) && !(compress && |s| > 20 && Shrinks(s)))
    || (compress && |s| > 20 && exists z :: Packs(z, s) && e == PackedForm(s, z))
  }

  // The bytes writeString may produce: an integer form for every string that has one.
  ghost predicate StringForm(compress: bool, s: bytes, e: bytes)
    requires |s| < TWO64
  {
    var v := Encodable(s, MAX_INT32);
    if v.Some? then e == IntForm(v.value) else BlobForm(compress, s, e)
  }

  // Go strings, and with compression on, lengths up to which an LZF stream is known to decode.
  predicate Packable(compress: bool, s: bytes) {
    |s| <= MAX_INT64 && (compress ==> |s| <= TWO32)
  }

  // readLZF
  function ReadLZF(b: bytes, p: nat): (r: Res<bytes>)
    ensures r.Ok? ==> p < r.next <= |b|
  {
    var (inLen, p1) :- ReadLength(b, p);
    var (outLen, p2) :- ReadLength(b, p1);
    if inLen.n > MAX_INT64 then Fail(Panic) // make with a negative length
    else
      var (z, p3) :- ReadBytes(b, p2, inLen.n);
      if outLen.n > MAX_INT64 then Fail(Panic)
      else
        match Lzf.Expand(z, 0, [], outLen.n)
        case Done(s) => Ok(s, p3)
        case Failed(err) => Fail(err)
  }

  // readString
  function ReadString(b: bytes, p: nat): (r: Res<bytes>)
    ensures r.Ok? ==> p < r.next <= |b|
  {
    var (l, q) :- ReadLength(b, p);
    if l.special then
      if l.n == 0 then
        var (e, q') :- ReadBytes(b, q, 1);
        Ok(Itoa(Signed(e[0], 0x100)), q')
      else if l.n == 1 then
        var (e, q') :- ReadBytes(b, q, 2);
        FromLEPow(e); Powers();
        Ok(Itoa(Signed(FromLE(e), TWO16)), q')
      else if l.n == 2 then
        var (e, q') :- ReadBytes(b, q, 4);
        FromLEPow(e); Powers();
        Ok(Itoa(Signed(FromLE(e), TWO32)), q')
      else if l.n == 3 then
        ReadLZF(b, q)
      else Fail(Corrupt)
    else if l.n > MAX_INT64 then Fail(Panic)
    else ReadBytes(b, q, l.n)
  }

  // The integer forms as any writer may use them: every signed value of every width.
  lemma ReadSignedForm(b: bytes, p: nat, k: nat, v: int)
    requires k in {1, 2, 4} && InWidth(v, k)
    requires At(b, p, [if k == 1 then 0xc0 else if k == 2 then 0xc1 else 0xc2] + SignedLE(v, k))
    ensures ReadString(b, p) == Ok(Itoa(v), p + 1 + k)
  {
    hide At, FromLE, SignedLE, Itoa, Pow256, Signed, ReadLZF, ReadLength;
    var h: byte := if k == 1 then 0xc0 else if k == 2 then 0xc1 else 0xc2;
    AtConcat(b, p, [h], SignedLE(v, k));
    AtBound(b, p, [h]);
    AtIndex(b, p, [h]);
    assert b[p + 0] == [h][0];
    SpecialLength(b, p, h);
    AtSlice(b, p + 1, SignedLE(v, k));
    SignedLEIs(v, k);
    Powers();
    if k == 1 { OneByteLE(b[p + 1..p + 2]); }
  }

  // No other form of a length is shorter, nor any other integer form of a number.
  lemma ShortestLength(b: bytes, p: nat, v: nat, q: nat)
    requires v < TWO64 && ReadLength(b, p) == Ok(Length(v, false), q)
    ensures q >= p + |LengthBytes(v)|
  {
    hide FromBE, BE;
    if p < |b| && b[p] == 0x80 && p + 5 <= |b| { FourBytesBound(b[p + 1..p + 5]); }
  }

  lemma FourBytesBound(e: bytes)
    requires |e| == 4
    ensures FromBE(e) < TWO32
  {
    assert FromBE(e[..3][..2]) == 256 * FromBE(e[..3][..2][..1]) + e[..3][..2][1];
    assert e[..3][..2][..1][..0] == [];
  }

  lemma ShortestInteger(v: nat, k: nat)
    requires v <= MAX_INT32 && k in {1, 2, 4} && InWidth(v, k)
    ensures |IntForm(v)| <= 1 + k
  {
    Powers();
  }

  // What is refused: first bytes that stand for no length, and kinds of string that do not exist.
  lemma LengthRefused(b: bytes, p: nat)
    requires p < |b|
    ensures 0x82 <= b[p] <= 0xbf ==> ReadLength(b, p) == Fail(Corrupt) && ReadString(b, p) == Fail(Corrupt)
    ensures 0xc4 <= b[p] ==> ReadString(b, p) == Fail(Corrupt)
  {
    hide FromBE, ReadLZF;
    if b[p] >= 0xc0 { SpecialLength(b, p, b[p]); }
  }

  lemma SpecialLength(b: bytes, p: nat, h: byte)
    requires p < |b| && b[p] == h && 0xc0 <= h
    ensures ReadLength(b, p) == Ok(Length(h - 0xc0, true), p + 1)
  {
    hide FromBE;
  }

  lemma OneByteLE(e: bytes)
    requires |e| == 1
    ensures FromLE(e) == e[0]
  {
    assert e[1..] == [];
  }

  lemma ReadPlainForm(b: bytes, p: nat, s: bytes)
    requires |s| <= MAX_INT64 && At(b, p, PlainForm(s))
    ensures ReadString(b, p) == Ok(s, p + |PlainForm(s)|)
  {
    AtConcat(b, p, LengthBytes(|s|), s);
    ReadLengthBytes(b, p, |s|);
  }

  lemma ReadPackedForm(b: bytes, p: nat, s: bytes, z: bytes)
    requires |s| <= TWO32 && Packs(z, s) && At(b, p, PackedForm(s, z))
    ensures ReadString(b, p) == Ok(s, p + |PackedForm(s, z)|)
  {
    hide ReadLength, PackedForm, Packs, LengthBytes, ReadLZF, At;
    PacksShorter(z, s);
    PackedParts(b, p, s, z);
    ReadLengthSpecial(b, p);
    ReadLengthBytes(b, p + 1, |z|);
    ReadLengthBytes(b, p + 1 + |LengthBytes(|z|)|, |s|);
    ReadLZFPacked(b, p + 1, s, z);
  }

  lemma PacksShorter(z: bytes, s: bytes)
    requires Packs(z, s)
    ensures |z| < |s|
  {}

  lemma PackedParts(b: bytes, p: nat, s: bytes, z: bytes)
    requires |z| < |s| <= TWO32 && At(b, p, PackedForm(s, z))
    ensures var l, m := LengthBytes(|z|), LengthBytes(|s|);
      && p < |b| && b[p] == 0xc3 && At(b, p + 1, l) && At(b, p + 1 + |l|, m) && At(b, p + 1 + |l| + |m|, z)
      && |PackedForm(s, z)| == 1 + |l| + |m| + |z|
  {
    hide LengthBytes;
    var h, l, m := [0xc3], LengthBytes(|z|), LengthBytes(|s|);
    AtConcat(b, p, h + l + m, z);
    AtConcat(b, p, h + l, m);
    AtConcat(b, p, h, l);
    AtIndex(b, p, h);
    assert b[p + 0] == 0xc3;
  }

  lemma ReadLZFPacked(b: bytes, p: nat, s: bytes, z: bytes)
    requires |s| <= TWO32 && Packs(z, s)
    requires var l, m := LengthBytes(|z|), LengthBytes(|s|);
      && ReadLength(b, p) == Ok(Length(|z|, false), p + |l|)
      && ReadLength(b, p + |l|) == Ok(Length(|s|, false), p + |l| + |m|)
      && At(b, p + |l| + |m|, z)
    ensures ReadLZF(b, p) == Ok(s, p + |LengthBytes(|z|)| + |LengthBytes(|s|)| + |z|)
  {
    hide ReadLength, LengthBytes, Lzf.Expand;
  }

  lemma ReadIntForm(b: bytes, p: nat, v: nat)
    requires v <= MAX_INT32 && At(b, p, IntForm(v))
    ensures ReadString(b, p) == Ok(Numeral(v), p + |IntForm(v)|)
  {
    if v <= MAX_INT8 {
      AtIndex(b, p, IntForm(v));
      assert b[p + 0] == 0xc0 && b[p + 1] == v;
    } else if v <= MAX_INT16 {
      Powers();
      ReadWideInt(b, p, v, 0xc1, 2);
    } else {
      Powers();
      ReadWideInt(b, p, v, 0xc2, 4);
    }
  }

  lemma ReadWideInt(b: bytes, p: nat, v: nat, c: byte, k: nat)
    requires At(b, p, [c] + LE(v, k)) && 2 * v < Pow256(k)
    requires (c == 0xc1 && k == 2) || (c == 0xc2 && k == 4)
    ensures ReadString(b, p) == Ok(Numeral(v), p + 1 + k)
  {
    AtConcat(b, p, [c], LE(v, k));
    AtIndex(b, p, [c]);
    assert b[p + 0] == c;
    ReadLengthSpecial(b, p);
    FromLEofLE(v, k);
    SmallMod(v, Pow256(k));
    Powers();
    hide LE, FromLE, Pow256, Numeral, ReadLength;
    assert ReadBytes(b, p + 1, k) == Ok(LE(v, k), p + 1 + k);
  }

  lemma ReadLengthSpecial(b: bytes, p: nat)
    requires p < |b| && b[p] >= 0xc0
    ensures ReadLength(b, p) == Ok(Length(b[p] - 0xc0, true), p + 1)
  {}

  // The string codec is lossless and self-delimiting: whichever form the writer chose, the reader
  // returns the string and stops at its end.
  lemma ReadBlobForm(compress: bool, b: bytes, p: nat, s: bytes, e: bytes)
    requires Packable(compress, s)
    requires BlobForm(compress, s, e) && At(b, p, e)
    ensures ReadString(b, p) == Ok(s, p + |e|)
  {
    if e == PlainForm(s) {
      ReadPlainForm(b, p, s);
    } else {
      var z :| Packs(z, s) && e == PackedForm(s, z);
      ReadPackedForm(b, p, s, z);
    }
  }

  lemma ReadStringForm(compress: bool, b: bytes, p: nat, s: bytes, e: bytes)
    requires Packable(compress, s)
    requires StringForm(compress, s, e) && At(b, p, e)
    ensures ReadString(b, p) == Ok(s, p + |e|)
  {
    var v := Encodable(s, MAX_INT32);
    if v.Some? {
      ReadIntForm(b, p, v.value);
    } else {
      ReadBlobForm(compress, b, p, s, e);
    }
  }

  // ------------------------------------------------------------------ runs of strings

  // int(n) of a uint64 used as a loop bound: from 2^63 up it is negative and the loop does not run.
  function AsInt(n: nat): nat { if n <= MAX_INT64 then n else 0 }

  function Concat(parts: seq<bytes>): bytes {
    if parts == [] then [] else parts[0] + Concat(parts[1..])
  }

  lemma {:induction false} ConcatSnoc(parts: seq<bytes>, e: bytes)
    ensures Concat(parts + [e]) == Concat(parts) + e
  {
    if parts == [] {
      assert [e][1..] == [];
    } else {
      assert (parts + [e])[1..] == parts[1..] + [e];
      ConcatSnoc(parts[1..], e);
    }
  }

  // parts[i] is a form of items[i].
  ghost predicate StringForms(compress: bool, items: seq<bytes>, parts: seq<bytes>) {
    |items| == |parts|
    && forall i :: 0 <= i < |items| ==> |items[i]| < TWO64 && StringForm(compress, items[i], parts[i])
  }

  // The element loop of readSet and readList.
  function ReadStrings(b: bytes, p: nat, n: nat, acc: seq<bytes>): (r: Res<seq<bytes>>)
    ensures r.Ok? ==> p <= r.next && (p <= |b| ==> r.next <= |b|)
    decreases n
  {
    if n == 0 then Ok(acc, p)
    else
      var (s, q) :- ReadString(b, p);
      ReadStrings(b, q, n - 1, acc + [s])
  }

  lemma {:induction false} ReadStringForms(compress: bool, b: bytes, p: nat, items: seq<bytes>, parts: seq<bytes>,
                                           acc: seq<bytes>)
    requires StringForms(compress, items, parts) && At(b, p, Concat(parts))
    requires forall i :: 0 <= i < |items| ==> Packable(compress, items[i])
    ensures ReadStrings(b, p, |items|, acc) == Ok(acc + items, p + |Concat(parts)|)
    decreases |items|
  {
    hide StringForm, At, ReadString;
    if items == [] {
      assert acc + items == acc;
    } else {
      AtConcat(b, p, parts[0], Concat(parts[1..]));
      ReadStringForm(compress, b, p, items[0], parts[0]);
      ReadStringForms(compress, b, p + |parts[0]|, items[1..], parts[1..], acc + [items[0]]);
      assert acc + [items[0]] + items[1..] == acc + items;
    }
  }
}
