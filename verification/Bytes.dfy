/** Byte strings, fixed-width integers in both byte orders, two's complement, and decimal numerals:
    the vocabulary the RDB formats are written in. */
module Bytes {

  type byte = n: int | 0 <= n < 256
  type bytes = seq<byte>

  datatype Error =
    | UnexpectedEnd        // the input stops inside an item
    | Corrupt              // a reader reports malformed data
    | InsufficientBuffer   // lzf: output space exhausted
    | DataCorruption       // lzf: impossible control byte
    | Panic                // the code indexes out of range
    | Unmodelled           // a format this model leaves out

  // A reader's outcome: a value and the position after it, or an error.
  datatype Res<+T> = Ok(value: T, next: nat) | Fail(error: Error) {
    predicate IsFailure() { Fail? }
    function PropagateFailure<U>(): Res<U>
      requires Fail?
    {
      Fail(error)
    }
    function Extract(): (T, nat)
      requires Ok?
    {
      (value, next)
    }
  }

  datatype Option<+T> = None | Some(value: T)

  // ------------------------------------------------------------------ positions

  // e stands in b at position p.
  predicate At(b: bytes, p: nat, e: bytes) {
    p + |e| <= |b| && b[p..p + |e|] == e
  }

  lemma AtConcat(b: bytes, p: nat, e: bytes, f: bytes)
    ensures At(b, p, e + f) <==> At(b, p, e) && At(b, p + |e|, f)
  {
    if At(b, p, e + f) {
      assert b[p..p + |e|] == (e + f)[..|e|];
      assert b[p + |e|..p + |e| + |f|] == (e + f)[|e|..];
    }
    if At(b, p, e) && At(b, p + |e|, f) {
      assert b[p..p + |e + f|] == b[p..p + |e|] + b[p + |e|..p + |e| + |f|];
    }
  }

  lemma AtBound(b: bytes, p: nat, e: bytes)
    requires At(b, p, e)
    ensures p + |e| <= |b|
  {}

  lemma AtSlice(b: bytes, p: nat, e: bytes)
    requires At(b, p, e)
    ensures p + |e| <= |b| && b[p..p + |e|] == e
  {}

  lemma AtIndex(b: bytes, p: nat, e: bytes)
    requires At(b, p, e)
    ensures forall i :: 0 <= i < |e| ==> b[p + i] == e[i]
  {
    forall i | 0 <= i < |e| ensures b[p + i] == e[i] {
      assert b[p..p + |e|][i] == b[p + i];
    }
  }

  // ------------------------------------------------------------------ fixed-width integers

  function Pow256(k: nat): (p: nat)
    ensures p >= 1
  {
    if k == 0 then 1 else 256 * Pow256(k - 1)
  }

  const TWO16: nat := 0x1_0000
  const TWO32: nat := 0x1_0000_0000
  const TWO64: nat := 0x1_0000_0000_0000_0000

  type u64 = n: nat | n < 0x1_0000_0000_0000_0000

  lemma Powers()
    ensures Pow256(1) == 256 && Pow256(2) == TWO16 && Pow256(3) == 0x100_0000 && Pow256(4) == TWO32
      && Pow256(8) == TWO64
  {
    assert Pow256(5) == 256 * Pow256(4);
    assert Pow256(7) == 256 * 256 * Pow256(5);
  }

  // Conversions to uint16 and uint32.
  function U16(n: nat): (r: nat)
    ensures r < 0x1_0000 && r <= n && (r == n <==> n < 0x1_0000)
  {
    n % 0x1_0000
  }

  function U32(n: nat): (r: nat)
    ensures r < 0x1_0000_0000 && r <= n && (r == n <==> n < 0x1_0000_0000)
  {
    n % 0x1_0000_0000
  }

  // The k low bytes of n, least significant first.
  function LE(n: nat, k: nat): (e: bytes)
    ensures |e| == k
    decreases k
  {
    if k == 0 then [] else [n % 256] + LE(n / 256, k - 1)
  }

  function FromLE(e: bytes): nat {
    if e == [] then 0 else e[0] + 256 * FromLE(e[1..])
  }

  // The k low bytes of n, most significant first.
  function BE(n: nat, k: nat): (e: bytes)
    ensures |e| == k
    decreases k
  {
    if k == 0 then [] else BE(n / 256, k - 1) + [n % 256]
  }

  function FromBE(e: bytes): nat {
    if e == [] then 0 else 256 * FromBE(e[..|e| - 1]) + e[|e| - 1]
  }

  lemma {:induction false} FromLEofLE(n: nat, k: nat)
    ensures FromLE(LE(n, k)) == n % Pow256(k)
    decreases k
  {
    if k > 0 {
      FromLEofLE(n / 256, k - 1);
      assert LE(n, k)[1..] == LE(n / 256, k - 1);
      ModStep(n, Pow256(k - 1));
    }
  }

  lemma FromLEofLE2(n: nat)
    ensures FromLE(LE(n, 2)) == U16(n)
  {
    FromLEofLE(n, 2);
    Powers();
  }

  lemma FromLEofLE4(n: nat)
    ensures FromLE(LE(n, 4)) == U32(n)
  {
    FromLEofLE(n, 4);
    Powers();
  }

  lemma {:induction false} FromBEofBE(n: nat, k: nat)
    ensures FromBE(BE(n, k)) == n % Pow256(k)
    decreases k
  {
    if k > 0 {
      FromBEofBE(n / 256, k - 1);
      assert BE(n, k)[..k - 1] == BE(n / 256, k - 1);
      ModStep(n, Pow256(k - 1));
    }
  }

  // Splitting off the low byte of a remainder.
  lemma ModStep(n: nat, m: nat)
    requires m >= 1
    ensures n % (256 * m) == n % 256 + 256 * (n / 256 % m)
  {
    var q, h, r := n / 256 / m, n / 256 % m, n % 256;
    assert n == 256 * (q * m + h) + r == q * (256 * m) + (256 * h + r);
    ModUnique(n, 256 * m, q, 256 * h + r);
  }

  lemma ModUnique(v: int, d: nat, q: int, r: nat)
    requires d >= 1 && v == q * d + r && r < d
    ensures v % d == r
  {
    var q', r' := v / d, v % d;
    DivMod(v, d);
    assert (q - q') * d == r' - r;
    if q > q' { MulGrows(q - q', d); }
    if q < q' { MulGrows(q' - q, d); }
  }

  lemma DivMod(v: int, d: nat)
    requires d >= 1
    ensures v == v / d * d + v % d && 0 <= v % d < d
  {}

  lemma MulGrows(k: int, d: nat)
    requires k >= 1
    ensures k * d >= d
  {}

  // ------------------------------------------------------------------ two's complement

  // The signed reading of an unsigned value below m, m being a power of two.
  function Signed(n: nat, m: nat): int
    requires n < m
  {
    if n < (m + 1) / 2 then n else n - m
  }

  // The unsigned pattern of a signed value.
  function Unsigned(v: int, m: nat): (n: nat)
    requires m >= 1
    ensures n < m
  {
    v % m
  }

  // int64 arithmetic wraps to this.
  function Wrap64(v: int): int { Signed(Unsigned(v, TWO64), TWO64) }

  // The bytes of a signed value of that width.
  function SignedLE(v: int, k: nat): (e: bytes)
    ensures |e| == k
  {
    LE(Unsigned(v, Pow256(k)), k)
  }

  predicate InWidth(v: int, k: nat) { 0 <= 2 * v + Pow256(k) < 2 * Pow256(k) }

  lemma SignedLEIs(v: int, k: nat)
    requires k in {1, 2, 3, 4, 8} && InWidth(v, k)
    ensures FromLE(SignedLE(v, k)) < Pow256(k) && Signed(FromLE(SignedLE(v, k)), Pow256(k)) == v
  {
    hide LE, FromLE, Signed, Unsigned;
    Powers();
    var m := Pow256(k);
    FromLEofLE(Unsigned(v, m), k);
    ModUnique(Unsigned(v, m), m, 0, Unsigned(v, m));
    SignedUnsigned(v, m);
  }

  // A value survives a width exactly when it lies in that width's signed range.
  lemma SignedUnsigned(v: int, m: nat)
    requires m >= 2 && m % 2 == 0
    ensures Signed(Unsigned(v, m), m) == v <==> -(m / 2) as int <= v < m / 2
  {
    var h := m / 2;
    if -h <= v < 0 {
      ModUnique(v, m, -1, v + m);
    } else if 0 <= v < h {
      ModUnique(v, m, 0, v);
    } else {
      assert -h <= Signed(Unsigned(v, m), m) < h;
    }
  }
}
