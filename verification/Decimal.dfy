/** Decimal numerals as strconv writes and reads them, and the scan that decides whether a string is
    the canonical numeral of a non-negative integer (core/string.go, core/ziplist.go). */
module Decimal {
  import opened Bytes

  const ZERO: byte := 48   // '0'
  const MINUS: byte := 45  // '-'

  predicate IsDigit(c: byte) { ZERO <= c <= ZERO + 9 }

  predicate Digits(s: bytes) { forall i :: 0 <= i < |s| ==> IsDigit(s[i]) }

  // The value of a digit string.
  function Value(s: bytes): nat
    requires Digits(s)
  {
    if s == [] then 0 else Value(s[..|s| - 1]) * 10 + (s[|s| - 1] - ZERO) as int
  }

  // A numeral without a superfluous leading zero.
  predicate Canonical(s: bytes) {
    s != [] && Digits(s) && (|s| > 1 ==> s[0] != ZERO)
  }

  // strconv.FormatInt(n, 10) for a non-negative n.
  function Numeral(n: nat): (s: bytes)
    ensures Canonical(s) && Value(s) == n
    ensures n > 0 ==> s[0] != ZERO
  {
    if n < 10 then
      var s := [ZERO + n];
      assert s[..0] == [];
      s
    else
      var s := Numeral(n / 10) + [ZERO + n % 10];
      assert s[..|s| - 1] == Numeral(n / 10);
      s
  }

  // At most three digits for each byte of the number, and one more.
  lemma {:induction false} NumeralLength(n: nat, k: nat)
    requires n < Pow256(k)
    ensures |Numeral(n)| <= 3 * k + 1
    decreases k
  {
    NumeralStep(n);
    NumeralStep(n / 10);
    NumeralStep(n / 10 / 10);
    if k > 0 && n >= 1000 {
      NumeralLength(n / 10 / 10 / 10, k - 1);
    }
  }

  lemma NumeralStep(n: nat)
    ensures |Numeral(n)| == if n < 10 then 1 else |Numeral(n / 10)| + 1
  {}

  // strconv.Itoa
  function Itoa(v: int): (s: bytes)
    ensures s != []
  {
    if v < 0 then [MINUS] + Numeral(-v) else Numeral(v)
  }

  // A canonical numeral is the numeral of its value.
  lemma {:induction false} NumeralOfValue(s: bytes)
    requires Canonical(s)
    ensures Numeral(Value(s)) == s
    ensures s[0] != ZERO ==> Value(s) >= 1
    decreases |s|
  {
    var t, d: int := s[..|s| - 1], s[|s| - 1] - ZERO;
    assert s == t + [s[|s| - 1]];
    if t == [] {
      assert Value(s) == d;
    } else {
      NumeralOfValue(t);
      assert Value(s) == Value(t) * 10 + d && Value(s) / 10 == Value(t) && Value(s) % 10 == d;
    }
  }

  lemma ItoaInjective(v: int, w: int)
    requires Itoa(v) == Itoa(w)
    ensures v == w
  {
    if v < 0 { assert Itoa(v)[1..] == Numeral(-v); }
    if w < 0 { assert Itoa(w)[1..] == Numeral(-w); }
    assert v < 0 <==> Itoa(v)[0] == MINUS;
    assert w < 0 <==> Itoa(w)[0] == MINUS;
  }

  // strconv.Atoi
  function Atoi(s: bytes): Option<int> {
    if s == [] then None
    else
      var t := if s[0] == MINUS || s[0] == 43 then s[1..] else s;
      if t == [] || !Digits(t) then None
      else
        var v: int := Value(t);
        Some(if s[0] == MINUS then -v else v)
  }

  lemma AtoiItoa(v: int)
    ensures Atoi(Itoa(v)) == Some(v)
  {
    if v < 0 { assert Itoa(v)[1..] == Numeral(-v); }
  }

  // A numeral is made of digits and a sign.
  lemma ItoaChars(v: int, c: byte)
    requires !IsDigit(c) && c != MINUS
    ensures c !in Itoa(v)
  {}

  // The integer a string is stored as, if it is a canonical numeral of at most bound.
  function Encodable(s: bytes, bound: nat): (r: Option<nat>)
    ensures r.Some? ==> r.value <= bound && Numeral(r.value) == s
    ensures r.None? ==> forall n: nat :: n <= bound ==> Numeral(n) != s
  {
    if Canonical(s) && Value(s) <= bound then
      NumeralOfValue(s);
      Some(Value(s))
    else
      None
  }

  // isEncodableUint32 and isEncodableUint64. unicode.IsDigit also passes non-ASCII digits, which
  // ParseInt then rejects; scanning for ASCII digits merges the two refusals.
  method IsEncodable(s: bytes, bound: nat) returns (v: nat, ok: bool)
    ensures ok <==> Encodable(s, bound).Some?
    ensures ok ==> v == Encodable(s, bound).value
  {
    v, ok := 0, false;
    if s == [] { return; }
    if s[0] == ZERO && |s| > 1 { return; }
    var i := 0;
    while i < |s|
      invariant 0 <= i <= |s| && Digits(s[..i])
    {
      if !IsDigit(s[i]) { return; }
      i := i + 1;
    }
    assert s[..i] == s;
    v := ParseDigits(s);
    if v > bound { return 0, false; }
    ok := true;
  }

  // strconv.ParseInt on a digit string, before its range check.
  method ParseDigits(s: bytes) returns (v: nat)
    requires Digits(s)
    ensures v == Value(s)
  {
    v := 0;
    var i := 0;
    while i < |s|
      invariant 0 <= i <= |s| && v == Value(s[..i])
    {
      assert s[..i + 1][..i] == s[..i];
      v := v * 10 + (s[i] - ZERO) as int;
      i := i + 1;
    }
    assert s[..i] == s;
  }
}
