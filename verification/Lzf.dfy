/** The LZF codec of lzf/lzf.go. Expand is the meaning of a compressed stream; Decompress computes
    it, and Compress only ever returns streams that mean its input. */
module Lzf {
  import opened Bytes

  const HTAB_SIZE := 0x4000   // 1 << 14
  const MAX_LIT := 32         // 1 << 5
  const MAX_OFF := 8192       // 1 << 13
  const MAX_REF := 264        // (1 << 8) + (1 << 3)

  datatype Outcome = Done(data: bytes) | Failed(error: Error)

  // ------------------------------------------------------------------ meaning of a stream

  // The overlapping copy of a back reference: byte by byte, so it may read what it has just written.
  function CopyFrom(out: bytes, ref: nat, n: nat): (r: bytes)
    requires ref < |out|
    ensures |r| == |out| + n
    decreases n
  {
    if n == 0 then out else CopyFrom(out + [out[ref]], ref + 1, n - 1)
  }

  // A back reference: n bytes, from dist bytes back; the next token is at position next.
  datatype Back = Back(dist: nat, n: nat, next: nat) | Truncated

  function ReadBack(input: bytes, i: nat): (r: Back)
    requires i < |input| && input[i] >= 32
    ensures r.Back? ==> i + 2 <= r.next <= |input| && r.dist >= 1
  {
    var ctrl: int := input[i];
    if i + 1 >= |input| then Truncated
    else
      var second: int := input[i + 1];
      if ctrl / 32 < 7 then Back(ctrl % 32 * 256 + 1 + second, ctrl / 32 + 2, i + 2)
      else if i + 2 >= |input| then Truncated
      else Back(ctrl % 32 * 256 + 1 + input[i + 2], 7 + second + 2, i + 3)
  }

  // Reads the tokens of input from position i, having produced out, into a buffer of cap bytes.
  function Expand(input: bytes, i: nat, out: bytes, cap: nat): Outcome
    decreases |input| - i
  {
    if i >= |input| then Done(out)
    else if input[i] < 32 then
      var n: int := input[i] + 1;
      if |out| + n > cap then Failed(InsufficientBuffer)
      else if i + 1 + n > |input| then Failed(DataCorruption)
      else Expand(input, i + 1 + n, out + input[i + 1..i + 1 + n], cap)
    else
      var t := ReadBack(input, i);
      if t.Truncated? || |out| + t.n > cap || t.dist > |out| then Failed(DataCorruption)
      else Expand(input, t.next, CopyFrom(out, |out| - t.dist, t.n), cap)
  }

  // The stream e, taken whole, means out.
  predicate Means(e: bytes, out: bytes, cap: nat) {
    Expand(e, 0, [], cap) == Done(out)
  }

  // ------------------------------------------------------------------ streams grow token by token

  lemma ReadBackPrefix(e: bytes, t: bytes, i: nat)
    requires i < |e| && e[i] >= 32 && ReadBack(e, i).Back?
    ensures ReadBack(e + t, i) == ReadBack(e, i)
  {
    var s := e + t;
    assert s[i] == e[i] && (i + 1 < |e| ==> s[i + 1] == e[i + 1]) && (i + 2 < |e| ==> s[i + 2] == e[i + 2]);
  }

  lemma {:induction false} ExpandPrefix(e: bytes, t: bytes, i: nat, o: bytes, cap: nat)
    requires i <= |e| && Expand(e, i, o, cap).Done?
    ensures Expand(e + t, i, o, cap) == Expand(e + t, |e|, Expand(e, i, o, cap).data, cap)
    decreases |e| - i
  {
    hide CopyFrom, ReadBack;
    if i < |e| {
      var s := e + t;
      assert s[i] == e[i];
      if e[i] < 32 {
        var n: int := e[i] + 1;
        assert s[i + 1..i + 1 + n] == e[i + 1..i + 1 + n];
        ExpandPrefix(e, t, i + 1 + n, o + e[i + 1..i + 1 + n], cap);
      } else {
        var b := ReadBack(e, i);
        ReadBackPrefix(e, t, i);
        ExpandPrefix(e, t, b.next, CopyFrom(o, |o| - b.dist, b.n), cap);
      }
    }
  }

  // A literal run of 1 to 32 bytes appends those bytes.
  lemma AppendLiterals(e: bytes, lits: bytes, out: bytes, cap: nat)
    requires Means(e, out, cap) && 1 <= |lits| <= MAX_LIT && |out| + |lits| <= cap
    ensures Means(e + [|lits| - 1] + lits, out + lits, cap)
  {
    var t := [|lits| - 1] + lits;
    assert e + [|lits| - 1] + lits == e + t;
    ExpandPrefix(e, t, 0, [], cap);
    var s := e + t;
    assert s[|e|] == |lits| - 1 && s[|e| + 1..|e| + 1 + |lits|] == lits;
    assert Expand(s, |e|, out, cap) == Expand(s, |s|, out + lits, cap);
  }

  // Nothing is written beyond the buffer.
  lemma {:induction false} WithinCap(e: bytes, i: nat, out: bytes, cap: nat)
    requires |out| <= cap && Expand(e, i, out, cap).Done?
    ensures |Expand(e, i, out, cap).data| <= cap
    decreases |e| - i
  {
    hide CopyFrom, ReadBack;
    if i < |e| {
      if e[i] < 32 {
        var n: int := e[i] + 1;
        WithinCap(e, i + 1 + n, out + e[i + 1..i + 1 + n], cap);
      } else {
        var t := ReadBack(e, i);
        WithinCap(e, t.next, CopyFrom(out, |out| - t.dist, t.n), cap);
      }
    }
  }

  // A literal run too long for the buffer, or cut short, is refused, whatever follows the one and with
  // nothing following the other.
  lemma RefuseLiterals(e: bytes, lits: bytes, n: nat, rest: bytes, out: bytes, cap: nat)
    requires Means(e, out, cap) && 1 <= n <= MAX_LIT && |lits| <= n
    ensures |out| + n > cap ==> Expand(e + ([n - 1] + lits + rest), 0, [], cap) == Failed(InsufficientBuffer)
    ensures |out| + n <= cap && |lits| < n ==> Expand(e + ([n - 1] + lits), 0, [], cap) == Failed(DataCorruption)
  {
    var x, y := [n - 1] + lits + rest, [n - 1] + lits;
    ExpandPrefix(e, x, 0, [], cap);
    ExpandPrefix(e, y, 0, [], cap);
    assert (e + x)[|e|] == n - 1 && (e + y)[|e|] == n - 1;
  }

  // The token of a back reference: off + 1 bytes back, n bytes long.
  function RefToken(off: nat, n: nat): (t: bytes)
    requires off < MAX_OFF && 3 <= n <= MAX_REF
    ensures 2 <= |t| <= 3
  {
    if n - 2 < 7 then [off / 256 + (n - 2) * 32, off % 256]
    else [off / 256 + 7 * 32, n - 2 - 7, off % 256]
  }

  lemma RefTokenReads(s: bytes, i: nat, off: nat, n: nat)
    requires off < MAX_OFF && 3 <= n <= MAX_REF
    requires var t := RefToken(off, n);
      i + |t| <= |s| && s[i] == t[0] && s[i + 1] == t[1] && (|t| == 3 ==> s[i + 2] == t[2])
    ensures s[i] >= 32 && ReadBack(s, i) == Back(off + 1, n, i + |RefToken(off, n)|)
  {
    var k := if n - 2 < 7 then n - 2 else 7;
    assert RefToken(off, n)[0] == off / 256 + k * 32;
  }

  // A reference is refused that reaches back too far, or copies too much.
  lemma RefuseRef(e: bytes, rest: bytes, out: bytes, off: nat, n: nat, cap: nat)
    requires Means(e, out, cap) && off < MAX_OFF && 3 <= n <= MAX_REF && (off >= |out| || |out| + n > cap)
    ensures Expand(e + (RefToken(off, n) + rest), 0, [], cap) == Failed(DataCorruption)
  {
    hide RefToken, ReadBack;
    var r := RefToken(off, n);
    var t := r + rest;
    ExpandPrefix(e, t, 0, [], cap);
    assert t[0] == r[0] && t[1] == r[1] && (|r| == 3 ==> t[2] == r[2]);
    assert (e + t)[|e|] == t[0] && (e + t)[|e| + 1] == t[1] && (|r| == 3 ==> (e + t)[|e| + 2] == t[2]);
    RefTokenReads(e + t, |e|, off, n);
  }

  lemma AppendRef(e: bytes, out: bytes, off: nat, n: nat, cap: nat)
    requires Means(e, out, cap) && off < MAX_OFF && 3 <= n <= MAX_REF
    requires off < |out| && |out| + n <= cap
    ensures Means(e + RefToken(off, n), CopyFrom(out, |out| - off - 1, n), cap)
  {
    hide Means, ReadBack, RefToken, CopyFrom, Expand;
    var t := RefToken(off, n);
    var s := e + t;
    assert |s| == |e| + |t| && s[|e|] == t[0] && s[|e| + 1] == t[1] && (|t| == 3 ==> s[|e| + 2] == t[2]);
    RefTokenReads(s, |e|, off, n);
    AppendBack(e, t, out, off + 1, n, cap);
  }

  lemma AppendBack(e: bytes, t: bytes, out: bytes, dist: nat, n: nat, cap: nat)
    requires Means(e, out, cap) && 1 <= dist <= |out| && |out| + n <= cap
    requires t != [] && (e + t)[|e|] >= 32 && ReadBack(e + t, |e|) == Back(dist, n, |e| + |t|)
    ensures Means(e + t, CopyFrom(out, |out| - dist, n), cap)
  {
    hide ReadBack, CopyFrom;
    ExpandPrefix(e, t, 0, [], cap);
    ExpandBack(e + t, |e|, out, cap);
  }

  lemma ExpandBack(s: bytes, i: nat, out: bytes, cap: nat)
    requires i < |s| && s[i] >= 32 && ReadBack(s, i).Back?
    requires var b := ReadBack(s, i); |out| + b.n <= cap && b.dist <= |out|
    ensures var b := ReadBack(s, i);
      Expand(s, i, out, cap) == Expand(s, b.next, CopyFrom(out, |out| - b.dist, b.n), cap)
  {}

  // Copying a matching stretch of the input extends the output to the end of the match.
  lemma {:induction false} CopyMatch(input: bytes, p: nat, ref: nat, n: nat)
    requires ref < p && p + n <= |input| && input[ref..ref + n] == input[p..p + n]
    ensures CopyFrom(input[..p], ref, n) == input[..p + n]
    decreases n
  {
    if n > 0 {
      assert input[ref] == input[ref..ref + n][0] == input[p..p + n][0] == input[p];
      assert input[..p] + [input[ref]] == input[..p + 1];
      assert input[ref + 1..ref + n] == input[ref..ref + n][1..] == input[p..p + n][1..] == input[p + 1..p + n];
      CopyMatch(input, p + 1, ref + 1, n - 1);
    }
  }

  // ------------------------------------------------------------------ Decompress

  method Decompress(data: bytes, inLen: nat, outLen: nat) returns (r: Outcome)
    requires inLen <= |data|
    ensures r == Expand(data[..inLen], 0, [], outLen)
    ensures r.Done? ==> |r.data| <= outLen
  {
    hide CopyFrom, ReadBack;
    var input := data[..inLen];
    var output := new byte[outLen](_ => 0);
    var i, o := 0, 0;
    if |input| == 0 { return Done([]); }
    ghost var meaning := Expand(input, 0, [], outLen);
    while i < |input|
      invariant 0 <= i <= |input| && 0 <= o <= outLen
      invariant Expand(input, i, output[..o], outLen) == meaning
      decreases |input| - i
    {
      var ctrl: int := input[i];
      i := i + 1;
      if ctrl < 32 { // literal run
        ctrl := ctrl + 1;
        if o + ctrl > outLen { return Failed(InsufficientBuffer); }
        if i + ctrl > |input| { return Failed(DataCorruption); }
        CopyLiterals(output, o, input, i, ctrl);
        i, o := i + ctrl, o + ctrl;
      } else { // back reference
        var t := ReadReference(input, i - 1);
        if t.Truncated? { return Failed(DataCorruption); }
        i := t.next;
        if o + t.n > outLen { return Failed(DataCorruption); }
        if o - t.dist < 0 { return Failed(DataCorruption); }
        CopyOverlapping(output, o, o - t.dist, t.n);
        o := o + t.n;
      }
    }
    r := Done(output[..o]);
  }

  // The two or three bytes of a back reference, the first at position p.
  method ReadReference(input: bytes, p: nat) returns (t: Back)
    requires p < |input| && input[p] >= 32
    ensures t == ReadBack(input, p)
  {
    var ctrl: int, i := input[p], p + 1;
    var length, dist := ctrl / 32, ctrl % 32 * 256 + 1;
    if i >= |input| { return Truncated; }
    if length == 7 {
      length := length + input[i];
      i := i + 1;
      if i >= |input| { return Truncated; }
    }
    dist := dist + input[i];
    t := Back(dist, length + 2, i + 1);
  }

  method CopyLiterals(output: array<byte>, o: nat, input: bytes, i: nat, n: nat)
    requires o + n <= output.Length && i + n <= |input|
    modifies output
    ensures output[..o + n] == old(output[..o]) + input[i..i + n]
  {
    forall k | 0 <= k < n { output[o + k] := input[i + k]; }
  }

  method CopyOverlapping(output: array<byte>, o: nat, ref: nat, n: nat)
    requires ref < o && o + n <= output.Length
    modifies output
    ensures output[..o + n] == CopyFrom(old(output[..o]), ref, n)
  {
    var k := 0;
    ghost var target := CopyFrom(output[..o], ref, n);
    while k < n
      invariant 0 <= k <= n
      invariant CopyFrom(output[..o + k], ref + k, n - k) == target
    {
      ghost var before := output[..o + k];
      output[o + k] := output[ref + k];
      assert output[..o + k + 1] == before + [before[ref + k]];
      k := k + 1;
    }
  }

  // ------------------------------------------------------------------ Compress

  function Hash(h: nat): (slot: nat)
    ensures slot < HTAB_SIZE
  {
    (h / 1024 - h * 5) % HTAB_SIZE
  }

  // Shifting one more byte into the 32-bit rolling value.
  function Roll(h: nat, b: byte): nat { h * 256 % TWO32 + b }

  // The slot of the three bytes at k.
  function Slot(input: bytes, k: nat): (slot: nat)
    requires k + 2 < |input|
    ensures slot < HTAB_SIZE
  {
    Hash(Three(input[k], input[k + 1], input[k + 2]))
  }

  function Three(x: byte, y: byte, z: byte): nat { (x * 256 + y) * 256 + z }

  function Two(x: byte, y: byte): nat { x * 256 + y }

  // The slot depends on the last three bytes only.
  lemma HashLow(h: nat)
    ensures Hash(h) == Hash(h % 0x100_0000)
  {
    var q, r := h / 0x100_0000, h % 0x100_0000;
    assert h / 1024 == q * HTAB_SIZE + r / 1024;
    assert h / 1024 - h * 5 == q * (1 - 5120) * HTAB_SIZE + (r / 1024 - r * 5);
    ModShift(r / 1024 - r * 5, q * (1 - 5120));
  }

  lemma ModShift(v: int, k: int)
    ensures (k * HTAB_SIZE + v) % HTAB_SIZE == v % HTAB_SIZE
  {
    DivMod(v, HTAB_SIZE);
    assert k * HTAB_SIZE + v == (k + v / HTAB_SIZE) * HTAB_SIZE + v % HTAB_SIZE;
    ModUnique(k * HTAB_SIZE + v, HTAB_SIZE, k + v / HTAB_SIZE, v % HTAB_SIZE);
  }

  // Rolling in a third byte behind two known ones.
  lemma RollThree(h: nat, x: byte, y: byte, z: byte)
    requires h % 0x1_0000 == Two(x, y)
    ensures Hash(Roll(h, z)) == Hash(Three(x, y, z)) && Roll(h, z) % 0x1_0000 == Two(y, z)
  {
    var q := h / 0x1_0000;
    assert h * 256 == q * 0x100_0000 + Two(x, y) * 256;
    assert h * 256 % TWO32 == q % 256 * 0x100_0000 + Two(x, y) * 256 by {
      assert q == q / 256 * 256 + q % 256;
      ModUnique(h * 256, TWO32, q / 256, q % 256 * 0x100_0000 + Two(x, y) * 256);
    }
    HashLow(Roll(h, z));
    ModUnique(Roll(h, z), 0x100_0000, q % 256, Three(x, y, z));
    ModUnique(Roll(h, z), 0x1_0000, q % 256 * 256 + x, Two(y, z));
  }

  // ------------------------------------------------------------------ what is sure to shrink, and what not to

  // No three bytes stand in the input twice.
  predicate NoRepeat(input: bytes) {
    forall j, k :: 0 <= j < k < |input| - 2 ==> ThreeAt(input, j) != ThreeAt(input, k)
  }

  function ThreeAt(input: bytes, k: nat): bytes
    requires k + 2 < |input|
  {
    [input[k], input[k + 1], input[k + 2]]
  }

  // The input repeats its first m bytes, whose slots differ, to the end: equal bytes of any length, or
  // longer blocks as far as the window reaches.
  ghost predicate Repeats(input: bytes, m: nat) {
    && 1 <= m && 2 * m + 14 <= |input| <= (if m == 1 then TWO32 else 8196)
    && (forall j, k :: 0 <= j < k < |input| && k == j + m ==> input[j] == input[k])
    && forall j, k :: 0 <= j < k < m ==> Slot(input, j) != Slot(input, k)
  }

  // Sixteen or more equal bytes repeat the first.
  lemma EqualRepeats(input: bytes)
    requires 16 <= |input| <= TWO32 && forall k :: 0 <= k < |input| ==> input[k] == input[0]
    ensures Repeats(input, 1)
  {}

  // The size such an input shrinks to, at most.
  function Budget(n: nat, m: nat): int { m + (m + 1) / 32 + 8 + (n - m) / 88 }

  // The shortest block it repeats, or 0.
  ghost function Period(input: bytes, m: nat): (p: nat)
    ensures p == 0 || (m <= p && Repeats(input, p))
    ensures p == 0 ==> forall k: nat :: m <= k ==> !Repeats(input, k)
    ensures p > 0 ==> forall k: nat :: m <= k < p ==> !Repeats(input, k)
    decreases |input| - m
  {
    if Repeats(input, m) then m
    else if m >= |input| then 0
    else Period(input, m + 1)
  }

  lemma BudgetGrows(n: nat, m: nat, p: nat)
    requires m <= p
    ensures Budget(n, m) <= Budget(n, p)
  {}

  lemma {:induction false} Periodic(input: bytes, m: nat, j: nat, k: nat)
    requires Repeats(input, m) && j <= k < |input| && j % m == k % m
    ensures input[j] == input[k]
    decreases k
  {
    if j < k {
      Apart(j, k, m);
      OneBlockBack(k, m);
      Periodic(input, m, j, k - m);
      assert input[k - m] == input[k];
    }
  }

  lemma Apart(j: nat, k: nat, m: nat)
    requires m >= 1 && j < k && j % m == k % m
    ensures j + m <= k
  {
    DivMod(j, m);
    DivMod(k, m);
    assert k - j == (k / m - j / m) * m;
    if k / m > j / m { MulGrows(k / m - j / m, m); } else if j / m > k / m { MulGrows(j / m - k / m, m); }
  }

  lemma OneBlockBack(k: nat, m: nat)
    requires m >= 1 && k >= m
    ensures (k - m) % m == k % m
  {
    DivMod(k, m);
    ModUnique(k - m, m, k / m - 1, k % m);
  }

  // Two positions have the same slot exactly if they stand at the same place of the block.
  lemma SameSlot(input: bytes, m: nat, j: nat, k: nat)
    requires Repeats(input, m) && j + 2 < |input| && k + 2 < |input|
    ensures Slot(input, j) == Slot(input, k) <==> j % m == k % m
  {
    hide Hash;
    SlotOfBlock(input, m, j);
    SlotOfBlock(input, m, k);
  }

  lemma SlotOfBlock(input: bytes, m: nat, k: nat)
    requires Repeats(input, m) && k + 2 < |input|
    ensures 0 <= k % m < m <= |input| - 14 && Slot(input, k % m) == Slot(input, k)
  {
    hide Hash, Three;
    DivMod(k, m);
    BlockStart(k, m);
    var c := k % m;
    SlotAlike(input, m, c, k);
  }

  lemma BlockStart(k: nat, m: nat)
    requires m >= 1
    ensures k % m <= k && k % m % m == k % m
  {
    DivMod(k, m);
    ModUnique(k % m, m, 0, k % m);
    if k / m >= 1 { MulGrows(k / m, m); }
  }

  lemma SlotAlike(input: bytes, m: nat, j: nat, k: nat)
    requires Repeats(input, m) && j <= k && k + 2 < |input| && j % m == k % m
    ensures Slot(input, j) == Slot(input, k)
  {
    hide Hash, Three, Repeats;
    SameAfter(input, m, j, k, 0);
    SameAfter(input, m, j, k, 1);
    SameAfter(input, m, j, k, 2);
  }

  lemma SameAfter(input: bytes, m: nat, j: nat, k: nat, d: nat)
    requires Repeats(input, m) && j <= k && k + d < |input| && j % m == k % m
    ensures input[j + d] == input[k + d]
  {
    SameRest(j, k, d, m);
    Periodic(input, m, j + d, k + d);
  }

  lemma SameRest(j: nat, k: nat, d: nat, m: nat)
    requires m >= 1 && j % m == k % m
    ensures (j + d) % m == (k + d) % m
  {
    DivMod(j, m);
    DivMod(k, m);
    var r := j % m + d;
    DivMod(r, m);
    ModUnique(j + d, m, j / m + r / m, r % m);
    ModUnique(k + d, m, k / m + r / m, r % m);
  }

  // ------------------------------------------------------------------ the table on such an input

  // Every slot holds 0 or a position that has passed and has that slot.
  ghost predicate Kept(input: bytes, t: seq<nat>, i: nat) {
    |t| == HTAB_SIZE && forall s :: 0 <= s < HTAB_SIZE && t[s] > 0 ==> Holds(input, s, t[s], i)
  }

  predicate Holds(input: bytes, s: nat, p: nat, i: nat) { p < i && p + 2 < |input| && Slot(input, p) == s }

  // The first block has been entered, and of equal bytes the last position.
  ghost predicate Entered(input: bytes, t: seq<nat>, m: nat, i: nat) {
    && |t| == HTAB_SIZE
    && (forall k: nat :: 1 <= k < i && k <= m && k + 2 < |input| ==> t[Slot(input, k)] > 0)
    && (m == 1 && 2 <= i && 2 < |input| ==> t[Slot(input, 0)] == i - 1)
  }

  lemma KeptMore(input: bytes, t: seq<nat>, i: nat, p: nat, j: nat)
    requires Kept(input, t, i) && i <= j && p < j && p + 2 < |input|
    ensures Kept(input, t[Slot(input, p) := p], j)
  {
    hide Hash;
    var t' := t[Slot(input, p) := p];
    forall s | 0 <= s < HTAB_SIZE && t'[s] > 0 ensures Holds(input, s, t'[s], j) {
      assert t[s] > 0 ==> Holds(input, s, t[s], i);
    }
  }

  // The size and the open run so far: literals up to the first byte behind the block, then q references
  // of full length and a last one.
  predicate Sized(n: nat, m: nat, i: nat, o: nat, lit: nat, q: nat) {
    if i <= m + 1 then o == 1 + i + i / 32 && lit == i % 32 && q == 0
    else
      && lit == 0 && o <= m + (m + 1) / 32 + 6 + 3 * q && m + 1 + MAX_REF * q < n - 2
      && (i < n - 2 ==> i == m + 1 + MAX_REF * (q + 1))
  }

  ghost predicate Shrinking(input: bytes, t: seq<nat>, m: nat, i: nat, o: nat, lit: nat, q: nat) {
    && |t| == HTAB_SIZE && Repeats(input, m) && Sized(|input|, m, i, o, lit, q)
    && (i < |input| - 2 ==> Kept(input, t, i) && Entered(input, t, m, i))
  }

  // What the table says at the head of the loop: nothing inside the first block, and then a position at
  // the same place of the block.
  lemma Candidate(input: bytes, t: seq<nat>, m: nat, i: nat, o: nat, lit: nat, q: nat)
    requires Shrinking(input, t, m, i, o, lit, q) && i < |input| - 2
    ensures var ref := t[Slot(input, i)];
      && (i <= m ==> ref == 0)
      && (i > m ==> 0 < ref < i && i - ref - 1 < MAX_OFF)
      && (i > m ==> input[ref..ref + (|input| - i)] == input[i..])
  {
    hide Hash, Sized;
    var s := Slot(input, i);
    var ref := t[s];
    if ref > 0 {
      assert Holds(input, s, ref, i);
      SameSlot(input, m, ref, i);
      Apart(ref, i, m);
      var x, y := input[ref..ref + (|input| - i)], input[i..];
      forall d: nat | d < |y| ensures x[d] == y[d] { SameAfter(input, m, ref, i, d); }
    }
    if i > m {
      var k := if i % m == 0 then m else i % m;
      DivMod(i, m);
      ModUnique(m, m, 1, 0);
      ModUnique(i % m, m, 0, i % m);
      SameSlot(input, m, k, i);
      if m == 1 { SameSlot(input, m, 0, i); }
    }
  }

  lemma LiteralShrinks(input: bytes, t: seq<nat>, m: nat, i: nat, o: nat, lit: nat, q: nat, o': nat, lit': nat)
    requires Shrinking(input, t, m, i, o, lit, q) && i < |input| - 2 && i <= m
    requires if lit + 1 == MAX_LIT then lit' == 0 && o' == o + 2 else lit' == lit + 1 && o' == o + 1
    ensures Shrinking(input, t[Slot(input, i) := i], m, i + 1, o', lit', q)
  {
    hide Hash;
    KeptMore(input, t, i, i, i + 1);
    EnteredNext(input, t, m, i);
  }

  lemma EnteredNext(input: bytes, t: seq<nat>, m: nat, i: nat)
    requires Repeats(input, m) && Entered(input, t, m, i) && i < |input| - 2
    ensures Entered(input, t[Slot(input, i) := i], m, i + 1)
  {
    hide Hash;
    if m == 1 { SameSlot(input, m, 0, i); }
  }

  // A match at i goes on for as long as a reference can, or to the end.
  predicate Reaches(input: bytes, i: nat, ref: nat, i': nat) {
    && ref < i < i' <= |input| && i + 3 <= i' <= i + MAX_REF && (i' == i + 3 || i' + 2 <= |input|)
    && input[ref..ref + (i' - i)] == input[i..i']
    && (i' < i + MAX_REF && i' + 2 < |input| ==> input[ref + (i' - i)] != input[i'])
  }

  // The output position behind a reference, one byte being reserved for the next run.
  function Behind(o: nat, lit: nat, len: nat): int {
    o - (if lit == 0 then 1 else 0) + if len < 9 then 3 else 4
  }

  lemma RoomForMatch(input: bytes, t: seq<nat>, m: nat, i: nat, o: nat, lit: nat, q: nat)
    requires Shrinking(input, t, m, i, o, lit, q) && m < i < |input| - 2
    ensures o + 4 < |input| + if lit == 0 then 1 else 0
  {
    hide Kept, Entered, Slot;
  }

  lemma RoomForLiteral(input: bytes, t: seq<nat>, m: nat, i: nat, o: nat, lit: nat, q: nat)
    requires Shrinking(input, t, m, i, o, lit, q) && i <= m
    ensures o < |input|
  {
    hide Kept, Entered, Slot;
  }

  lemma RoomAtEnd(input: bytes, t: seq<nat>, m: nat, i: nat, o: nat, lit: nat, q: nat)
    requires Shrinking(input, t, m, i, o, lit, q) && |input| - 2 <= i <= |input|
    ensures lit == 0 && o + 3 < |input| && o + (|input| - i) <= Budget(|input|, m)
  {
    hide Kept, Entered, Slot;
  }

  lemma MatchShrinks(input: bytes, t: seq<nat>, m: nat, i: nat, o: nat, lit: nat, q: nat, i': nat, o': nat)
    returns (q': nat)
    requires |t| == HTAB_SIZE && Shrinking(input, t, m, i, o, lit, q) && m < i < |input| - 2
    requires Reaches(input, i, t[Slot(input, i)], i') && o' == Behind(o, lit, i' - i)
    ensures Sized(|input|, m, i', o', 0, q')
    ensures i' < |input| - 2 ==> Shrinking(input, Refilled(input, t, i, i'), m, i', o', 0, q')
  {
    hide Kept, Entered, Slot, Repeats;
    q' := if i == m + 1 then 0 else q + 1;
    Candidate(input, t, m, i, o, lit, q);
    FullLength(input, i, t[Slot(input, i)], i');
    RepeatsBound(input, m);
    if i' < |input| - 2 { RefilledKeeps(input, t, m, i, i'); }
  }

  lemma RepeatsBound(input: bytes, m: nat)
    requires Repeats(input, m)
    ensures 1 <= m && 2 * m + 14 <= |input|
  {}

  lemma FullLength(input: bytes, i: nat, ref: nat, i': nat)
    requires Reaches(input, i, ref, i') && input[ref..ref + (|input| - i)] == input[i..]
    ensures i' + 2 < |input| ==> i' == i + MAX_REF
  {
    if i' < |input| { assert input[ref..ref + (|input| - i)][i' - i] == input[i..][i' - i]; }
  }

  // The table after the match at i has been entered, and the last two positions of it.
  function Refilled(input: bytes, t: seq<nat>, i: nat, i': nat): seq<nat>
    requires |t| == HTAB_SIZE && i + 2 < |input| && 2 <= i' && i' + 2 < |input|
  {
    t[Slot(input, i) := i][Slot(input, i' - 2) := i' - 2][Slot(input, i' - 1) := i' - 1]
  }

  lemma RefilledKeeps(input: bytes, t: seq<nat>, m: nat, i: nat, i': nat)
    requires Repeats(input, m) && Kept(input, t, i) && Entered(input, t, m, i)
    requires m < i && i + 3 <= i' && i' + 2 < |input|
    ensures Kept(input, Refilled(input, t, i, i'), i') && Entered(input, Refilled(input, t, i, i'), m, i')
  {
    hide Hash, Slot, Repeats;
    KeptMore(input, t, i, i, i');
    var t1 := t[Slot(input, i) := i];
    KeptMore(input, t1, i', i' - 2, i');
    var t2 := t1[Slot(input, i' - 2) := i' - 2];
    KeptMore(input, t2, i', i' - 1, i');
    if m == 1 { OneSlot(input, i' - 1); }
    forall k: nat | 1 <= k < i' && k <= m && k + 2 < |input|
      ensures Refilled(input, t, i, i')[Slot(input, k)] > 0
    {
      if k < i { assert t[Slot(input, k)] > 0; }
    }
  }

  lemma OneSlot(input: bytes, k: nat)
    requires Repeats(input, 1) && k + 2 < |input|
    ensures Slot(input, 0) == Slot(input, k)
  {
    SameSlot(input, 1, 0, k);
  }

  lemma NoPeriod(input: bytes)
    requires |input| <= 1
    ensures forall m: nat :: !Repeats(input, m)
  {}

  lemma ShrinkingStart(input: bytes, t: seq<nat>, m: nat)
    requires Repeats(input, m) && |t| == HTAB_SIZE && forall k :: 0 <= k < HTAB_SIZE ==> t[k] == 0
    ensures Shrinking(input, t, m, 0, 1, 0, 0)
  {}

  lemma ShrinkingEnd(input: bytes, t: seq<nat>, m: nat, i: nat, o: nat, q: nat)
    requires |t| == HTAB_SIZE && Repeats(input, m) && Sized(|input|, m, i, o, 0, q) && i >= |input| - 2
    ensures Shrinking(input, t, m, i, o, 0, q)
  {}

  lemma PeriodRepeats(input: bytes, m: nat)
    requires m == Period(input, 0) > 0
    ensures Repeats(input, m) && |input| <= TWO32
  {}

  lemma FirstTwo(x: byte, y: byte)
    ensures Roll(x, y) % 0x1_0000 == Two(x, y)
  {
    ModUnique(x * 256, TWO32, 0, x * 256);
    ModUnique(Two(x, y), 0x1_0000, 0, Two(x, y));
  }

  lemma SlotIs(input: bytes, i: nat)
    requires i + 2 < |input|
    ensures Slot(input, i) == Hash(Three(input[i], input[i + 1], input[i + 2]))
  {}

  // The branch taken at i, and that there is room.
  lemma Taken(input: bytes, t: seq<nat>, m: nat, i: nat, o: nat, lit: nat, q: nat, off: nat)
    requires |t| == HTAB_SIZE && Shrinking(input, t, m, i, o, lit, q) && i < |input| - 2 && |input| <= TWO32
    requires off == (i % TWO32 - t[Slot(input, i)] - 1) % TWO32
    ensures var ref := t[Slot(input, i)];
      if i <= m then ref == 0 && o < |input|
      else
        off < MAX_OFF && 0 < ref < i && SameThree(input, ref, i) && o + 4 < |input| + if lit == 0 then 1 else 0
  {
    hide Shrinking, Slot;
    Candidate(input, t, m, i, o, lit, q);
    ModUnique(i, TWO32, 0, i);
    var ref := t[Slot(input, i)];
    if i <= m {
      RoomForLiteral(input, t, m, i, o, lit, q);
    } else {
      RoomForMatch(input, t, m, i, o, lit, q);
      ModUnique(i - ref - 1, TWO32, 0, i - ref - 1);
      var x, y := input[ref..ref + (|input| - i)], input[i..];
      assert x[0] == y[0] && x[1] == y[1] && x[2] == y[2];
    }
  }

  lemma RefilledIs(input: bytes, t: seq<nat>, t': seq<nat>, i: nat, i': nat, m: nat)
    requires |t| == HTAB_SIZE && i + 2 < |input| && 2 <= i' && i' + 2 < |input| <= TWO32
    requires t' == t[Slot(input, i) := i % TWO32][Slot(input, i' - 2) := (i' - 2) % TWO32]
      [Slot(input, i' - 1) := (i' - 1) % TWO32]
    ensures t' == Refilled(input, t, i, i')
  {
    hide Slot;
    ModUnique(i, TWO32, 0, i);
    ModUnique(i' - 2, TWO32, 0, i' - 2);
    ModUnique(i' - 1, TWO32, 0, i' - 1);
  }

  predicate SameThree(input: bytes, j: nat, k: nat)
    requires j + 2 < |input| && k + 2 < |input|
  {
    input[j] == input[k] && input[j + 1] == input[k + 1] && input[j + 2] == input[k + 2]
  }

  // No three bytes before i are those at i.
  lemma NoMatch(input: bytes, ref: nat, i: nat)
    requires NoRepeat(input) && ref < i && i + 2 < |input|
    ensures !SameThree(input, ref, i)
  {
    assert ThreeAt(input, ref) != ThreeAt(input, i);
  }

  // What holds at the head of the compressor's loops: output[..o] is a finished stream meaning
  // input[..i - lit], one byte reserved for a run header, and the lit bytes of the open run.
  ghost predicate Open(input: bytes, output: bytes, i: nat, o: nat, lit: nat) {
    && |output| == |input| && i <= |input| && lit < MAX_LIT && lit <= i
    && lit + 1 <= o <= |output| + 1 && (lit > 0 ==> o <= |output|)
    && (|input| <= TWO32 ==> Means(output[..o - lit - 1], input[..i - lit], |input|))
    && (lit > 0 ==> output[o - lit..o] == input[i - lit..i])
  }

  // Every slot holds 0 or (the low 32 bits of) a position already passed.
  ghost predicate Passed(htab: array<nat>, i: nat)
    reads htab
  {
    htab.Length == HTAB_SIZE && forall k :: 0 <= k < HTAB_SIZE ==> htab[k] == 0 || htab[k] < i
  }

  method Compress(input: bytes) returns (r: Outcome)
    ensures |input| == 0 ==> r == Done([])
    ensures |input| == 1 ==> r == Failed(Panic)
    ensures |input| > 0 && r.Done? ==> |r.data| < |input|
    ensures r.Done? && |input| <= TWO32 ==> Expand(r.data, 0, [], |input|) == Done(input)
    ensures r.Failed? ==> r.error == InsufficientBuffer || |input| == 1
    ensures forall m: nat :: Repeats(input, m) ==> r.Done? && |r.data| <= Budget(|input|, m)
    ensures |input| > 1 && NoRepeat(input) ==> r == Failed(InsufficientBuffer)
  {
    hide Open, Expand, Means, Repeats, NoRepeat, Budget, Shrinking;
    var n := |input|;
    ghost var m := Period(input, 0);
    if n == 0 {
      NothingExpands();
      NoPeriod(input);
      return Done([]);
    }
    var output := new byte[n](_ => 0);
    if n == 1 { // input[1] is out of range
      NoPeriod(input);
      return Failed(Panic);
    }
    if m > 0 { PeriodRepeats(input, m); }
    var ok, i, o, lit := Pack(input, output, m);
    if !ok { return Failed(InsufficientBuffer); }
    OpenBounds(input, output[..], i, o, lit);
    if o + 3 >= n { return Failed(InsufficientBuffer); } // a run header and two literals may follow
    o := Finish(input, output, i, o, lit);
    assert output[..][..o] == output[..o];
    MeansIs(output[..o], input, n);
    assert input[..n] == input;
    r := Done(output[..o]);
    forall k: nat | Repeats(input, k) ensures |r.data| <= Budget(|input|, k) { BudgetGrows(|input|, m, k); }
  }

  // The main loop: where it ends with room enough, the last two bytes are left.
  method Pack(input: bytes, output: array<byte>, ghost m: nat) returns (ok: bool, i: nat, o: nat, lit: nat)
    requires output.Length == |input| >= 2 && (m > 0 ==> Repeats(input, m) && |input| <= TWO32)
    modifies output
    ensures ok ==> Open(input, output[..], i, o, lit) && |input| - 2 <= i <= |input|
    ensures ok && NoRepeat(input) ==> i < o
    ensures m > 0 ==> ok && lit == 0 && o + 3 < |input| && o + (|input| - i) <= Budget(|input|, m)
  {
    hide Open, Means, Roll, Hash, Slot, Passed, Repeats, NoRepeat, Budget, Shrinking, Sized, Reaches, Refilled, Behind,
      SameThree, Two;
    var n := |input|;
    var htab := new nat[HTAB_SIZE](_ => 0);
    ok, i, o, lit := true, 0, 1, 0;
    ghost var q := 0;
    var h := Roll(input[0], input[1]);
    OpenStart(input, output[..]);
    PassedStart(htab);
    if m > 0 { ShrinkingStart(input, htab[..], m); }
    FirstTwo(input[0], input[1]);
    while i < n - 2
      invariant Open(input, output[..], i, o, lit) && i <= n
      invariant Passed(htab, i) && htab.Length == HTAB_SIZE && fresh(htab)
      invariant i < n - 2 ==> h % 0x1_0000 == Two(input[i], input[i + 1])
      invariant m > 0 ==> Shrinking(input, htab[..], m, i, o, lit, q)
      invariant NoRepeat(input) ==> i < o
      decreases n - i
    {
      ghost var at, table, size, run := i, htab[..], o, lit;
      var ref, off, found;
      h, ref, off, found := Find(input, htab, i, h);
      if m > 0 { Taken(input, table, m, i, o, lit, q, off); }
      if found {
        if NoRepeat(input) { NoMatch(input, ref, i); }
        ok, i, o := EncodeMatch(input, output, i, o, lit, off, ref);
        if !ok { return; }
        MovesOn(input, at, ref, i);
        lit := 0;
        if m > 0 { q := MatchShrinks(input, table, m, at, size, run, q, i, o); }
        if i >= n - 2 {
          if m > 0 { ShrinkingEnd(input, htab[..], m, i, o, q); }
          break;
        }
        PassedLater(htab, at + 1, i);
        h := Rehash(input, htab, i);
        if m > 0 { RefilledIs(input, table, htab[..], at, i, m); }
      } else {
        if o >= n { return false, i, o, lit; }
        o, lit := OneLiteral(input, output, i, o, lit);
        i := i + 1;
        if m > 0 { LiteralShrinks(input, table, m, at, size, run, q, o, lit); }
      }
    }
    if m > 0 { RoomAtEnd(input, htab[..], m, i, o, lit, q); }
  }

  lemma MovesOn(input: bytes, i: nat, ref: nat, i': nat)
    requires Reaches(input, i, ref, i')
    ensures i + 3 <= i' <= |input|
  {}

  lemma NothingExpands()
    ensures Expand([], 0, [], 0) == Done([])
  {}

  lemma PassedStart(htab: array<nat>)
    requires htab.Length == HTAB_SIZE && forall k :: 0 <= k < HTAB_SIZE ==> htab[k] == 0
    ensures Passed(htab, 0)
  {}

  lemma OpenStart(input: bytes, output: bytes)
    requires |output| == |input| >= 2
    ensures Open(input, output, 0, 1, 0)
  {
    assert output[..0] == [] == input[..0];
  }

  lemma OpenBounds(input: bytes, output: bytes, i: nat, o: nat, lit: nat)
    requires Open(input, output, i, o, lit)
    ensures |output| == |input| && i <= |input| && lit + 1 <= o <= |output| + 1 && lit < MAX_LIT
  {}

  lemma MeansIs(e: bytes, out: bytes, cap: nat)
    ensures Means(e, out, cap) <==> Expand(e, 0, [], cap) == Done(out)
  {}

  // Looks up the three bytes at i, enters them, and compares what was there with them.
  method Find(input: bytes, htab: array<nat>, i: nat, h0: nat) returns (h: nat, ref: nat, off: nat, found: bool)
    requires i < |input| - 2 && Passed(htab, i) && h0 % 0x1_0000 == Two(input[i], input[i + 1])
    modifies htab
    ensures Passed(htab, i + 1) && h % 0x1_0000 == Two(input[i + 1], input[i + 2])
    ensures ref == old(htab[..])[Slot(input, i)] && (ref > 0 ==> ref < i)
    ensures htab[..] == old(htab[..])[Slot(input, i) := i % TWO32]
    ensures off == (i % TWO32 - ref - 1) % TWO32
    ensures found <==> off < MAX_OFF && ref > 0 && SameThree(input, ref, i)
  {
    hide Hash, Roll, Slot;
    RollThree(h0, input[i], input[i + 1], input[i + 2]);
    h := Roll(h0, input[i + 2]);
    SlotIs(input, i);
    ref := Replace(htab, Hash(h), i);
    off := (i % TWO32 - ref - 1) % TWO32;
    found := off < MAX_OFF && ref > 0 && input[ref] == input[i] && input[ref + 1] == input[i + 1]
      && input[ref + 2] == input[i + 2];
  }

  // ref = htab[slot]; htab[slot] = i
  method Replace(htab: array<nat>, slot: nat, i: nat) returns (ref: nat)
    requires Passed(htab, i) && slot < HTAB_SIZE
    modifies htab
    ensures ref == old(htab[slot]) && (ref == 0 || ref < i) && Passed(htab, i + 1)
    ensures htab[..] == old(htab[..])[slot := i % TWO32]
  {
    ref := htab[slot];
    htab[slot] := i % TWO32;
  }

  lemma PassedLater(htab: array<nat>, i: nat, j: nat)
    requires Passed(htab, i) && i <= j
    ensures Passed(htab, j)
  {}

  // A match at i: checks the space, closes the open run and writes the reference.
  method EncodeMatch(input: bytes, output: array<byte>, i: nat, o: nat, lit: nat, off: nat, ref: nat)
    returns (ok: bool, i': nat, o': nat)
    requires Open(input, output[..], i, o, lit) && 0 < ref < i < |input| - 2 && off < MAX_OFF
    requires SameThree(input, ref, i)
    requires off == (i % TWO32 - ref - 1) % TWO32
    modifies output
    ensures ok <==> o + 4 < |input| + if lit == 0 then 1 else 0
    ensures ok ==> Open(input, output[..], i', o', 0) && Reaches(input, i, ref, i') && o' == Behind(o, lit, i' - i)
  {
    hide Open, Means, SameThree, Reaches, Behind;
    OpenBounds(input, output[..], i, o, lit);
    i', o' := i, o;
    if o + 3 + 1 >= |input| { // the cheap test, as if a run were open
      var nlit := if lit == 0 then 1 else 0;
      if o - nlit + 3 + 1 >= |input| { return false, i, o; }
    }
    CloseRun(input, output, i, o, lit);
    if lit == 0 { o' := o' - 1; } // an empty run gives its header back
    ThreeMatch(input, ref, i);
    var len := MatchLength(input, ref, i);
    o' := EmitRef(input, output, i, o', off, ref, len);
    i' := i + len;
    ok := true;
    ReachesIs(input, i, ref, len);
    BehindIs(o, lit, len);
  }

  lemma ThreeMatch(input: bytes, ref: nat, i: nat)
    requires ref < i < |input| - 2 && SameThree(input, ref, i)
    ensures input[ref..ref + 3] == input[i..i + 3]
  {
    assert input[ref..ref + 3] == [input[ref], input[ref + 1], input[ref + 2]] == input[i..i + 3];
  }

  lemma ReachesIs(input: bytes, i: nat, ref: nat, len: nat)
    requires ref < i && 3 <= len <= MAX_REF && i + len <= |input| && input[ref..ref + len] == input[i..i + len]
    requires len == 3 || i + len + 2 <= |input|
    requires len < MAX_REF && i + len + 2 < |input| ==> input[ref + len] != input[i + len]
    ensures Reaches(input, i, ref, i + len)
  {}

  lemma BehindIs(o: nat, lit: nat, len: nat)
    ensures Behind(o, lit, len) == (if lit == 0 then o - 1 else o) + if len < 9 then 3 else 4
  {}

  // Enters the last two matched positions into the table.
  method Rehash(input: bytes, htab: array<nat>, i: nat) returns (h: nat)
    requires 2 <= i < |input| - 2 && Passed(htab, i)
    modifies htab
    ensures Passed(htab, i) && h % 0x1_0000 == Two(input[i], input[i + 1])
    ensures htab[..] == old(htab[..])[Slot(input, i - 2) := (i - 2) % TWO32][Slot(input, i - 1) := (i - 1) % TWO32]
  {
    hide Hash, Roll, Slot;
    var p := i - 2;
    FirstTwo(input[p], input[p + 1]);
    RollThree(Roll(input[p], input[p + 1]), input[p], input[p + 1], input[p + 2]);
    SlotIs(input, p);
    h := Roll(Roll(input[p], input[p + 1]), input[p + 2]);
    htab[Hash(h)] := p % TWO32;
    p := p + 1;
    RollThree(h, input[p], input[p + 1], input[p + 2]);
    SlotIs(input, p);
    h := Roll(h, input[p + 2]);
    htab[Hash(h)] := p % TWO32;
  }

  // The trailing literals, at most two of them.
  method Finish(input: bytes, output: array<byte>, i0: nat, o0: nat, lit0: nat) returns (o: nat)
    requires Open(input, output[..], i0, o0, lit0) && |input| - i0 <= 2 && o0 + 3 < |input|
    modifies output
    ensures o < |input| == output.Length
    ensures lit0 == 0 ==> o <= o0 + (|input| - i0)
    ensures |input| <= TWO32 ==> Means(output[..o], input[..|input|], |input|)
  {
    hide Means;
    var i: nat, lit: nat := i0, lit0;
    o := o0;
    while i < |input|
      invariant Open(input, output[..], i, o, lit)
      invariant o + (|input| - i) + (if lit + (|input| - i) >= MAX_LIT then 1 else 0) < |input|
      invariant lit0 == 0 ==> lit == i - i0 && o == o0 + lit
      decreases |input| - i
    {
      o, lit := OneLiteral(input, output, i, o, lit);
      i := i + 1;
    }
    CloseRun(input, output, i, o, lit);
    if lit == 0 { o := o - 1; }
  }

  // output[o - lit - 1] = byte(lit - 1): the header of the open run, or a byte about to be undone.
  method CloseRun(input: bytes, output: array<byte>, i: nat, o: nat, lit: nat)
    requires Open(input, output[..], i, o, lit) && o - lit - 1 < output.Length
    modifies output
    ensures |input| <= TWO32 ==> Means(output[..if lit == 0 then o - 1 else o], input[..i], |input|)
  {
    hide Means;
    ghost var stream, run := output[..o - lit - 1], input[i - lit..i];
    output[o - lit - 1] := (lit - 1) % 256;
    assert output[..o - lit - 1] == stream;
    assert input[..i - lit] + run == input[..i];
    if lit > 0 {
      assert output[..o] == stream + [lit - 1] + run;
      if |input| <= TWO32 { AppendLiterals(stream, run, input[..i - lit], |input|); }
    }
  }

  // One more literal byte; a full run is closed and the next one opened.
  method OneLiteral(input: bytes, output: array<byte>, i: nat, o: nat, lit: nat) returns (o': nat, lit': nat)
    requires Open(input, output[..], i, o, lit) && i < |input| && o < output.Length
    modifies output
    ensures Open(input, output[..], i + 1, o', lit')
    ensures if lit + 1 == MAX_LIT then lit' == 0 && o' == o + 2 else lit' == lit + 1 && o' == o + 1
  {
    hide Means;
    ghost var stream, run := output[..o - lit - 1], input[i - lit..i];
    output[o] := input[i];
    o', lit' := o + 1, lit + 1;
    assert output[..o - lit - 1] == stream;
    assert output[o - lit..o'] == run + [input[i]] == input[i - lit..i + 1];
    if lit' == MAX_LIT {
      output[o' - lit' - 1] := lit' - 1;
      assert output[..o'] == stream + [lit' - 1] + input[i - lit..i + 1];
      assert input[..i - lit] + input[i - lit..i + 1] == input[..i + 1];
      if |input| <= TWO32 { AppendLiterals(stream, input[i - lit..i + 1], input[..i - lit], |input|); }
      o', lit' := o' + 1, 0;
    }
  }

  // How far the input at ref matches the input at i, three bytes being known to match: up to the
  // first difference, the longest reference or two bytes before the end.
  method MatchLength(input: bytes, ref: nat, i: nat) returns (len: nat)
    requires ref < i && i + 2 < |input| && input[ref..ref + 3] == input[i..i + 3]
    ensures 3 <= len <= MAX_REF && i + len <= |input| && input[ref..ref + len] == input[i..i + len]
    ensures len == 3 || i + len + 2 <= |input|
    ensures len < MAX_REF && i + len + 2 < |input| ==> input[ref + len] != input[i + len]
  {
    len := 2;
    var maxLen := |input| - i - len;
    if maxLen > MAX_REF { maxLen := MAX_REF; }
    len := len + 1;
    while !(len >= maxLen || input[ref + len] != input[i + len])
      invariant 3 <= len && (len <= maxLen || len == 3)
      invariant input[ref..ref + len] == input[i..i + len]
      decreases maxLen - len
    {
      assert input[ref..ref + len + 1] == input[ref..ref + len] + [input[ref + len]];
      assert input[i..i + len + 1] == input[i..i + len] + [input[i + len]];
      len := len + 1;
    }
  }

  method EmitRef(input: bytes, output: array<byte>, i: nat, o: nat, off: nat, ref: nat, len: nat) returns (o': nat)
    requires output.Length == |input| && o + 4 < |input| && ref < i && off < MAX_OFF
    requires 3 <= len <= MAX_REF && i + len <= |input| && input[ref..ref + len] == input[i..i + len]
    requires |input| <= TWO32 ==> Means(output[..o], input[..i], |input|) && off == i - ref - 1
    modifies output
    ensures Open(input, output[..], i + len, o', 0) && o' == o + if len < 9 then 3 else 4
  {
    hide Means, CopyFrom, RefToken;
    ghost var stream := output[..o];
    var octets := len - 2; // #octets - 1
    o' := o;
    if octets < 7 {
      output[o'] := off / 256 + octets * 32;
      o' := o' + 1;
    } else {
      output[o'] := off / 256 + 7 * 32;
      output[o' + 1] := octets - 7;
      o' := o' + 2;
    }
    output[o'] := off % 256;
    o' := o' + 2;
    RefTokenIs(off, len);
    assert output[..o' - 1] == stream + RefToken(off, len);
    if |input| <= TWO32 {
      AppendRef(stream, input[..i], off, len, |input|);
      CopyMatch(input, i, ref, len);
    }
  }

  lemma RefTokenIs(off: nat, n: nat)
    requires off < MAX_OFF && 3 <= n <= MAX_REF
    ensures RefToken(off, n) ==
      if n - 2 < 7 then [off / 256 + (n - 2) * 32, off % 256] else [off / 256 + 7 * 32, n - 2 - 7, off % 256]
  {}
}
