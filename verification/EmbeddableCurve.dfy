/**
 The public key computation of the embeddable C library: sixteen signed 16-bit
 limbs in 64-bit integers, carries that wrap from limb 15 to limb 0 with factor
 38, an eager-swap ladder, and a final conditional subtraction. Limbs are only
 partly reduced between operations; `R` is the field element they stand for.
 */
module EmbeddableCurve {
  import opened Bits
  import opened Positional
  import opened Field25519

  const W: int := 0x10000
  const Two256: int := 2 * (P + 19)

  /** The field element that sixteen limbs stand for. */
  ghost function R(a: array<int64>): int
    reads a
  {
    Val(W, a[..]) % P
  }

  /** What a multiplication leaves: digits, except that limb 0 may be off by one carry of 38. */
  ghost predicate Reduced(a: array<int64>)
    reads a
  {
    a.Length == 16 && ReducedLimbs(a[..])
  }

  ghost predicate ReducedLimbs(s: seq<int>) {
    |s| == 16 && -38 <= s[0] <= 65573 && forall k :: 1 <= k < 16 ==> 0 <= s[k] < W
  }

  /** Sums and differences of two reduced elements, the inputs of a multiplication. */
  ghost predicate Small(a: array<int64>)
    reads a
  {
    a.Length == 16 && SmallLimbs(a[..])
  }

  ghost predicate SmallLimbs(s: seq<int>) {
    |s| == 16 && forall k :: 0 <= k < 16 ==> -0x40000 <= s[k] <= 0x40000
  }

  /** The low 16 bits and the arithmetic shift that goes with them. */
  function Low16(x: int): (r: int64)
    ensures 0 <= r < W
  {
    AndLowMask(x, 16);
    Pow2Values();
    And(x, 0xffff)
  }

  function Shr16(x: int): int { x / W }

  lemma Split16(x: int)
    ensures Low16(x) == x % W && Shr16(x) == x / W && x == Low16(x) + W * Shr16(x)
  {
    AndLowMask(x, 16);
    Pow2Values();
  }

  lemma PowW()
    ensures Pow(W, 16) == Two256
  {
    Pow2Values();
    PowOfPow2(16, 16);
    PIs();
    Pow2Split(255, 1);
    assert Pow2(1) == 2;
  }

  ghost predicate Within(s: seq<int>, n: int) {
    |s| == 16 && forall k :: 0 <= k < 16 ==> -n <= s[k] <= n
  }

  /** Limb i holds the pending carry; limbs below it are digits, limbs above are as before. */
  ghost predicate MidCarry(s: seq<int>, was: seq<int>, i: nat) {
    && |s| == |was| == 16 && i < 16
    && Val(W, s) == Val(W, was)
    && Digits(W, s[..i])
    && (forall k :: i < k < 16 ==> s[k] == was[k])
    && was[i] - 0x8000_00000000 <= s[i] <= was[i] + 0x8000_00000000
  }

  lemma MidCarryStep(s: seq<int>, was: seq<int>, i: nat)
    requires MidCarry(s, was, i) && i < 15 && Within(was, 0x4000_0000_0000_0000)
    ensures var q := Shr16(s[i]);
      && -0x8000_00000000 <= q <= 0x8000_00000000
      && MidCarry(s[i := Low16(s[i])][i + 1 := s[i + 1] + q], was, i + 1)
  {
    hide Val, Low16, Shr16;
    Split16(s[i]);
    ValCarry(W, s, i, Shr16(s[i]));
  }

  /** The last limb: its carry has weight 2^256 and comes back at limb 0 as 38. */
  lemma MidCarryEnd(s: seq<int>, was: seq<int>)
    requires MidCarry(s, was, 15) && Within(was, 0x4000_0000_0000_0000)
    ensures var q := Shr16(s[15]);
      && -0x8000_00000000 <= q <= 0x8000_00000000
      && CarryPassed(was, s[15 := Low16(s[15])][0 := s[0] + 38 * q], q)
  {
    hide Val, Low16, Shr16, Pow;
    var q, v := Shr16(s[15]), Low16(s[15]);
    Split16(s[15]);
    PowW();
    var d := s[15 := v];
    ValUpdate(W, s, 15, v - s[15]);
    assert d == s[15 := s[15] + (v - s[15])];
    assert Pow(W, 16) == W * Pow(W, 15) by { PowNext(15); }
    assert (v - s[15]) * Pow(W, 15) == -q * Two256 by { ScaleBy(q, Pow(W, 15)); }
    assert Digits(W, d);
    ValUpdate(W, d, 0, 38 * q);
    assert Pow(W, 0) == 1 by { PowNext(0); }
    assert Val(W, was) == Val(W, d) + q * Two256;
    ValBound(W, d);
    assert d[0 := d[0] + 38 * q] == s[15 := v][0 := s[0] + 38 * q];
  }

  lemma PowNext(e: nat)
    ensures Pow(W, e + 1) == W * Pow(W, e) && Pow(W, 0) == 1
  {
  }

  lemma ScaleBy(q: int, p: int)
    ensures (-(W * q)) * p == -q * (W * p)
  {
  }

  /**
   The outcome of one carry pass: q multiples of 2^256 have been replaced by 38 q,
   and apart from that addition to limb 0 all limbs are digits.
   */
  ghost predicate CarryPassed(was: seq<int>, s: seq<int>, q: int) {
    && |was| == |s| == 16
    && Digits(W, s[0 := s[0] - 38 * q])
    && Val(W, s) == Val(W, was) - q * (2 * P)
    && 0 <= Val(W, was) - q * Two256 < Two256
  }

  method Carry(o: array<int64>) returns (ghost q: int)
    requires o.Length == 16 && Within(o[..], 0x4000_0000_0000_0000)
    modifies o
    ensures CarryPassed(old(o[..]), o[..], q) && -0x8000_00000000 <= q <= 0x8000_00000000
  {
    hide Val, Low16, Shr16, MidCarry, CarryPassed;
    ghost var was := o[..];
    MidCarryStart(was);
    for i := 0 to 15
      invariant MidCarry(o[..], was, i)
    {
      ghost var s := o[..];
      MidCarryStep(s, was, i);
      MidCarryRange(s, was, i);
      o[i + 1] := o[i + 1] + Shr16(o[i]);
      o[i] := Low16(o[i]);
      assert o[..] == s[i := Low16(s[i])][i + 1 := s[i + 1] + Shr16(s[i])];
    }
    ghost var s := o[..];
    MidCarryEnd(s, was);
    MidCarryLow(s, was);
    q := Shr16(o[15]);
    o[0] := o[0] + 38 * Shr16(o[15]);
    o[15] := Low16(o[15]);
    assert o[..] == s[15 := Low16(s[15])][0 := s[0] + 38 * q];
  }

  lemma MidCarryStart(was: seq<int>)
    requires |was| == 16
    ensures MidCarry(was, was, 0)
  {
  }

  lemma MidCarryRange(s: seq<int>, was: seq<int>, i: nat)
    requires MidCarry(s, was, i) && i < 15
    ensures s[i + 1] == was[i + 1]
  {
  }

  lemma MidCarryLow(s: seq<int>, was: seq<int>)
    requires MidCarry(s, was, 15)
    ensures 0 <= s[0] < W
  {
    assert s[..15][0] == s[0];
  }

  /** Product columns: row i has reached column j of b. */
  method MultiplyRow(t: array<int64>, i: nat, v: int64, b: array<int64>)
    requires t.Length == 31 && i < 16 && Small(b) && -0x40000 <= v <= 0x40000 && t != b
    requires ColumnBound(t[..], i)
    modifies t
    ensures ColumnBound(t[..], i + 1)
    ensures Val(W, t[..]) == old(Val(W, t[..])) + v * (Pow(W, i) * Val(W, b[..]))
  {
    hide Val, Pow, ColumnBound, ColumnPart;
    ghost var bs, before := b[..], t[..];
    ColumnStart(before, i, v);
    assert bs[..0] == [];
    for j := 0 to 16
      invariant b[..] == bs && ColumnPart(t[..], before, i, j)
      invariant Val(W, t[..]) == Val(W, before) + v * (Pow(W, i) * Val(W, bs[..j]))
    {
      ghost var s := t[..];
      ColumnStep(s, before, i, j, v, bs);
      t[i + j] := t[i + j] + v * b[j];
      assert t[..] == s[i + j := s[i + j] + v * bs[j]];
    }
    assert bs[..16] == bs;
    ColumnEnd(t[..], before, i);
  }

  const ColumnMax: int := 0x1000000000

  ghost predicate ColumnBound(t: seq<int>, n: nat) {
    |t| == 31 && forall k :: 0 <= k < 31 ==> -(n * ColumnMax) <= t[k] <= n * ColumnMax
  }

  ghost predicate ColumnPart(t: seq<int>, before: seq<int>, i: nat, j: nat) {
    && |t| == |before| == 31
    && forall k :: 0 <= k < 31 ==>
      before[k] - ColumnMax <= t[k] <= before[k] + ColumnMax && (k >= i + j ==> t[k] == before[k])
  }

  lemma ColumnStart(before: seq<int>, i: nat, v: int)
    requires |before| == 31
    ensures ColumnPart(before, before, i, 0) && v * (Pow(W, i) * Val(W, [])) == 0
  {
  }

  lemma ColumnEnd(t: seq<int>, before: seq<int>, i: nat)
    requires ColumnPart(t, before, i, 16) && ColumnBound(before, i)
    ensures ColumnBound(t, i + 1)
  {
  }

  lemma SignedProduct(v: int, w: int)
    requires -0x40000 <= v <= 0x40000 && -0x40000 <= w <= 0x40000
    ensures -ColumnMax <= v * w <= ColumnMax
  {
    ProductBound(if v < 0 then -v else v, if w < 0 then -w else w, 0x40000, 0x40000);
  }

  lemma ColumnStep(t: seq<int>, before: seq<int>, i: nat, j: nat, v: int, bs: seq<int>)
    requires i < 16 && j < 16 && ColumnBound(before, i) && ColumnPart(t, before, i, j)
    requires SmallLimbs(bs) && -0x40000 <= v <= 0x40000
    requires Val(W, t) == Val(W, before) + v * (Pow(W, i) * Val(W, bs[..j]))
    ensures var t' := t[i + j := t[i + j] + v * bs[j]];
      && -ColumnMax <= v * bs[j] <= ColumnMax && -16 * ColumnMax <= t[i + j] <= 16 * ColumnMax
      && ColumnPart(t', before, i, j + 1)
      && Val(W, t') == Val(W, before) + v * (Pow(W, i) * Val(W, bs[..j + 1]))
  {
    hide Val, Pow;
    SignedProduct(v, bs[j]);
    assert i * ColumnMax <= 16 * ColumnMax;
    ValUpdate(W, t, i + j, v * bs[j]);
    PowAdd(W, i, j);
    ValPrefix(W, bs, j);
    RowAlgebra(v, Pow(W, i), Val(W, bs[..j]), bs[j], Pow(W, j));
  }

  /** Columns 16 to 30 have weight 2^256 and more; they come back 38-fold at columns 0 to 14. */
  lemma FoldedValue(t: seq<int>, s: seq<int>)
    requires ColumnBound(t, 16) && |s| == 16 && s[15] == t[15]
    requires forall k :: 0 <= k < 15 ==> s[k] == t[k] + 38 * t[k + 16]
    ensures Within(s, 0x4000_0000_0000_0000)
    ensures Val(W, t) == Val(W, s) + (2 * P) * Val(W, t[16..])
  {
    hide Val, Pow;
    PowW();
    ValConcat(W, t[..16], t[16..]);
    assert t == t[..16] + t[16..];
    var hi := t[16..] + [0];
    ValSnoc(W, t[16..], 0);
    assert forall k :: 0 <= k < 16 ==> s[k] == t[..16][k] + 38 * hi[k];
    ValSum(W, t[..16], 38, hi, s);
  }

  lemma ColumnRange(t: seq<int>)
    requires ColumnBound(t, 16)
    ensures |t| == 31 && forall k :: 0 <= k < 31 ==> -0x10000000000 <= t[k] <= 0x10000000000
  {
  }

  lemma QuotientSmall(v: int, q: int)
    requires -Two256 <= v < 2 * Two256 && 0 <= v - q * Two256 < Two256
    ensures -1 <= q <= 1
  {
  }

  /** After the second carry pass limb 0 is at most one carry away from a digit. */
  lemma SecondPass(first: seq<int>, s: seq<int>, q: int, q': int)
    requires |first| == 16 && Digits(W, first[0 := first[0] - 38 * q])
    requires -0x8000_00000000 <= q <= 0x8000_00000000 && CarryPassed(first, s, q')
    ensures -1 <= q' <= 1 && ReducedLimbs(s)
  {
    hide Val, Pow;
    PowW();
    var d := first[0 := first[0] - 38 * q];
    ValBound(W, d);
    ValUpdate(W, d, 0, 38 * q);
    assert first == d[0 := d[0] + 38 * q];
    assert Pow(W, 0) == 1 by { PowNext(0); }
    assert -Two256 <= Val(W, first) < 2 * Two256;
    var e := s[0 := s[0] - 38 * q'];
    assert 0 <= e[0] < W && forall k :: 1 <= k < 16 ==> s[k] == e[k];
    QuotientSmall(Val(W, first), q');
  }

  /** The 31 product columns. */
  method Multiply(a: array<int64>, b: array<int64>) returns (t: array<int64>)
    requires Small(a) && Small(b)
    ensures fresh(t) && t.Length == 31 && ColumnBound(t[..], 16) && Val(W, t[..]) == Val(W, a[..]) * Val(W, b[..])
  {
    hide Val, Pow, ColumnBound;
    ghost var xs, ys := a[..], b[..];
    t := new int64[31](_ => 0);
    ProductStart(t[..], xs, ys);
    for i := 0 to 16
      invariant a[..] == xs && b[..] == ys && t.Length == 31 && ColumnBound(t[..], i)
      invariant Val(W, t[..]) == Val(W, xs[..i]) * Val(W, ys)
    {
      ProductRow(W, xs, i, Val(W, ys));
      MultiplyRow(t, i, a[i], b);
    }
    assert xs[..16] == xs;
  }

  /** The memcpy of sixteen limbs. */
  method CopyLimbs(o: array<int64>, t: array<int64>)
    requires o.Length == 16 && t != o && t.Length >= 16
    modifies o
    ensures o[..] == t[..16]
  {
    for k := 0 to 16
      invariant forall j :: 0 <= j < k ==> o[j] == t[j]
    {
      o[k] := t[k];
    }
  }

  /** Folds the upper columns into the lower sixteen. */
  method FoldColumns(t: array<int64>)
    requires t.Length == 31 && ColumnBound(t[..], 16)
    modifies t
    ensures Within(t[..16], 0x4000_0000_0000_0000)
    ensures old(Val(W, t[..])) == Val(W, t[..16]) + (2 * P) * Val(W, old(t[16..]))
  {
    hide Val, ColumnBound, Within;
    ghost var ts := t[..];
    ColumnRange(ts);
    for i := 0 to 15
      invariant forall k :: 0 <= k < i ==> t[k] == ts[k] + 38 * ts[k + 16]
      invariant forall k :: i <= k < 31 ==> t[k] == ts[k]
    {
      t[i] := t[i] + 38 * t[i + 16];
    }
    FoldedValue(ts, t[..16]);
  }

  /** Multiplication modulo p; the result array may be one of the operands. */
  method MultMod(o: array<int64>, a: array<int64>, b: array<int64>)
    requires o.Length == 16 && Small(a) && Small(b)
    modifies o
    ensures Reduced(o) && R(o) == FMul(old(R(a)), old(R(b)))
  {
    hide Val, CarryPassed, ColumnBound, FMul, ReducedLimbs, SmallLimbs;
    ghost var xs, ys := a[..], b[..];
    var t := Multiply(a, b);
    ghost var ts := t[..];
    assert ts[16..] == t[16..];
    FoldColumns(t);
    CopyLimbs(o, t);
    ghost var folded := o[..];
    ghost var q := Carry(o);
    ghost var first := o[..];
    FirstPass(folded, first, q);
    ghost var q' := Carry(o);
    SecondPass(first, o[..], q, q');
    MultModValue(xs, ys, ts, folded, first, o[..], q, q');
  }

  lemma ProductStart(t: seq<int>, xs: seq<int>, ys: seq<int>)
    requires |t| == 31 && forall k :: 0 <= k < 31 ==> t[k] == 0
    ensures ColumnBound(t, 0) && Val(W, t) == Val(W, xs[..0]) * Val(W, ys)
  {
    ValZero(W, t);
  }

  lemma FirstPass(was: seq<int>, s: seq<int>, q: int)
    requires CarryPassed(was, s, q) && -0x8000_00000000 <= q <= 0x8000_00000000
    ensures Digits(W, s[0 := s[0] - 38 * q]) && Within(s, 0x4000_0000_0000_0000)
  {
    var d := s[0 := s[0] - 38 * q];
    assert 0 <= d[0] < W && forall k :: 1 <= k < 16 ==> s[k] == d[k];
  }

  lemma MultModValue(xs: seq<int>, ys: seq<int>, ts: seq<int>, folded: seq<int>, first: seq<int>, s: seq<int>,
                     q: int, q': int)
    requires |ts| == 31
    requires Val(W, ts) == Val(W, xs) * Val(W, ys) == Val(W, folded) + (2 * P) * Val(W, ts[16..])
    requires CarryPassed(folded, first, q) && CarryPassed(first, s, q')
    ensures Val(W, s) % P == FMul(Val(W, xs) % P, Val(W, ys) % P)
  {
    hide Val;
    var k := 2 * Val(W, ts[16..]) + 2 * q + 2 * q';
    FMulMod(Val(W, xs), Val(W, ys));
    ModOf(Val(W, xs) * Val(W, ys), k, Val(W, s));
  }

  method Add(o: array<int64>, a: array<int64>, b: array<int64>)
    requires o.Length == 16 && Reduced(a) && Reduced(b)
    modifies o
    ensures Small(o) && R(o) == FAdd(old(R(a)), old(R(b)))
  {
    hide Val, FAdd;
    ghost var xs, ys := a[..], b[..];
    for i := 0 to 16
      invariant forall k :: 0 <= k < i ==> o[k] == xs[k] + 1 * ys[k]
      invariant forall k :: i <= k < 16 ==> a[k] == xs[k] && b[k] == ys[k]
    {
      o[i] := a[i] + b[i];
    }
    ValSum(W, xs, 1, ys, o[..]);
    FAddMod(Val(W, xs), Val(W, ys));
    FAddIs(Val(W, xs), Val(W, ys));
  }

  method Subtract(o: array<int64>, a: array<int64>, b: array<int64>)
    requires o.Length == 16 && Reduced(a) && Reduced(b)
    modifies o
    ensures Small(o) && R(o) == FSub(old(R(a)), old(R(b)))
  {
    hide Val, FSub;
    ghost var xs, ys := a[..], b[..];
    for i := 0 to 16
      invariant forall k :: 0 <= k < i ==> o[k] == xs[k] + -1 * ys[k]
      invariant forall k :: i <= k < 16 ==> a[k] == xs[k] && b[k] == ys[k]
    {
      o[i] := a[i] - b[i];
    }
    ValSum(W, xs, -1, ys, o[..]);
    FAddMod(Val(W, xs), Val(W, ys));
    FAddIs(Val(W, xs), Val(W, ys));
  }

  lemma FAddIs(x: int, y: int)
    ensures FAdd(x, y) == (x + y) % P && FSub(x, y) == (x - y) % P
  {
  }

  /** Swap by xor with a mask of all zeros or all ones. */
  method CSwapLimbs(p: array<int64>, q: array<int64>, b: int64)
    requires 0 <= b <= 1 && p.Length == 16 && q.Length == 16 && p != q
    modifies p, q
    ensures if b == 1 then p[..] == old(q[..]) && q[..] == old(p[..])
                      else p[..] == old(p[..]) && q[..] == old(q[..])
  {
    hide And, Xor;
    var c := -(b - 1) - 1;
    for i := 0 to 16
      invariant forall k :: 0 <= k < i ==> p[k] == old(if b == 1 then q[k] else p[k])
      invariant forall k :: 0 <= k < i ==> q[k] == old(if b == 1 then p[k] else q[k])
      invariant forall k :: i <= k < 16 ==> p[k] == old(p[k]) && q[k] == old(q[k])
    {
      var t := And(c, Xor(p[i], q[i]));
      AndSelect(Xor(p[i], q[i]), c);
      XorSwap(p[i], q[i]);
      p[i], q[i] := Xor(p[i], t), Xor(q[i], t);
    }
  }

  /** The exponent reached before the iteration with counter a; bits 2 and 4 are skipped. */
  function InvertExponent(a: int): nat
    requires -1 <= a <= 253
    decreases 253 - a
  {
    if a == 253 then 1
    else 2 * InvertExponent(a + 1) + if a + 1 != 2 && a + 1 != 4 then 1 else 0
  }

  lemma {:induction false} InvertExponentHigh(a: int)
    requires 4 <= a <= 253
    ensures InvertExponent(a) == Pow2(254 - a) - 1
    decreases 253 - a
  {
    if a < 253 {
      InvertExponentHigh(a + 1);
    } else {
      assert Pow2(1) == 2;
    }
  }

  lemma InvertExponentFinal()
    ensures InvertExponent(-1) == P - 2
  {
    InvertExponentHigh(4);
    hide Pow2;
    assert InvertExponent(3) == 2 * InvertExponent(4);
    assert InvertExponent(1) == 2 * InvertExponent(2) && InvertExponent(2) == 2 * InvertExponent(3) + 1;
    assert InvertExponent(-1) == 2 * InvertExponent(0) + 1 && InvertExponent(0) == 2 * InvertExponent(1) + 1;
    PIs();
    Pow2Split(250, 5);
    Pow2Values();
  }

  lemma ReducedIsSmall(a: array<int64>)
    requires Reduced(a)
    ensures Small(a)
  {
  }

  lemma PowStart(a: array<int64>)
    ensures FPow(R(a), 1) == R(a)
  {
    hide Val;
    FPowOne(R(a));
  }

  /** Raises to p - 2. */
  method Invert(o: array<int64>, i: array<int64>)
    requires o.Length == 16 && Reduced(i)
    modifies o
    ensures Reduced(o) && R(o) == FPow(old(R(i)), P - 2)
  {
    hide R, Reduced, Small, FPow, FMul, InvertExponent;
    ghost var v := R(i);
    var c := new int64[16];
    CopyElement(c, i);
    PowStart(i);
    InvertExponentStart();
    var a := 253;
    while a >= 0
      invariant -1 <= a <= 253 && Reduced(c) && Reduced(i) && R(i) == v
      invariant R(c) == FPow(v, InvertExponent(a))
    {
      ReducedIsSmall(c);
      ReducedIsSmall(i);
      ghost var e := InvertExponent(a);
      MultMod(c, c, c);
      FPowAdd(v, e, e);
      InvertExponentNext(a);
      if a != 2 && a != 4 {
        ReducedIsSmall(c);
        MultMod(c, c, i);
        FPowAdd(v, 2 * e, 1);
      }
      a := a - 1;
    }
    InvertExponentFinal();
    CopyElement(o, c);
  }

  lemma InvertExponentStart()
    ensures InvertExponent(253) == 1
  {
  }

  lemma InvertExponentNext(a: int)
    requires 0 <= a <= 253
    ensures InvertExponent(a - 1) == 2 * InvertExponent(a) + if a != 2 && a != 4 then 1 else 0
  {
  }

  method CopyElement(o: array<int64>, a: array<int64>)
    requires o.Length == 16 && Reduced(a) && o != a
    modifies o
    ensures Reduced(o) && R(o) == R(a)
  {
    CopyLimbs(o, a);
    assert a[..16] == a[..];
  }

  // ---------------------------------------------------------------- packing

  /** One carry pass turns a reduced element into digits. */
  lemma PackCarry(was: seq<int>, s: seq<int>, q: int)
    requires ReducedLimbs(was) && CarryPassed(was, s, q)
    ensures Digits(W, s) && Val(W, s) == Val(W, was) - q * (2 * P)
  {
    hide Val, Pow;
    ReducedRange(was);
    QuotientSmall(Val(W, was), q);
    var e := s[0 := s[0] - 38 * q];
    assert 0 <= e[0] < W && forall k :: 1 <= k < 16 ==> s[k] == e[k];
    ValHead(W, e);
    assert |e[1..]| == 15 && Digits(W, e[1..]);
    ValBound(W, e[1..]);
    PowW();
    assert Pow(W, 16) == W * Pow(W, 15) by { PowNext(15); }
    ValUpdate(W, s, 0, -(38 * q));
    assert e == s[0 := s[0] + -(38 * q)];
    assert Pow(W, 0) == 1 by { PowNext(0); }
    assert Val(W, e) == Val(W, was) - q * Two256;
    if q == 1 {
      assert e[0] <= 37;
    } else if q == -1 {
      assert e[0] >= W - 38;
    }
  }

  lemma ReducedRange(s: seq<int>)
    requires ReducedLimbs(s)
    ensures -38 <= Val(W, s) < Two256 + 38
  {
    hide Val, Pow;
    var d := s[0 := if s[0] < 0 then 0 else if s[0] >= W then W - 1 else s[0]];
    assert Digits(W, d);
    ValBound(W, d);
    PowW();
    ValUpdate(W, d, 0, s[0] - d[0]);
    assert s == d[0 := d[0] + (s[0] - d[0])];
    assert Pow(W, 0) == 1 by { PowNext(0); }
  }

  /** Digits are left alone by a carry pass. */
  lemma PackCarryAgain(was: seq<int>, s: seq<int>, q: int)
    requires |was| == 16 && Digits(W, was) && CarryPassed(was, s, q)
    ensures Digits(W, s) && Val(W, s) == Val(W, was)
  {
    hide Val, Pow;
    ValBound(W, was);
    PowW();
    QuotientSmall(Val(W, was), q);
    assert q == 0;
    assert s[0 := s[0] - 38 * q] == s;
  }

  /** The sixteen digits of p. */
  function PLimbs(): (s: seq<int>)
    ensures |s| == 16
  {
    seq(16, i => if i == 0 then 0xffed else if i == 15 then 0x7fff else 0xffff)
  }

  lemma PLimbsValue()
    ensures Val(W, PLimbs()) == P
  {
    hide Val, Pow;
    PLimbsTail(PLimbs(), 15);
    ValPrefix(W, PLimbs(), 15);
    assert PLimbs()[..16] == PLimbs();
    PowW();
    PowNext(15);
  }

  lemma {:induction false} PLimbsTail(s: seq<int>, n: nat)
    requires s == PLimbs() && 1 <= n <= 15
    ensures Val(W, s[..n]) == Pow(W, n) - 19
  {
    hide Val, Pow;
    ValPrefix(W, s, n - 1);
    PowNext(n - 1);
    if n == 1 {
      assert s[..0] == [];
      ValEmpty(W);
    } else {
      PLimbsTail(s, n - 1);
    }
  }

  /** The carry loop of `Positional` for base 2^16, subtracting y from x. */
  lemma BorrowLoop16(t: seq<int>, c: int, x: seq<int>, y: seq<int>)
    requires |t| < |x| && |t| < |y|
    requires Carried(W, t, c) == Val(W, x[..|t|]) - Val(W, y[..|t|])
    ensures var i, d := |t|, c + x[|t|] - y[|t|];
      && Carried(W, t + [Low16(d)], Shr16(d)) == Val(W, x[..i + 1]) - Val(W, y[..i + 1])
      && Carried(W, t, d) == Val(W, x[..i + 1]) - Val(W, y[..i + 1])
      && d == Low16(d) + W * Shr16(d)
  {
    var i, d := |t|, c + x[|t|] - y[|t|];
    CarryLoop(W, t, c, 1, x, -1, y, 0);
    Split16(d);
    hide Val;
    ValPrefix(W, x, i);
    ValPrefix(W, y, i);
    Combine(1, c, x[i], -1, 0, y[i], Pow(W, i));
    Distribute(c, x[i] - y[i], Pow(W, i));
  }

  function BorrowBit(x: int): (r: int)
    ensures r == Shr16(x) % 2
  {
    AndLowMask(Shr16(x), 1);
    And(Shr16(x), 1)
  }

  /** After limbs 0 to i - 1: `done` holds the masked differences, `last` the one not masked yet. */
  ghost predicate Borrowed(done: seq<int>, last: int, xs: seq<int>, i: nat) {
    && 1 <= i <= |xs| == 16 && |done| == i - 1 && Digits(W, done) && -W <= last < W
    && Carried(W, done + [Low16(last)], Shr16(last)) == Val(W, xs[..i]) - Val(W, PLimbs()[..i])
  }

  lemma BorrowFirst(xs: seq<int>)
    requires |xs| == 16 && Digits(W, xs)
    ensures Borrowed([], xs[0] - 0xffed, xs, 1)
  {
    hide Val, Low16, Shr16;
    ValEmpty(W);
    CarriedEmpty();
    assert xs[..0] == [] && PLimbs()[..0] == [];
    BorrowLoop16([], 0, xs, PLimbs());
  }

  lemma BorrowNext(done: seq<int>, last: int, xs: seq<int>, i: nat)
    requires Borrowed(done, last, xs, i) && Digits(W, xs) && i < 16
    ensures var d, next := xs[i] - PLimbs()[i] - BorrowBit(last), done + [Low16(last)];
      && -W <= d < W && Borrowed(next, d, xs, i + 1)
      && Carried(W, next, d) == Val(W, xs[..i + 1]) - Val(W, PLimbs()[..i + 1])
  {
    hide Val, Carried, Low16, Shr16, BorrowBit;
    Split16(last);
    BorrowBitSign(last);
    BorrowLoop16(done + [Low16(last)], Shr16(last), xs, PLimbs());
  }

  /** m = t - p with borrows; the top limb keeps the sign. */
  method TrialSubtract(t: array<int64>, m: array<int64>)
    requires t.Length == 16 && m.Length == 16 && t != m && Digits(W, t[..])
    modifies m
    ensures t[..] == old(t[..]) && Digits(W, m[..15]) && -0x8000 <= m[15] <= 0x8000
    ensures Carried(W, m[..15], m[15]) == Val(W, t[..]) - P
  {
    hide Val, Carried, Low16, Shr16, BorrowBit, PLimbs, Borrowed;
    ghost var xs := t[..];
    PLimbsAre();
    BorrowFirst(xs);
    m[0] := t[0] - 0xffed;
    ghost var done: seq<int> := [];
    for i := 1 to 15
      invariant t[..] == xs && m[..i - 1] == done && Borrowed(done, m[i - 1], xs, i)
    {
      BorrowNext(done, m[i - 1], xs, i);
      done := done + [Low16(m[i - 1])];
      m[i] := t[i] - 0xffff - BorrowBit(m[i - 1]);
      m[i - 1] := Low16(m[i - 1]);
      assert m[..i] == done;
    }
    BorrowNext(done, m[14], xs, 15);
    BorrowRange(done, m[14], xs, 15);
    done := done + [Low16(m[14])];
    m[15] := t[15] - 0x7fff - BorrowBit(m[14]);
    m[14] := Low16(m[14]);
    assert m[..15] == done;
    assert xs[..16] == xs && PLimbs()[..16] == PLimbs();
    PLimbsValue();
  }

  lemma BorrowRange(done: seq<int>, last: int, xs: seq<int>, i: nat)
    requires Borrowed(done, last, xs, i)
    ensures Digits(W, done) && 0 <= BorrowBit(last) <= 1
  {
  }

  lemma PLimbsAre()
    ensures forall i :: 0 <= i < 16 ==> PLimbs()[i] == if i == 0 then 0xffed else if i == 15 then 0x7fff else 0xffff
  {
  }

  lemma CarriedEmpty()
    ensures Carried(W, [], 0) == 0 == Val(W, [])
  {
  }

  function SubtractedOnce(v: int): int {
    if v >= P then v - P else v
  }

  /** One round of the final reduction: t - p when that is not negative, t otherwise. */
  method ConditionalSubtract(t: array<int64>, m: array<int64>)
    requires t.Length == 16 && m.Length == 16 && t != m && Digits(W, t[..])
    modifies t, m
    ensures Digits(W, t[..])
    ensures Val(W, t[..]) == SubtractedOnce(old(Val(W, t[..])))
  {
    hide Val, Carried, And, Shr16, BorrowBit;
    TrialSubtract(t, m);
    ghost var xs, ms := t[..], m[..];
    assert m[..15] == ms[..15];
    TrialSign(xs, ms);
    var b := BorrowBit(m[15]);
    CSwapLimbs(t, m, 1 - b);
  }

  lemma TrialSign(t: seq<int>, m: seq<int>)
    requires |t| == |m| == 16 && Digits(W, t) && Digits(W, m[..15]) && -0x8000 <= m[15] <= 0x8000
    requires Carried(W, m[..15], m[15]) == Val(W, t) - P
    ensures BorrowBit(m[15]) == if Val(W, t) >= P then 0 else 1
    ensures Val(W, t) >= P ==> Digits(W, m) && Val(W, m) == Val(W, t) - P
  {
    hide Val, Pow, BorrowBit, Carried;
    BorrowBitSign(m[15]);
    CarriedIs(m[..15], m[15]);
    ValBound(W, m[..15]);
    NoCarryOut(Val(W, m[..15]), m[15], Pow(W, 15), Val(W, t) - P);
    ValPrefix(W, m, 15);
    assert m[..16] == m;
    if m[15] >= 0 {
      assert forall k :: 0 <= k < 15 ==> m[k] == m[..15][k];
    }
  }

  lemma CarriedIs(t: seq<int>, c: int)
    ensures Carried(W, t, c) == Val(W, t) + c * Pow(W, |t|)
  {
  }

  lemma BorrowBitSign(x: int)
    requires -0x10000 <= x < 0x10000
    ensures BorrowBit(x) == if x < 0 then 1 else 0
  {
  }

  method Pack(o: array<byte>, n: array<int64>)
    requires o.Length == 32 && Reduced(n)
    modifies o
    ensures o[..] == EncodeU(R(n))
  {
    hide Val, CarryPassed, ReducedLimbs, EncodeU, And;
    ghost var s0 := n[..];
    var m, t := new int64[16], new int64[16];
    CopyLimbs(t, n);
    assert t[..] == s0;
    ReducedWithin(s0);
    ghost var q := Carry(t);
    ghost var s1 := t[..];
    PackCarry(s0, s1, q);
    ghost var q1 := Carry(t);
    ghost var s2 := t[..];
    PackCarryAgain(s1, s2, q1);
    ghost var q2 := Carry(t);
    PackCarryAgain(s2, t[..], q2);
    DigitsRange(t[..]);
    ConditionalSubtract(t, m);
    ConditionalSubtract(t, m);
    PackedValue(s0, q, t[..]);
    ghost var v := t[..];
    for i := 0 to 16
      invariant t[..] == v && forall k :: 0 <= k < 2 * i ==> o[k] == EncodeU(Val(W, v))[k]
    {
      PackedPair(v, i);
      o[2 * i] := And(t[i], 0xff);
      o[2 * i + 1] := t[i] / 256;
    }
  }

  lemma DigitsRange(s: seq<int>)
    requires |s| == 16 && Digits(W, s)
    ensures 0 <= Val(W, s) < Two256
  {
    hide Val, Pow;
    ValBound(W, s);
    PowW();
  }

  lemma ReducedWithin(s: seq<int>)
    requires ReducedLimbs(s)
    ensures Within(s, 0x4000_0000_0000_0000)
  {
  }

  /** Below 2p + 38, two conditional subtractions reach the representative below p. */
  lemma PackedValue(s0: seq<int>, q: int, t: seq<int>)
    requires 0 <= Val(W, s0) - q * (2 * P) < Two256
    requires Val(W, t) == SubtractedOnce(SubtractedOnce(Val(W, s0) - q * (2 * P)))
    ensures Val(W, t) == Val(W, s0) % P
  {
    hide Val;
    var v := Val(W, s0) - q * (2 * P);
    ModShift(v, 2 * q);
    var k := if v >= 2 * P then 2 else if v >= P then 1 else 0;
    DivModUnique(v, P, k, v - k * P);
  }

  /** The two bytes of a digit are bytes 2i and 2i + 1 of the value. */
  lemma PackedPair(t: seq<int>, i: nat)
    requires |t| == 16 && Digits(W, t) && i < 16
    ensures 0 <= And(t[i], 0xff) == EncodeU(Val(W, t))[2 * i] < 256
    ensures 0 <= t[i] / 256 == EncodeU(Val(W, t))[2 * i + 1] < 256
  {
    hide Val, Pow, Pow2, And;
    AndLowMask(t[i], 8);
    Pow2Values();
    ValDrop(W, t, i);
    ValHead(W, t[i..]);
    PowOfPow2(16, i);
    Pow2Split(16 * i, 8);
    DivDiv(Val(W, t), Pow(W, i), 256);
    TwoBytes(t[i], Val(W, t[i..][1..]));
    assert EncodeU(Val(W, t))[2 * i] == (Val(W, t) / Pow2(16 * i)) % 256;
    assert EncodeU(Val(W, t))[2 * i + 1] == (Val(W, t) / Pow2(16 * i + 8)) % 256;
  }

  lemma TwoBytes(a: int, rest: int)
    requires 0 <= a < W
    ensures (a + W * rest) % 256 == a % 256
    ensures ((a + W * rest) / 256) % 256 == a / 256
  {
    DivModUnique(a + W * rest, 256, a / 256 + 256 * rest, a % 256);
    DivModUnique(a / 256 + 256 * rest, 256, rest, a / 256);
  }

  // ---------------------------------------------------------------- ladder

  /** The six working elements and the two constants, all separate. */
  ghost predicate Separate(a: array<int64>, b: array<int64>, c: array<int64>, d: array<int64>, e: array<int64>,
                           f: array<int64>, k24: array<int64>, k9: array<int64>) {
    && a.Length == b.Length == c.Length == d.Length == e.Length == f.Length == 16
    && a != b && a != c && a != d && a != e && a != f && a != k24 && a != k9
    && b != c && b != d && b != e && b != f && b != k24 && b != k9
    && c != d && c != e && c != f && c != k24 && c != k9
    && d != e && d != f && d != k24 && d != k9
    && e != f && e != k24 && e != k9
    && f != k24 && f != k9
    && k24 != k9
  }

  /** The first half of a step: d = AA, f = BB, a = CB, c = DA. */
  method StepProducts(a: array<int64>, b: array<int64>, c: array<int64>, d: array<int64>, e: array<int64>,
                      f: array<int64>, k24: array<int64>, k9: array<int64>)
    requires Separate(a, b, c, d, e, f, k24, k9) && Reduced(a) && Reduced(b) && Reduced(c) && Reduced(d)
    modifies a, b, c, d, e, f
    ensures Reduced(a) && Reduced(c) && Reduced(d) && Reduced(f)
    ensures var p, m := FAdd(old(R(a)), old(R(c))), FSub(old(R(a)), old(R(c)));
      && R(d) == FMul(p, p) && R(f) == FMul(m, m)
      && R(a) == FMul(FAdd(old(R(b)), old(R(d))), m) && R(c) == FMul(FSub(old(R(b)), old(R(d))), p)
  {
    hide R, Reduced, Small, FAdd, FSub, FMul;
    Add(e, a, c);
    Subtract(a, a, c);
    Add(c, b, d);
    Subtract(b, b, d);
    MultMod(d, e, e);
    MultMod(f, a, a);
    MultMod(a, c, a);
    MultMod(c, b, e);
  }

  /** The second half: a = x2, b = x3, c = z2, d = z3 of the next point. */
  method StepCombine(a: array<int64>, b: array<int64>, c: array<int64>, d: array<int64>, e: array<int64>,
                     f: array<int64>, k24: array<int64>, k9: array<int64>)
    requires Separate(a, b, c, d, e, f, k24, k9) && Reduced(a) && Reduced(c) && Reduced(d) && Reduced(f)
    requires Reduced(k24) && R(k24) == A24 && Reduced(k9) && R(k9) == BasePoint
    modifies a, b, c, d, e, f
    ensures Reduced(a) && Reduced(b) && Reduced(c) && Reduced(d)
    ensures var p, m, q := FAdd(old(R(a)), old(R(c))), FSub(old(R(a)), old(R(c))), FSub(old(R(d)), old(R(f)));
      && R(b) == FMul(p, p) && R(d) == FMul(FMul(m, m), BasePoint)
      && R(c) == FMul(q, FAdd(FMul(q, A24), old(R(d)))) && R(a) == FMul(old(R(d)), old(R(f)))
  {
    hide R, Reduced, Small, FAdd, FSub, FMul;
    ReducedIsSmall(k24);
    ReducedIsSmall(k9);
    Add(e, a, c);
    Subtract(a, a, c);
    MultMod(b, a, a);
    Subtract(c, d, f);
    MultMod(a, c, k24);
    Add(a, a, d);
    MultMod(c, c, a);
    ReducedIsSmall(d);
    ReducedIsSmall(f);
    MultMod(a, d, f);
    ReducedIsSmall(b);
    MultMod(d, b, k9);
    MultMod(b, e, e);
  }

  ghost function Point(a: array<int64>, b: array<int64>, c: array<int64>, d: array<int64>): Ladder
    reads a, b, c, d
  {
    Ladder(R(a), R(c), R(b), R(d))
  }

  method LadderStep(a: array<int64>, b: array<int64>, c: array<int64>, d: array<int64>, e: array<int64>,
                    f: array<int64>, k24: array<int64>, k9: array<int64>)
    requires Separate(a, b, c, d, e, f, k24, k9) && Reduced(a) && Reduced(b) && Reduced(c) && Reduced(d)
    requires Reduced(k24) && R(k24) == A24 && Reduced(k9) && R(k9) == BasePoint
    modifies a, b, c, d, e, f
    ensures Reduced(a) && Reduced(b) && Reduced(c) && Reduced(d)
    ensures Point(a, b, c, d) == Step(BasePoint, old(Point(a, b, c, d)))
  {
    hide R, Reduced, Small, FAdd, FSub, FMul;
    StepProducts(a, b, c, d, e, f, k24, k9);
    ghost var cb, da, aa, bb := R(a), R(c), R(d), R(f);
    StepCombine(a, b, c, d, e, f, k24, k9);
    ghost var q := FSub(aa, bb);
    FAddSymmetric(cb, da);
    SquareOfDifference(cb, da);
    FMulSymmetric(q, A24);
    FAddSymmetric(FMul(A24, q), aa);
    FMulSymmetric(FMul(FSub(da, cb), FSub(da, cb)), BasePoint);
  }

  /** A small constant in the lowest two limbs. */
  method SmallElement(lo: int64, hi: int64) returns (a: array<int64>)
    requires 0 <= lo < W && 0 <= hi <= 1
    ensures fresh(a) && Reduced(a) && R(a) == lo + W * hi
  {
    hide Val, Pow;
    a := new int64[16](_ => 0);
    ghost var zeros := a[..];
    ValZero(W, zeros);
    ValUpdate(W, zeros, 0, lo);
    ValUpdate(W, zeros[0 := zeros[0] + lo], 1, hi);
    PowNext(0);
    a[0] := lo;
    a[1] := hi;
    assert a[..] == zeros[0 := zeros[0] + lo][1 := 0 + hi];
  }

  method ClampKey(z: array<byte>)
    requires z.Length == 32
    modifies z
    ensures z[..] == Clamp(old(z[..]))
  {
    hide And, Or;
    ghost var k := z[..];
    ClampIsBytes(k);
    assert Clamp(k)[0] == And(k[0], 248) && Clamp(k)[31] == Or(And(k[31], 127), 64);
    z[31] := Or(And(z[31], 127), 64);
    z[0] := And(z[0], 248);
    assert z[..] == Clamp(k);
  }

  /** The ladder loop with its swap before and after every step. */
  method RunLadder(z: seq<byte>, a: array<int64>, b: array<int64>, c: array<int64>, d: array<int64>, e: array<int64>,
                   f: array<int64>, k24: array<int64>, k9: array<int64>)
    requires |z| == 32 && Separate(a, b, c, d, e, f, k24, k9)
    requires Reduced(a) && Reduced(b) && Reduced(c) && Reduced(d)
    requires Reduced(k24) && R(k24) == A24 && Reduced(k9) && R(k9) == BasePoint
    modifies a, b, c, d, e, f
    ensures Reduced(a) && Reduced(c)
    ensures var s := EagerFrom(Val(256, z), BasePoint, 255, old(Point(a, b, c, d)));
      R(a) == s.x2 && R(c) == s.z2
  {
    hide R, Reduced, Step, Val, Bit, Pow2, And;
    ghost var k := Val(256, z);
    var i := 254;
    while i >= 0
      invariant -1 <= i <= 254
      invariant Reduced(a) && Reduced(b) && Reduced(c) && Reduced(d)
      invariant Reduced(k24) && R(k24) == A24 && Reduced(k9) && R(k9) == BasePoint
      invariant EagerFrom(k, BasePoint, i + 1, Point(a, b, c, d)) ==
        EagerFrom(k, BasePoint, 255, old(Point(a, b, c, d)))
    {
      var r := And(z[i / 8] / Pow2(i % 8), 1);
      KeyBit(z, i);
      SwapPoint(a, b, c, d, r);
      LadderStep(a, b, c, d, e, f, k24, k9);
      SwapPoint(a, b, c, d, r);
      i := i - 1;
    }
  }

  lemma KeyBit(z: seq<byte>, i: nat)
    requires |z| == 32 && i < 256
    ensures And(z[i / 8] / Pow2(i % 8), 1) == Bit(Val(256, z), i)
  {
    hide Val, And;
    BitOfBytes(z, i / 8, i % 8);
    AndLowMask(z[i / 8] / Pow2(i % 8), 1);
  }

  method SwapPoint(a: array<int64>, b: array<int64>, c: array<int64>, d: array<int64>, r: int64)
    requires 0 <= r <= 1 && a != b && a != c && a != d && b != c && b != d && c != d
    requires Reduced(a) && Reduced(b) && Reduced(c) && Reduced(d)
    modifies a, b, c, d
    ensures Reduced(a) && Reduced(b) && Reduced(c) && Reduced(d)
    ensures R(a) == if r == 1 then old(R(b)) else old(R(a))
    ensures R(b) == if r == 1 then old(R(a)) else old(R(b))
    ensures R(c) == if r == 1 then old(R(d)) else old(R(c))
    ensures R(d) == if r == 1 then old(R(c)) else old(R(d))
  {
    hide Val, ReducedLimbs;
    CSwapLimbs(a, b, r);
    CSwapLimbs(c, d, r);
  }

  /** The u-coordinate of the base point times a clamped scalar. */
  method BaseMultiple(z: seq<byte>) returns (a: array<int64>)
    requires |z| == 32
    ensures fresh(a) && Reduced(a) && R(a) == X25519(Val(256, z), BasePoint)
  {
    hide R, Reduced, Small, EagerFrom, LadderFrom, FMul, FPow, Val;
    a := SmallElement(1, 0);
    var b := SmallElement(9, 0);
    var c := SmallElement(0, 0);
    var d := SmallElement(1, 0);
    var k24 := SmallElement(0xdb41, 1);
    var k9 := SmallElement(9, 0);
    var e, f := new int64[16], new int64[16];
    ReducedLength(a, b, c, d);
    RunLadder(z, a, b, c, d, e, f, k24, k9);
    EagerIsDeferred(Val(256, z), BasePoint, 255, Ladder(1, 0, 9, 1), 0);
    Invert(c, c);
    ReducedIsSmall(a);
    ReducedIsSmall(c);
    MultMod(a, a, c);
  }

  /** The public key of a private key. */
  method GeneratePublicKey(publicKey: array<byte>, privateKey: seq<byte>)
    requires publicKey.Length == 32 && |privateKey| == 32
    modifies publicKey
    ensures publicKey[..] == PublicKey(privateKey)
  {
    hide R, Reduced, X25519, EncodeU, Val, Clamp;
    var z := new byte[32](i requires 0 <= i < 32 => privateKey[i]);
    assert z[..] == privateKey;
    ClampKey(z);
    var a := BaseMultiple(z[..]);
    Pack(publicKey, a);
  }

  lemma ReducedLength(a: array<int64>, b: array<int64>, c: array<int64>, d: array<int64>)
    ensures Reduced(a) ==> a.Length == 16
    ensures Reduced(b) ==> b.Length == 16
    ensures Reduced(c) ==> c.Length == 16
    ensures Reduced(d) ==> d.Length == 16
  {
  }
}
