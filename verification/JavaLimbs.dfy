/**
 Arithmetic of the Java limb representation: ten digits in base 2^26, and the
 carry, fold, product, exponent and byte-packing steps of the methods in
 `JavaCurve25519`, each as a statement about limb sequences.
 */
module JavaLimbs {
  import opened Bits
  import opened Positional
  import opened Field25519

  const B: int := 0x4000000
  const Two234: int := 0x400_00000000_00000000_00000000_00000000_00000000_00000000_00000000
  const Two255: int := P + 19
  const Two260: int := 32 * (P + 19)

  /** The limb mask and the arithmetic shift that goes with it. */
  function Low26(x: int): (r: int32)
    ensures 0 <= r < B
  {
    AndLowMask(x, 26);
    Pow2Values();
    And(x, 0x03FFFFFF)
  }

  function Shr26(x: int): int { x / B }

  lemma Split26(x: int)
    ensures Low26(x) == x % B && Shr26(x) == x / B && x == Low26(x) + B * Shr26(x)
  {
    AndLowMask(x, 26);
    Pow2Values();
  }

  /** The carry loop of `Positional`, with mask and shift. */
  lemma CarryLoop26(t: seq<int>, c: int, k: int, x: seq<int>, l: int, y: seq<int>, offset: int)
    requires |t| < |x| && |t| < |y|
    requires Carried(B, t, c) == k * Val(B, x[..|t|]) + l * Val(B, y[..|t|]) + offset
    ensures var i, d := |t|, c + k * x[|t|] + l * y[|t|];
      && Carried(B, t + [Low26(d)], Shr26(d)) == k * Val(B, x[..i + 1]) + l * Val(B, y[..i + 1]) + offset
      && d == Low26(d) + B * Shr26(d)
  {
    CarryLoop(B, t, c, k, x, l, y, offset);
    Split26(c + k * x[|t|] + l * y[|t|]);
  }

  function Low21(x: int): (r: int32)
    ensures r == x % 0x200000
  {
    AndLowMask(x, 21);
    Pow2Values();
    And(x, 0x001FFFFF)
  }

  function LowBit(x: int): (r: int32)
    ensures r == x % 2
  {
    AndLowMask(x, 1);
    And(x, 1)
  }

  lemma PowB()
    ensures Pow(B, 9) == Two234 && Pow(B, 10) == Two260
  {
    Pow2Values();
    PowOfPow2(26, 9);
    PowOfPow2(26, 10);
    PIs();
    Pow2Split(255, 5);
    Pow2Split(234, 21);
  }

  ghost predicate Limbs(s: seq<int>) {
    |s| == 10 && Digits(B, s)
  }

  /** One limb of a subtraction x - l * y, where `sh` is the borrow, 0 or -1, and l is 0 or 1. */
  lemma SubStep(done: seq<int>, sh: int, x: seq<int>, l: int, y: seq<int>, offset: int)
    requires Limbs(x) && Limbs(y) && |done| < 10 && Digits(B, done) && -1 <= sh <= 0 && 0 <= l <= 1
    requires Carried(B, done, sh) == 1 * Val(B, x[..|done|]) + -l * Val(B, y[..|done|]) + offset
    ensures var i := |done|;
      var d := x[i] - l * y[i] + sh;
      && 0 <= x[i] < B && 0 <= y[i] < B && -1 <= Shr26(d) <= 0 && Digits(B, done + [Low26(d)])
      && Carried(B, done + [Low26(d)], Shr26(d)) == 1 * Val(B, x[..i + 1]) + -l * Val(B, y[..i + 1]) + offset
  {
    hide Val, Carried, Low26, Shr26, Digits;
    LimbAt(x, |done|);
    LimbAt(y, |done|);
    CarryLoop26(done, sh, 1, x, -l, y, offset);
    DigitsSnoc(B, done, Low26(x[|done|] - l * y[|done|] + sh));
  }

  lemma LimbAt(s: seq<int>, i: nat)
    requires Limbs(s) && i < 10
    ensures 0 <= s[i] < B
  {
  }

  ghost predicate Canonical(s: seq<int>) {
    Limbs(s) && Val(B, s) < P
  }

  /** The field element held by an array of ten limbs. */
  ghost function V(a: array<int32>): int
    reads a
  {
    Val(B, a[..])
  }

  ghost predicate Holds(a: array<int32>)
    reads a
  {
    Canonical(a[..])
  }

  /** What one trial subtraction does to a value below 2^256. */
  function TrialSubtracted(v: int): int {
    if P <= v < 2 * Two255 - 19 then v - P else v
  }

  lemma MulCarryValue(ts: seq<int>, done: seq<int>, carry: int)
    requires Digits(B, done) && 0 <= carry && |done| == |ts| + 1
    requires Carried(B, done, carry) == Val(B, ts + [0])
    ensures Val(B, ts) < Pow(B, |done|) ==> Val(B, done) == Val(B, ts)
  {
    hide Val, Carried;
    ValSnoc(B, ts, 0);
    CarryDone(B, done, carry, Val(B, ts));
    ValBound(B, done);
    NonNegative(Val(B, done), carry, B, |done|, done);
  }

  lemma NonNegative(low: int, carry: int, b: nat, n: nat, t: seq<int>)
    requires 0 <= low == Val(b, t) && 0 <= carry && n == |t|
    ensures Carried(b, t, carry) >= 0
  {
    assert carry * Pow(b, n) >= 0;
  }

  lemma ProductFits(xs: seq<int>, ys: seq<int>)
    requires Canonical(xs) && Canonical(ys)
    ensures var v := Val(B, xs) * Val(B, ys);
      FitsFold(v, 10) && v < Pow(B, 20)
  {
    hide Val;
    PowB();
    PowAdd(B, 10, 10);
    ValBound(B, xs);
    ValBound(B, ys);
    ProductBound(Val(B, xs), Val(B, ys), P, P);
  }

  /** Column sums of n rows. */
  ghost predicate RowBound(t: seq<int>, n: nat) {
    forall k :: 0 <= k < |t| ==> 0 <= t[k] <= n * 0xFFFFFF8000001
  }

  /** Row i has reached column j: columns i to i + j hold one more product. */
  ghost predicate RowPart(t: seq<int>, before: seq<int>, i: nat, j: nat) {
    && |t| == |before| == i + 9
    && forall k :: 0 <= k < |t| ==> before[k] <= t[k] <= before[k] + if i <= k < i + j then 0xFFFFFF8000001 else 0
  }

  lemma LimbProduct(v: int, w: int)
    requires 0 <= v < B && 0 <= w < B
    ensures 0 <= v * w <= 0xFFFFFF8000001
  {
    ProductBound(v, w, B - 1, B - 1);
  }

  lemma RowStart(v: int, i: nat)
    ensures v * (Pow(B, i) * Val(B, [])) == 0
  {
    ValEmpty(B);
  }

  lemma RowStep(t: seq<int>, before: seq<int>, i: nat, j: nat, v: int, ys: seq<int>)
    requires i <= 9 && RowBound(before, i) && RowPart(t, before, i, j) && 0 <= v < B && Limbs(ys) && j < 9
    requires Val(B, t) == Val(B, before) + v * (Pow(B, i) * Val(B, ys[..j]))
    ensures var t' := t[i + j := t[i + j] + v * ys[j]];
      && 0 <= v * ys[j] <= 0xFFFFFF8000001 && 0 <= t[i + j] <= 10 * 0xFFFFFF8000001
      && RowPart(t', before, i, j + 1)
      && Val(B, t') == Val(B, before) + v * (Pow(B, i) * Val(B, ys[..j + 1]))
  {
    hide Val, Pow;
    RowRoom(t, before, i, j, v, ys[j]);
    RowValue(t, Val(B, before), i, j, v, ys);
  }

  lemma RowValue(t: seq<int>, before: int, i: nat, j: nat, v: int, ys: seq<int>)
    requires |t| == i + 9 && j < 9 && |ys| == 10 && Val(B, t) == before + v * (Pow(B, i) * Val(B, ys[..j]))
    ensures Val(B, t[i + j := t[i + j] + v * ys[j]]) == before + v * (Pow(B, i) * Val(B, ys[..j + 1]))
  {
    hide Val, Pow;
    var d := v * ys[j];
    ValUpdate(B, t, i + j, d);
    PowAdd(B, i, j);
    ValPrefix(B, ys, j);
    RowSum(before, v, Pow(B, i), Val(B, ys[..j]), ys[j], Pow(B, j));
  }

  lemma RowSum(before: int, v: int, p: int, w: int, y: int, q: int)
    ensures before + v * (p * w) + (v * y) * (p * q) == before + v * (p * (w + y * q))
  {
    RowAlgebra(v, p, w, y, q);
  }

  lemma RowRoom(t: seq<int>, before: seq<int>, i: nat, j: nat, v: int, w: int)
    requires i <= 9 && RowBound(before, i) && RowPart(t, before, i, j) && 0 <= v < B && 0 <= w < B && j < 9
    ensures 0 <= v * w <= 0xFFFFFF8000001 && |t| == i + 9 && 0 <= t[i + j] <= 10 * 0xFFFFFF8000001
    ensures RowPart(t[i + j := t[i + j] + v * w], before, i, j + 1)
  {
    LimbProduct(v, w);
    assert i * 0xFFFFFF8000001 <= 9 * 0xFFFFFF8000001;
  }

  lemma RowEnd(t: seq<int>, before: seq<int>, i: nat, v: int, ys: seq<int>)
    requires i <= 9 && RowBound(before, i) && RowPart(t, before, i, 9) && 0 <= v < B && Limbs(ys)
    requires Val(B, t) == Val(B, before) + v * (Pow(B, i) * Val(B, ys[..9]))
    ensures 0 <= v * ys[9] <= 0xFFFFFF8000001 && RowBound(t + [v * ys[9]], i + 1)
    ensures Val(B, t + [v * ys[9]]) == Val(B, before) + v * (Pow(B, i) * Val(B, ys))
  {
    hide Val, Pow;
    LimbProduct(v, ys[9]);
    ValSnoc(B, t, v * ys[9]);
    PowAdd(B, i, 9);
    ValPrefix(B, ys, 9);
    assert ys[..10] == ys;
    RowAlgebra(v, Pow(B, i), Val(B, ys[..9]), ys[9], Pow(B, 9));
  }

  lemma FirstRow(t: seq<int>, xs: seq<int>, ys: seq<int>)
    requires Limbs(xs) && Limbs(ys) && |t| == 10
    requires forall k :: 0 <= k < 10 ==> t[k] == xs[0] * ys[k]
    ensures RowBound(t, 1) && Val(B, t) == Val(B, xs[..1]) * Val(B, ys)
  {
    forall k | 0 <= k < 10
      ensures 0 <= t[k] <= 0xFFFFFF8000001
    {
      LimbProduct(xs[0], ys[k]);
    }
    ValScale(B, xs[0], ys, t);
    ValEmpty(B);
    ValPrefix(B, xs, 0);
    assert xs[..0] == [];
  }

  lemma NarrowLow26(v: int)
    ensures Low26(ToInt32(v)) == Low26(v)
  {
    hide Low26;
    Split26(v);
    Split26(ToInt32(v));
    SameLow26(ToInt32(v), v);
  }

  /** Words that differ by a multiple of 2^32 have the same low digits. */
  lemma SameLow26(y: int, z: int)
    requires (z - y) % 0x1_0000_0000 == 0
    ensures y % B == z % B
  {
    var k := (z - y) / 0x1_0000_0000;
    var q, r := z / B, z % B;
    assert z == B * q + r && z - y == 0x1_0000_0000 * k;
    DivModUnique(y, B, q - 64 * k, r);
  }

  lemma MulA24Value(xs: seq<int>, done: seq<int>, carry: int)
    requires Canonical(xs) && Limbs(done) && 0 <= carry <= 121665
    requires Carried(B, done, carry) == 121665 * Val(B, xs)
    ensures Digits(B, done + [carry]) && Val(B, done + [carry]) == A24 * Val(B, xs)
    ensures FitsFold(Val(B, done + [carry]), 1)
  {
    hide Val;
    ValSnoc(B, done, carry);
    ValBound(B, xs);
    assert Pow(B, 1) == B * Pow(B, 0);
  }

  /** The limb of the first pass reaches 2^31 - 1 exactly when both of its parts are maximal. */
  lemma FoldStepBounds(limb: int, h: int, carry: int, l: int)
    requires 0 <= limb <= 31 && 0 <= carry <= 19 && 0 <= h < B && 0 <= l < B
    ensures var t := limb + 32 * h;
      var c := carry + Low26(t) * 19 + l;
      t < 0x8000_0000 && c < 0x8000_0000 && 0 <= Shr26(t) <= 31 && 0 <= Shr26(c) <= 19
  {
    hide Low26, Shr26;
    var t := limb + 32 * h;
    Split26(t);
    Split26(carry + Low26(t) * 19 + l);
  }

  /** One limb of the first pass. */
  lemma FoldStep(ls: seq<int>, limb: int, hi: seq<int>, top: int, done: seq<int>, carry: int, lo: seq<int>)
    requires |ls| == |done| < |hi| && |done| < |lo|
    requires Carried(B, ls, limb) == 32 * Val(B, hi[..|ls|]) + top
    requires Carried(B, done, carry) == 19 * Val(B, ls) + Val(B, lo[..|ls|])
    ensures var i, l := |ls|, limb + 32 * hi[|ls|];
      var c := carry + Low26(l) * 19 + lo[i];
      && Carried(B, ls + [Low26(l)], Shr26(l)) == 32 * Val(B, hi[..i + 1]) + top
      && Carried(B, done + [Low26(c)], Shr26(c)) == 19 * Val(B, ls + [Low26(l)]) + Val(B, lo[..i + 1])
  {
    hide Val, Carried, Low26, Shr26;
    var l := limb + 32 * hi[|ls|];
    CarryLoop26(ls, limb, 32, hi, 0, hi, top);
    var ls' := ls + [Low26(l)];
    assert ls'[..|ls|] == ls && ls'[..|ls| + 1] == ls';
    CarryLoop26(done, carry, 19, ls', 1, lo, 0);
  }

  /** The range that one pass can fold into ten limbs. */
  ghost predicate FitsFold(v: int, size: nat) {
    v < Two255 * Two255 && v < Two255 * Pow(B, size)
  }

  lemma TrialIsMod(w: int, q: int, v: int)
    requires 0 <= w < 2 * P && v == q * P + w
    ensures 0 <= TrialSubtracted(w) < P && TrialSubtracted(w) == v % P
  {
    ModOf(v, q, w);
    DivModUnique(w, P, if w < P then 0 else 1, TrialSubtracted(w));
  }

  lemma WholeLimbs(s: seq<int>)
    ensures Carried(B, s, 0) == Val(B, s)
  {
  }

  /** The re-aligned high limbs hold exactly the part of the value above bit 255. */
  lemma FoldSplit(orig: seq<int>, ls: seq<int>, limb: int)
    requires 11 <= |orig| <= 20 && Digits(B, orig) && |ls| == |orig| - 10 && Digits(B, ls)
    requires FitsFold(Val(B, orig), |ls|)
    requires Carried(B, ls, limb) == 32 * Val(B, orig[10..]) + orig[9] / 0x200000
    ensures limb == 0 && 0 <= Val(B, ls) < Two255
    ensures var lo := orig[..10][9 := orig[9] % 0x200000];
      Limbs(lo) && 0 <= Val(B, lo) < Two255 && Val(B, orig) == Val(B, lo) + Two255 * Val(B, ls)
  {
    hide Val, Carried;
    PowB();
    assert orig == orig[..10] + orig[10..];
    ValConcat(B, orig[..10], orig[10..]);
    WholeLimbs(orig[..10]);
    ValBound(B, orig[..10]);
    ValBound(B, orig[10..]);
    TopLimb(orig[..10], 0, Val(B, orig[..10]));
    var h := 32 * Val(B, orig[10..]) + orig[9] / 0x200000;
    FoldQuotient(Val(B, orig), Val(B, orig[..10][9 := orig[9] % 0x200000]), h, Pow(B, |ls|));
    CarryDone(B, ls, limb, h);
  }

  lemma FoldQuotient(v: int, low: int, h: int, size: int)
    requires v == low + Two255 * h && 0 <= low && v < Two255 * Two255 && v < Two255 * size
    ensures h < size && h < Two255
  {
  }

  /** The bytes of a Java array as unsigned values. */
  function Unsigned(s: seq<sbyte>): (u: seq<int>)
    ensures |u| == |s| && Digits(256, u)
    ensures forall i :: 0 <= i < |s| ==> u[i] == (s[i] as int) % 256
  {
    seq(|s|, i requires 0 <= i < |s| => (s[i] as int) % 256)
  }

  function LoadedByte(s: seq<sbyte>, i: nat): int
    requires |s| == 32 && i < 32
  {
    if i == 31 then Or(s[31], 0x40) else if i == 0 then And(s[0], 0xF8) else s[i]
  }

  lemma LoadedByteCases(s: seq<sbyte>, i: nat)
    requires |s| == 32 && i < 32
    ensures LoadedByte(s, i) == if i == 31 then Or(s[31], 0x40) else if i == 0 then And(s[0], 0xF8) else s[i]
  {
  }

  /** The bit read from the loaded byte is the bit of the clamped scalar. */
  lemma WalkedBit(s: seq<sbyte>, i: nat, j: nat)
    requires |s| == 32 && i < 32 && j < 8 && (i == 31 ==> j <= 6)
    ensures (LoadedByte(s, i) / Pow2(j)) % 2 == Bit(DecodeScalar(Unsigned(s)), 8 * i + j)
  {
    hide And, Or, Val;
    var u := Unsigned(s);
    var k := Clamp(u);
    ClampIsBytes(u);
    BitOfBytes(k, i, j);
    BitBelow(u[i], s[i] / 256, j);
    hide Bit;
    if i == 31 {
      BitOr(s[31], 64, j);
      BitOr(And(u[31], 127), 64, j);
      BitAnd(u[31], 127, j);
      BitsOf127(j);
    } else if i == 0 {
      BitAnd(s[0], 248, j);
      BitAnd(u[0], 248, j);
    }
  }

  lemma BitsOf127(j: nat)
    requires j <= 6
    ensures Bit(127, j) == 1
  {
    Pow2Split(j, 6 - j);
    assert Pow2(6) == 64;
    var m, n := Pow2(j), Pow2(6 - j);
    assert m * (2 * n - 1) == 2 * (m * n) - m;
    DivModUnique(127, m, 2 * n - 1, m - 1);
  }

  /** The element that the code reads from 32 bytes: two trial subtractions on 256 bits. */
  function UnpackedU(u: seq<int>): int {
    TrialSubtracted(TrialSubtracted(Val(256, u)))
  }

  lemma TrialRange(w: int, v: int)
    requires 0 <= v < 2 * Two255 && w == TrialSubtracted(v)
    ensures 0 <= w < 2 * Two255
  {
  }

  /** After `index` bytes: their value, with nothing above bit 8 * index. */
  ghost predicate PartlyUnpacked(s: seq<int>, u: seq<int>, index: nat) {
    && Limbs(s) && index <= |u| == 32
    && Val(B, s) == Val(256, u[..index])
    && (forall k :: 8 * index / 26 < k < 10 ==> s[k] == 0)
    && s[8 * index / 26] < Pow2(8 * index % 26)
  }

  lemma UnpackStart(s: seq<int>, u: seq<int>)
    requires |u| == 32 && |s| == 10 && forall k :: 0 <= k < 10 ==> s[k] == 0
    ensures PartlyUnpacked(s, u, 0)
  {
    ValZero(B, s);
  }

  lemma UnpackEnd(s: seq<int>, u: seq<int>)
    requires PartlyUnpacked(s, u, 32) && Digits(256, u)
    ensures Limbs(s) && 0 <= Val(B, s) == Val(256, u) < 2 * Two255
  {
    hide Val, Pow;
    assert u[..32] == u;
    ValBound(256, u);
    Pow2Values();
    PowOfPow2(8, 32);
    PIs();
    Pow2Split(255, 1);
    assert Pow2(1) == 2;
  }

  /** Position and weight of byte `index`. */
  lemma ByteWeight(index: nat)
    ensures Pow2(8 * index % 26) * Pow(B, 8 * index / 26) == Pow(256, index)
  {
    Pow2Values();
    PowOfPow2(8, index);
    PowOfPow2(26, 8 * index / 26);
    Pow2Split(8 * index % 26, 26 * (8 * index / 26));
  }

  /** Changing the limb at the byte's position by d adds d * B^word, that is byte * 256^index. */
  lemma UnpackValue(s: seq<int>, u: seq<int>, index: nat, d: int)
    requires |s| == 10 && index < |u| == 32 && d == u[index] * Pow2(8 * index % 26)
    requires Val(B, s) == Val(256, u[..index])
    ensures var word := 8 * index / 26;
      Val(B, s[word := s[word] + d]) == Val(256, u[..index + 1])
  {
    hide Val, Pow, Pow2;
    var word, m := 8 * index / 26, Pow2(8 * index % 26);
    ValUpdate(B, s, word, d);
    ValPrefix(256, u, index);
    ByteWeight(index);
    assert (u[index] * m) * Pow(B, word) == u[index] * (m * Pow(B, word));
  }

  lemma UnpackLow(s: seq<int>, u: seq<int>, index: nat)
    requires PartlyUnpacked(s, u, index) && index < 32 && Digits(256, u) && 8 * index % 26 <= 18
    ensures var word := 8 * index / 26;
      var v := Or(s[word], Shl32(u[index], 8 * index % 26));
      0 <= v < B && PartlyUnpacked(s[word := v], u, index + 1)
  {
    hide Val, Or, Pow2, Shl32;
    var word, bit := 8 * index / 26, 8 * index % 26;
    LowRoom(s[word], u[index], bit);
    ShlSmall(u[index], bit);
    OrShl(s[word], u[index], bit);
    UnpackValue(s, u, index, u[index] * Pow2(bit));
    NextPosition(index);
    PowTwoZero();
  }

  /** A byte on top of `bit` bits: within the limb, and within the next power of two. */
  lemma RoomFor(a: int, x: int, m: nat, n: nat)
    requires 0 <= a < m && 0 <= x < 256 && n >= 1
    ensures 0 <= x * m && a + x * m < m * 256 <= (m * 256) * n
  {
    ProductBound(x, m, 255, m);
    ProductBound(m * 256, 1, m * 256, n);
  }

  lemma LowRoom(a: int, x: int, bit: nat)
    requires bit <= 18 && 0 <= a < Pow2(bit) && 0 <= x < 256
    ensures 0 <= x * Pow2(bit) && a + x * Pow2(bit) < Pow2(bit + 8) <= B
  {
    Pow2Values();
    Pow2Split(bit, 8);
    Pow2Split(bit + 8, 18 - bit);
    hide Pow2;
    RoomFor(a, x, Pow2(bit), Pow2(18 - bit));
  }

  lemma NextPosition(index: nat)
    requires index < 32 && 8 * index % 26 <= 18
    ensures var word, bit := 8 * index / 26, 8 * index % 26;
      && (bit < 18 ==> 8 * (index + 1) / 26 == word && 8 * (index + 1) % 26 == bit + 8)
      && (bit == 18 ==> word + 1 < 10 && 8 * (index + 1) / 26 == word + 1 && 8 * (index + 1) % 26 == 0)
  {
  }

  lemma PowTwoZero()
    ensures Pow2(0) == 1
  {
  }

  lemma UnpackHigh(s: seq<int>, u: seq<int>, index: nat)
    requires PartlyUnpacked(s, u, index) && index < 32 && Digits(256, u) && 8 * index % 26 > 18
    ensures var word, bit := 8 * index / 26, 8 * index % 26;
      var v := Low26(Or(s[word], Shl32(u[index], bit)));
      && word + 1 < 10
      && var w := Or(s[word + 1], u[index] / Pow2(26 - bit));
      && 0 <= w < B && PartlyUnpacked(s[word := v][word + 1 := w], u, index + 1)
  {
    hide Val, Or, Pow2, Low26;
    var word, bit, x := 8 * index / 26, 8 * index % 26, u[index];
    var y, w := s[word] + x * Pow2(bit), x / Pow2(26 - bit);
    HighPosition(index);
    OrShl(s[word], x, bit);
    OrZero(w);
    UnpackSplit(s[word], x, bit);
    UnpackValue(s, u, index, x * Pow2(bit));
    CarryOver(s, word, y, w);
  }

  /** Where the next byte goes after one that straddles two limbs. */
  lemma HighPosition(index: nat)
    requires index < 32 && 8 * index % 26 > 18
    ensures var word, bit := 8 * index / 26, 8 * index % 26;
      word + 1 < 10 && 8 * (index + 1) / 26 == word + 1 && 8 * (index + 1) % 26 == bit - 18
  {
  }

  lemma CarryOver(s: seq<int>, word: nat, y: int, w: int)
    requires |s| == 10 && word + 1 < 10 && s[word + 1] == 0
    ensures Val(B, s[word := y - B * w][word + 1 := w]) == Val(B, s[word := y])
  {
    hide Val;
    var s1 := s[word := y];
    ValCarry(B, s1, word, w);
    assert s1[word := y - B * w][word + 1 := s1[word + 1] + w] == s[word := y - B * w][word + 1 := w];
  }

  /** A byte that straddles two limbs: its low part fills the limb, the rest moves up. */
  lemma UnpackSplit(a: int, x: int, bit: nat)
    requires 18 < bit < 26 && 0 <= a < Pow2(bit) && 0 <= x < 256
    ensures Low26(a + Shl32(x, bit)) == a + x * Pow2(bit) - B * (x / Pow2(26 - bit))
    ensures 0 <= x / Pow2(26 - bit) < Pow2(bit - 18) <= 256
  {
    hide Low26, Shl32;
    Pow2Values();
    Pow2Split(bit, 26 - bit);
    Pow2Split(26 - bit, bit - 18);
    Pow2Split(bit - 18, 26 - bit);
    var m, n := Pow2(bit), Pow2(26 - bit);
    hide Pow2;
    WrapLow26(a, x, bit);
    StraddleQuotient(a, x, m, n);
    Split26(a + x * m);
    DivBound(x, n, Pow2(bit - 18));
  }

  lemma WrapLow26(a: int, x: int, k: nat)
    ensures Low26(a + Shl32(x, k)) == Low26(a + x * Pow2(k))
  {
    hide Low26, Pow2;
    var y, z := a + Shl32(x, k), a + x * Pow2(k);
    Split26(y);
    Split26(z);
    assert z - y == x * Pow2(k) - ToInt32(x * Pow2(k));
    SameLow26(y, z);
  }

  lemma StraddleQuotient(a: int, x: int, m: int, n: int)
    requires m > 0 && n > 0 && m * n == B && 0 <= a < m
    ensures (a + x * m) / B == x / n
  {
    DivModUnique(a + x * m, m, x, a);
    DivDiv(a + x * m, m, n);
  }

  lemma DivBound(x: int, n: int, k: int)
    requires n > 0 && k > 0 && 0 <= x < n * k
    ensures 0 <= x / n < k <= n * k
  {
    var q := x / n;
    assert n * q <= x;
    assert q >= k ==> n * q >= n * k;
    assert q < 0 ==> n * q <= -n;
    assert n * k >= k;
  }

  ghost predicate Written(before: seq<sbyte>, after: seq<sbyte>, offset: nat, bytes: seq<int>) {
    && |before| == |after| && offset + |bytes| <= |before|
    && (forall k :: 0 <= k < |before| && !(offset <= k < offset + |bytes|) ==> after[k] == before[k])
    && forall k :: 0 <= k < |bytes| ==> (after[offset + k] as int) % 256 == bytes[k]
  }

  /** The byte cut out of one or two limbs is byte `index` of the value. */
  lemma PackedByte(s: seq<int>, index: nat)
    requires Limbs(s) && index < 32
    ensures var word, bit := 8 * index / 26, 8 * index % 26;
      && (bit > 18 ==> word + 1 < 10)
      && EncodeU(Val(B, s))[index] ==
         (if bit <= 18 then s[word] / Pow2(bit)
          else Or(s[word] / Pow2(bit), Shl32(s[word + 1], 26 - bit))) % 256
  {
    hide Val, Pow, Pow2, Or, Shl32;
    var word, bit := 8 * index / 26, 8 * index % 26;
    var rest := Val(B, s[word + 1..]);
    CutLimb(s, word, bit);
    assert 26 * word + bit == 8 * index;
    if bit <= 18 {
      LowPart(s[word] / Pow2(bit), bit, rest);
    } else {
      ValHead(B, s[word + 1..]);
      HighPart(s[word], bit, s[word + 1], Val(B, s[word + 1..][1..]));
    }
  }

  /** Shifting the value down to limb `word` and bit `bit`. */
  lemma CutLimb(s: seq<int>, word: nat, bit: nat)
    requires Limbs(s) && word < 10 && bit <= 26
    ensures Val(B, s) / Pow2(26 * word + bit) == s[word] / Pow2(bit) + Pow2(26 - bit) * Val(B, s[word + 1..])
  {
    hide Val, Pow, Pow2;
    ValDrop(B, s, word);
    ValHead(B, s[word..]);
    assert s[word..][1..] == s[word + 1..];
    Pow2Values();
    PowOfPow2(26, word);
    Pow2Split(26 * word, bit);
    Pow2Split(bit, 26 - bit);
    DivDiv(Val(B, s), Pow(B, word), Pow2(bit));
    ShiftedSum(s[word], Val(B, s[word + 1..]), Pow2(bit), Pow2(26 - bit));
  }

  lemma LowPart(q: int, bit: nat, rest: int)
    requires bit <= 18
    ensures (q + Pow2(26 - bit) * rest) % 256 == q % 256
  {
    Pow2Values();
    Pow2Split(8, 18 - bit);
    MultipleOf256(q, Pow2(18 - bit), rest);
  }

  lemma HighPart(a: int, bit: nat, next: int, rest: int)
    requires 0 <= a < B && 18 < bit < 26
    ensures (a / Pow2(bit) + Pow2(26 - bit) * (next + B * rest)) % 256
            == Or(a / Pow2(bit), Shl32(next, 26 - bit)) % 256
  {
    hide Or, Shl32, Pow2;
    Pow2Values();
    Pow2Split(bit, 26 - bit);
    var q, n := a / Pow2(bit), Pow2(26 - bit);
    DivBound(a, Pow2(bit), n);
    OrShl(q, next, 26 - bit);
    ShlLowByte(next, 26 - bit, q);
    assert n * (next + B * rest) == next * n + (256 * (0x40000 * n)) * rest;
    MultipleOf256(q + next * n, 0x40000 * n, rest);
  }

  lemma ShiftedSum(a: int, rest: int, m: int, n: int)
    requires m > 0 && m * n == B
    ensures (a + B * rest) / m == a / m + n * rest
  {
    var q, r := a / m, a % m;
    assert m * (q + n * rest) == m * q + (m * n) * rest;
    DivModUnique(a + B * rest, m, q + n * rest, r);
  }

  lemma MultipleOf256(q: int, k: int, rest: int)
    ensures (q + (256 * k) * rest) % 256 == q % 256
  {
    assert (256 * k) * rest == 256 * (k * rest);
  }

  lemma ShlLowByte(x: int, k: nat, q: int)
    ensures (q + Shl32(x, k)) % 256 == (q + x * Pow2(k)) % 256
  {
    hide Pow2;
    assert (x * Pow2(k) - Shl32(x, k)) % 0x1_0000_0000 == 0;
  }

  /** Two trial subtractions reduce a value of 256 bits exactly when it is not one of the nineteen largest. */
  lemma UnpackReducedExactly(u: seq<int>)
    requires |u| == 32 && Digits(256, u)
    ensures UnpackedU(u) < P <==> Val(256, u) < 2 * Two255 - 19
    ensures UnpackedU(u) < P ==> UnpackedU(u) == Val(256, u) % P
  {
    hide Val;
    TopByte(u);
    var v := Val(256, u);
    var q := if v < P then 0 else if v < 2 * P then 1 else 2;
    if v < 2 * Two255 - 19 {
      DivModUnique(v, P, q, v - q * P);
    }
  }

  /**
   The nineteen largest keys are not reduced, and neither is one more than such a key, which the
   first step of the ladder squares: the first pass of the reduction then exceeds its ten limbs.
   */
  lemma LargestKeysOverflow(v: int)
    requires 2 * Two255 - 19 <= v < 2 * Two255
    ensures var a := v + 1;
      && TrialSubtracted(v) == v && TrialSubtracted(a) == a
      && (a * a) % Two255 + 19 * ((a * a) / Two255) >= Two260
  {
    var a := v + 1;
    assert 2 * a >= 3 * Two255;
    SquareAbove(a, Two255);
    QuotientAbove(a * a, Two255);
  }

  lemma SquareAbove(a: int, m: int)
    requires m > 0 && 2 * a >= 3 * m
    ensures a * a >= 2 * (m * m)
  {
    ProductBound(3 * m, 3 * m, 2 * a, 2 * a);
    assert (2 * a) * (2 * a) == 4 * (a * a);
    assert (3 * m) * (3 * m) == 9 * (m * m);
  }

  lemma QuotientAbove(x: int, m: int)
    requires m > 0 && x >= 2 * (m * m)
    ensures x / m >= 2 * m
  {
    var q, r := x / m, x % m;
    assert x == m * q + r && r < m;
    assert m * (2 * m - 1) == 2 * (m * m) - m;
    CancelFactor(m, q, 2 * m - 1);
  }

  lemma CancelFactor(m: int, q: int, k: int)
    requires m > 0 && m * q > m * k
    ensures q > k
  {
    assert q <= k ==> m * (k - q) >= 0;
  }

  /** Thirty-two bytes of ones are left as they are: not reduced, and not what the RFC reads. */
  lemma AllOnesNotReduced()
    ensures var u := seq(32, _ => 255); UnpackedU(u) >= P && UnpackedU(u) != DecodeU(u)
  {
    hide Val, UnpackedU, DecodeU;
    var u := seq(32, _ => 255);
    AllOnes(u, 32);
    assert u[..32] == u;
    TopByteWeight();
    PowNext256(31);
    UnpackReducedExactly(u);
    UnpackMatchesDecodeU(u);
  }

  lemma {:induction false} AllOnes(u: seq<int>, n: nat)
    requires n <= |u| && forall i :: 0 <= i < |u| ==> u[i] == 255
    ensures Val(256, u[..n]) == Pow(256, n) - 1
  {
    hide Val, Pow;
    if n == 0 {
      ValEmpty(256);
      PowZero(256);
      assert u[..0] == [];
    } else {
      AllOnes(u, n - 1);
      ValPrefix(256, u, n - 1);
      PowNext256(n - 1);
    }
  }

  lemma PowNext256(n: nat)
    ensures Pow(256, n + 1) == 256 * Pow(256, n)
  {
  }

  lemma UnpackCanonical(a: array<int32>, u: seq<int>)
    requires |u| == 32 && Digits(256, u) && Val(256, u) < 2 * Two255 - 19
    requires Limbs(a[..]) && V(a) == UnpackedU(u)
    ensures Holds(a) && V(a) == Val(256, u) % P
  {
    hide Val, UnpackedU;
    UnpackReducedExactly(u);
  }

  /** So the element that Eval works on is the one of the RFC exactly when bit 255 is clear. */
  lemma InputMatchesDecodeU(u: seq<int>)
    requires |u| == 32 && Digits(256, u) && Val(256, u) < 2 * Two255 - 19
    ensures Val(256, u) % P == DecodeU(u) <==> u[31] < 128
  {
    hide Val, DecodeU, UnpackedU;
    UnpackReducedExactly(u);
    UnpackMatchesDecodeU(u);
  }

  /**
   The RFC masks bit 255 of a u-coordinate; the code does not. The element it reads
   is the one of the RFC exactly when that bit is clear.
   */
  lemma UnpackMatchesDecodeU(u: seq<int>)
    requires |u| == 32 && Digits(256, u)
    ensures UnpackedU(u) == DecodeU(u) <==> u[31] < 128
    ensures u[31] < 128 ==> UnpackedU(u) < P
  {
    hide Val;
    var masked := u[31 := And(u[31], 127)];
    var v, d := Val(256, u), Val(256, masked);
    TopByte(u);
    DivModUnique(d, P, if d < P then 0 else 1, if d < P then d else d - P);
  }

  /** The value with and without bit 255. */
  lemma TopByte(u: seq<int>)
    requires |u| == 32 && Digits(256, u)
    ensures var d := Val(256, u[31 := And(u[31], 127)]);
      0 <= d < Two255 && Val(256, u) == if u[31] < 128 then d else d + Two255
  {
    hide Val, Pow, And;
    var top, p := And(u[31], 127), Pow(256, 31);
    var w := u[31 := top];
    assert top == if u[31] < 128 then u[31] else u[31] - 128 by {
      AndLowMask(u[31], 7);
      assert Pow2(7) == 128;
    }
    assert 128 * p == Two255 by { TopByteWeight(); }
    ValUpdate(256, w, 31, u[31] - top);
    assert u == w[31 := w[31] + (u[31] - top)];
    ValPrefix(256, w, 31);
    assert w[..32] == w;
    ValBound(256, w[..31]);
    TopDigit(128, top, p);
  }

  lemma TopByteWeight()
    ensures 128 * Pow(256, 31) == Two255
  {
    hide Pow;
    Pow2Values();
    PowOfPow2(8, 31);
    PIs();
    Pow2Split(7, 248);
    assert Pow2(7) == 128;
  }

  lemma FPowOneOf(x: array<int32>)
    requires Holds(x)
    ensures FPow(V(x), 1) == V(x)
  {
    ValBound(B, x[..]);
    FPowOne(V(x));
  }

  /** Exponents e * 2^j of a shifted pattern and e * (2^j - 1) of j shifted copies together. */
  function Shifted(e: nat, j: nat): nat { e * Pow2(j) }

  function Filled(e: nat, j: nat): nat { e * (Pow2(j) - 1) }

  lemma ShiftedStart(e: nat)
    ensures Shifted(e, 0) == e
  {
  }

  lemma ShiftedNext(e: nat, j: nat)
    ensures Shifted(e, j) + Shifted(e, j) == Shifted(e, j + 1)
    ensures Filled(e, j) + Shifted(e, j) == Filled(e, j + 1)
  {
    var m := Pow2(j);
    assert e * (2 * m) == e * m + e * m;
    assert e * (2 * m - 1) == e * (2 * m) - e && e * (m - 1) == e * m - e;
  }

  lemma FilledStart(e: nat)
    ensures Shifted(e, 1) == 2 * e && Filled(e, 2) == 3 * e
  {
    assert Pow2(1) == 2 && Pow2(2) == 4;
  }

  lemma FilledEnd()
    ensures Filled(Pattern(25), 10) == Pow2(250) - 1
  {
    hide Pow2, Pattern;
    PatternValue(25);
    Pow2Ten();
  }

  /** The exponent with n ones, ten bits apart. */
  function Pattern(n: nat): nat {
    if n == 0 then 0 else Pattern(n - 1) + Pow2(10 * (n - 1))
  }

  lemma Pow2Ten()
    ensures Pow2(10) == 1024 && Pow2(9) == 512 && Pow2(1) == 2 && Pow2(2) == 4 && Pow2(0) == 1
  {
    Pow2Values();
    Pow2Split(8, 2);
    Pow2Split(8, 1);
  }

  lemma PatternStart()
    ensures Shifted(2, 9) == Pow2(10) && Pattern(2) == Shifted(2, 9) + 1
  {
    Pow2Ten();
  }

  lemma PatternNext(n: nat)
    requires n > 0
    ensures Shifted(Pow2(10 * (n - 1)), 10) == Pow2(10 * n)
    ensures Pattern(n + 1) == Pattern(n) + Pow2(10 * n)
  {
    Pow2Split(10 * (n - 1), 10);
  }

  lemma {:induction false} PatternValue(n: nat)
    ensures 1023 * Pattern(n) == Pow2(10 * n) - 1
  {
    if n > 0 {
      PatternValue(n - 1);
      Pow2Ten();
      Pow2Split(10 * (n - 1), 10);
    }
  }

  lemma RecipExponent()
    ensures 32 * (Pow2(250) - 1) + 11 == P - 2
  {
    PIs();
    Pow2Values();
    Pow2Split(250, 5);
  }

  lemma AddSum(xs: seq<int>, ys: seq<int>, sum: seq<int>, carry: int)
    requires Canonical(xs) && Canonical(ys) && Limbs(sum)
    requires Carried(B, sum, carry) == Val(B, xs) + Val(B, ys)
    ensures Val(B, sum) < 2 * Two255
    ensures TrialSubtracted(Val(B, sum)) == FAdd(Val(B, xs), Val(B, ys)) < P
  {
    hide Val, Carried, FAdd;
    ValBound(B, xs);
    ValBound(B, ys);
    FAddCases(Val(B, xs), Val(B, ys));
    TopLimb(sum, carry, Val(B, xs) + Val(B, ys));
  }

  /** The sum with 19 decides the trial subtraction of p: bit 255 is set when it succeeds. */
  lemma ReduceQuickSum(was: seq<int>, sum: seq<int>, carry: int)
    requires Limbs(was) && Limbs(sum) && Val(B, was) < 2 * Two255
    requires Carried(B, sum, carry) == Val(B, was) + 19
    ensures var trial := sum[9 := sum[9] % 0x200000];
      && Limbs(trial)
      && TrialSubtracted(Val(B, was)) == Val(B, if (sum[9] / 0x200000) % 2 == 1 then trial else was)
  {
    hide Val, Carried, TrialSubtracted;
    ValBound(B, was);
    TopLimb(sum, carry, Val(B, was) + 19);
    TrialCases(Val(B, was), Val(B, sum[9 := sum[9] % 0x200000]), sum[9] / 0x200000);
  }

  /** The top bit of v + 19 tells whether the modulus can be taken away. */
  lemma TrialCases(v: int, low: int, q: int)
    requires 0 <= v < 2 * Two255 && 0 <= low < Two255 && v + 19 == low + Two255 * q
    ensures TrialSubtracted(v) == if q % 2 == 1 then low else v
  {
    assert 0 <= q <= 2;
  }

  /** After the borrow loop: the difference itself, or the difference plus 2^260. */
  lemma SubFirstPass(xs: seq<int>, ys: seq<int>, first: seq<int>, borrow: int)
    requires Canonical(xs) && Canonical(ys) && Limbs(first)
    requires Carried(B, first, borrow) == Val(B, xs) - Val(B, ys)
    ensures var total := Val(B, xs) - Val(B, ys);
      && -P < total < P
      && borrow == (if total < 0 then -1 else 0)
      && Val(B, first) == if total < 0 then total + Two260 else total
  {
    hide Val, Carried, Pow;
    var total := Val(B, xs) - Val(B, ys);
    PowB();
    ValBound(B, xs);
    ValBound(B, ys);
    CarryDone(B, first, borrow, total);
    SignSplit(total, Val(B, first));
  }

  lemma SignSplit(total: int, v: int)
    requires -P < total < P && v == total % Two260
    ensures total / Two260 == (if total < 0 then -1 else 0) && v == if total < 0 then total + Two260 else total
  {
    DivModUnique(total, Two260, if total < 0 then -1 else 0, if total < 0 then total + Two260 else total);
  }

  /** Taking 19 off and dropping the bits from 255 up adds p to a negative difference. */
  lemma SubSecondPass(xs: seq<int>, ys: seq<int>, first: seq<int>, second: seq<int>, borrow: int)
    requires Canonical(xs) && Canonical(ys) && Limbs(second)
    requires var total := Val(B, xs) - Val(B, ys);
      && Val(B, first) == (if total < 0 then total + Two260 else total)
      && Carried(B, second, borrow) == Val(B, first) - if total < 0 then 19 else 0
    ensures var result := second[9 := second[9] % 0x200000];
      Canonical(result) && Val(B, result) == FSub(Val(B, xs), Val(B, ys))
  {
    hide Val, Carried, FSub;
    var total := Val(B, xs) - Val(B, ys);
    ValBound(B, xs);
    ValBound(B, ys);
    FSubCases(Val(B, xs), Val(B, ys));
    var low := second[9 := second[9] % 0x200000];
    if total < 0 {
      TopLimb(second, borrow, total + Two260 - 19);
      SameSplit(Two255, second[9] / 0x200000, Val(B, low), 31, total + P);
    } else {
      TopLimb(second, borrow, total);
      SameSplit(Two255, second[9] / 0x200000, Val(B, low), 0, total);
    }
  }

  /** The top limb of ten, with no carry above it, splits the value at bit 255. */
  /** Taking the top limb below bit 255 leaves digits. */
  lemma LowLimbs(s: seq<int>)
    requires Limbs(s)
    ensures var low := s[9 := s[9] % 0x200000]; |low| == 10 && Digits(B, low[0..10]) && Digits(B, low[..0])
  {
  }

  lemma SecondFold(v: int, low: int, q: int)
    requires v == low + Two255 * q
    ensures v == q * P + (low + 19 * q)
  {
  }

  lemma TopLimb(s: seq<int>, carry: int, total: int)
    requires Limbs(s) && Carried(B, s, carry) == total
    requires 0 <= total < Two260
    ensures carry == 0 && total == Val(B, s)
    ensures var low := s[9 := s[9] % 0x200000];
      Limbs(low) && 0 <= Val(B, low) < Two255 && total == Val(B, low) + Two255 * (s[9] / 0x200000)
  {
    PowB();
    CarryDone(B, s, carry, total);
    var low := s[9 := s[9] % 0x200000];
    assert low[..9] == s[..9];
    ValBound(B, s[..9]);
  }
}
