/**
 Two's-complement bit operations on unbounded integers, and the machine integer
 ranges of the C and Java sources.

 `And`, `Or` and `Xor` are defined bit by bit: an integer is the infinite
 sequence of its floor-halved parities, ending in all zeros or all ones. A right
 shift by k is the Euclidean division by 2^k. The lemmas turn the mask idioms of
 the sources (low masks, all-ones selection masks, sign masks, xor swaps) into
 arithmetic.
 */
module Bits {
  type int32 = x: int | -0x8000_0000 <= x < 0x8000_0000
  type int64 = x: int | -0x8000_0000_0000_0000 <= x < 0x8000_0000_0000_0000
  type byte = x: int | 0 <= x < 256
  type sbyte = x: int | -128 <= x < 128

  /** Narrowing conversion to a signed 32-bit integer. */
  function ToInt32(x: int): (r: int32)
    ensures (x - r) % 0x1_0000_0000 == 0
  {
    (x + 0x8000_0000) % 0x1_0000_0000 - 0x8000_0000
  }

  function Pow2(k: nat): (r: nat)
    ensures r >= 1
  {
    if k == 0 then 1 else 2 * Pow2(k - 1)
  }

  /** Distance of x from the fixed points 0 and -1 of halving. */
  function Magnitude(x: int): nat {
    if x < 0 then -x - 1 else x
  }

  predicate IsBitConstant(x: int) {
    x == 0 || x == -1
  }

  function And(x: int, y: int): int
    decreases Magnitude(x) + Magnitude(y)
  {
    if IsBitConstant(x) && IsBitConstant(y) then
      if x == -1 && y == -1 then -1 else 0
    else
      2 * And(x / 2, y / 2) + if x % 2 == 1 && y % 2 == 1 then 1 else 0
  }

  function Or(x: int, y: int): int
    decreases Magnitude(x) + Magnitude(y)
  {
    if IsBitConstant(x) && IsBitConstant(y) then
      if x == -1 || y == -1 then -1 else 0
    else
      2 * Or(x / 2, y / 2) + if x % 2 == 1 || y % 2 == 1 then 1 else 0
  }

  function Xor(x: int, y: int): int
    decreases Magnitude(x) + Magnitude(y)
  {
    if IsBitConstant(x) && IsBitConstant(y) then
      if x == y then 0 else -1
    else
      2 * Xor(x / 2, y / 2) + (x + y) % 2
  }

  /** A low mask keeps the remainder. */
  lemma {:induction false} AndLowMask(x: int, k: nat)
    ensures And(x, Pow2(k) - 1) == x % Pow2(k)
    decreases k, Magnitude(x)
  {
    hide And;
    if k == 0 {
      AndZero(x);
    } else {
      AndLowMask(x / 2, k - 1);
      assert (Pow2(k) - 1) / 2 == Pow2(k - 1) - 1;
      ModDouble(x, Pow2(k - 1));
      AndHalves(x, Pow2(k) - 1);
    }
  }

  /** The complement of a low mask drops the remainder. */
  lemma {:induction false} AndHighMask(x: int, k: nat)
    ensures And(x, 0 - Pow2(k)) == x - x % Pow2(k)
    decreases k
  {
    hide And;
    if k == 0 {
      AndOnes(x);
    } else {
      AndHighMask(x / 2, k - 1);
      ModDouble(x, Pow2(k - 1));
      AndHalves(x, 0 - Pow2(k));
    }
  }

  lemma AndHalves(x: int, y: int)
    ensures And(x, y) == 2 * And(x / 2, y / 2) + if x % 2 == 1 && y % 2 == 1 then 1 else 0
  {
  }

  lemma OrHalves(x: int, y: int)
    ensures Or(x, y) == 2 * Or(x / 2, y / 2) + if x % 2 == 1 || y % 2 == 1 then 1 else 0
  {
  }

  lemma ModDouble(x: int, m: nat)
    requires m > 0
    ensures x % (2 * m) == 2 * ((x / 2) % m) + x % 2
  {
    var q, r := (x / 2) / m, (x / 2) % m;
    assert x == (2 * m) * q + (2 * r + x % 2) by {
      assert x / 2 == m * q + r;
      assert (2 * m) * q == 2 * (m * q);
    }
    DivModUnique(x, 2 * m, q, 2 * r + x % 2);
  }

  /** Quotient and remainder are the only pair of that shape. */
  lemma DivModUnique(x: int, d: int, q: int, r: int)
    requires d > 0 && x == d * q + r && 0 <= r < d
    ensures x / d == q && x % d == r
  {
    var k := q - x / d;
    assert d * k == x % d - r;
    assert k >= 1 ==> d * k >= d;
    assert k <= -1 ==> d * k <= -d;
  }

  lemma SameSplit(d: int, q: int, r: int, q': int, r': int)
    requires d > 0 && d * q + r == d * q' + r' && 0 <= r < d && 0 <= r' < d
    ensures q == q' && r == r'
  {
    DivModUnique(d * q + r, d, q, r);
    DivModUnique(d * q + r, d, q', r');
  }

  lemma {:induction false} AndZero(x: int)
    ensures And(x, 0) == 0 && And(0, x) == 0
    decreases Magnitude(x)
  {
    if !IsBitConstant(x) {
      AndZero(x / 2);
    }
  }

  lemma {:induction false} AndOnes(x: int)
    ensures And(x, -1) == x && And(-1, x) == x
    decreases Magnitude(x)
  {
    if !IsBitConstant(x) {
      AndOnes(x / 2);
    }
  }

  lemma {:induction false} OrZero(x: int)
    ensures Or(x, 0) == x && Or(0, x) == x
    decreases Magnitude(x)
  {
    if !IsBitConstant(x) {
      OrZero(x / 2);
    }
  }

  lemma {:induction false} XorZero(x: int)
    ensures Xor(x, 0) == x && Xor(0, x) == x
    decreases Magnitude(x)
  {
    if !IsBitConstant(x) {
      XorZero(x / 2);
    }
  }

  lemma XorHalves(x: int, y: int)
    ensures Xor(x, y) / 2 == Xor(x / 2, y / 2) && Xor(x, y) % 2 == (x + y) % 2
  {
  }

  lemma {:induction false} XorSymmetric(x: int, y: int)
    ensures Xor(x, y) == Xor(y, x)
    decreases Magnitude(x) + Magnitude(y)
  {
    if !(IsBitConstant(x) && IsBitConstant(y)) {
      XorSymmetric(x / 2, y / 2);
    }
  }

  lemma SameHalves(x: int, y: int)
    requires x / 2 == y / 2 && x % 2 == y % 2
    ensures x == y
  {
  }

  lemma ParityBack(x: int, y: int, z: int)
    requires z % 2 == (x + y) % 2
    ensures (x + z) % 2 == y % 2
  {
  }

  /** Xor-ing twice with the same value gives the other operand back. */
  lemma {:induction false} XorCancel(x: int, y: int)
    ensures Xor(x, Xor(x, y)) == y
    decreases Magnitude(x) + Magnitude(y)
  {
    if !(IsBitConstant(x) && IsBitConstant(y)) {
      hide Xor;
      var z := Xor(x, y);
      XorCancel(x / 2, y / 2);
      XorHalves(x, y);
      XorHalves(x, z);
      ParityBack(x, y, z);
      SameHalves(Xor(x, z), y);
    }
  }

  /** The two assignments of an xor swap, under an all-ones and under an all-zeros mask. */
  lemma XorSwap(x: int, y: int)
    ensures Xor(x, Xor(x, y)) == y && Xor(y, Xor(x, y)) == x
    ensures Xor(x, 0) == x && Xor(y, 0) == y
  {
    hide Xor;
    XorCancel(x, y);
    XorCancel(y, x);
    XorSymmetric(x, y);
    XorZero(x);
    XorZero(y);
  }

  /** Values with no common bit: the low k bits of `a` and the rest of `c`. */
  lemma {:induction false} OrDisjoint(a: nat, c: int, k: nat)
    requires a < Pow2(k)
    ensures Or(a, c * Pow2(k)) == a + c * Pow2(k)
    ensures Or(c * Pow2(k), a) == a + c * Pow2(k)
    decreases k
  {
    hide Or;
    if k == 0 {
      OrZero(c);
    } else {
      OrDisjoint(a / 2, c, k - 1);
      var y := c * Pow2(k);
      assert y == 2 * (c * Pow2(k - 1));
      hide Pow2;
      assert y / 2 == c * Pow2(k - 1) && y % 2 == 0;
      OrHalves(a, y);
      OrHalves(y, a);
    }
  }

  /** Selection by a mask of all zeros or all ones. */
  lemma AndSelect(x: int, mask: int)
    requires IsBitConstant(mask)
    ensures And(x, mask) == And(mask, x) == if mask == -1 then x else 0
  {
    AndZero(x);
    AndOnes(x);
  }

  /** Bit t of the two's-complement representation. */
  function Bit(x: int, t: nat): (b: int)
    ensures 0 <= b <= 1
  {
    (x / Pow2(t)) % 2
  }

  lemma BitHalf(x: int, t: nat)
    ensures Bit(x, t + 1) == Bit(x / 2, t) && Bit(x, 0) == x % 2
  {
    var m := Pow2(t);
    var q, r := (x / 2) / m, (x / 2) % m;
    assert m * q + r == x / 2;
    assert (2 * m) * q == 2 * (m * q);
    DivModUnique(x, 2 * m, q, 2 * r + x % 2);
  }

  lemma {:induction false} BitAnd(x: int, y: int, t: nat)
    ensures Bit(And(x, y), t) == if Bit(x, t) == 1 && Bit(y, t) == 1 then 1 else 0
    decreases t
  {
    var z := And(x, y);
    assert z / 2 == And(x / 2, y / 2) && z % 2 == if x % 2 == 1 && y % 2 == 1 then 1 else 0;
    if t == 0 {
      BitHalf(x, 0);
      BitHalf(y, 0);
      BitHalf(z, 0);
    } else {
      BitHalf(x, t - 1);
      BitHalf(y, t - 1);
      BitHalf(z, t - 1);
      BitAnd(x / 2, y / 2, t - 1);
    }
  }

  lemma {:induction false} BitOr(x: int, y: int, t: nat)
    ensures Bit(Or(x, y), t) == if Bit(x, t) == 1 || Bit(y, t) == 1 then 1 else 0
    decreases t
  {
    var z := Or(x, y);
    assert z / 2 == Or(x / 2, y / 2) && z % 2 == if x % 2 == 1 || y % 2 == 1 then 1 else 0;
    if t == 0 {
      BitHalf(x, 0);
      BitHalf(y, 0);
      BitHalf(z, 0);
    } else {
      BitHalf(x, t - 1);
      BitHalf(y, t - 1);
      BitHalf(z, t - 1);
      BitOr(x / 2, y / 2, t - 1);
    }
  }

  lemma {:induction false} AndBound(x: int, y: nat)
    ensures 0 <= And(x, y) <= y
    decreases Magnitude(x) + Magnitude(y)
  {
    if !(IsBitConstant(x) && IsBitConstant(y)) {
      AndBound(x / 2, y / 2);
    }
  }

  lemma {:induction false} OrBound(x: nat, y: nat, k: nat)
    requires x < Pow2(k) && y < Pow2(k)
    ensures 0 <= Or(x, y) < Pow2(k)
    decreases k
  {
    if !(IsBitConstant(x) && IsBitConstant(y)) {
      OrBound(x / 2, y / 2, k - 1);
    }
  }

  /** A left shift in 32-bit arithmetic. */
  function Shl32(x: int, k: nat): int32 {
    ToInt32(x * Pow2(k))
  }

  lemma ShlSmall(x: int, k: nat)
    requires -0x8000_0000 <= x * Pow2(k) < 0x8000_0000
    ensures Shl32(x, k) == x * Pow2(k)
  {
    hide Pow2;
    ToInt32Small(x * Pow2(k));
  }

  lemma ToInt32Small(v: int)
    requires -0x8000_0000 <= v < 0x8000_0000
    ensures ToInt32(v) == v
  {
  }

  /** Or-ing a shifted value into the free low bits is an addition, even when the shift wraps. */
  lemma OrShl(a: nat, x: int, k: nat)
    requires k <= 32 && a < Pow2(k)
    ensures Or(a, Shl32(x, k)) == a + Shl32(x, k)
    ensures Or(Shl32(x, k), a) == a + Shl32(x, k)
  {
    hide Or;
    var m, n := Pow2(k), Pow2(32 - k);
    Pow2Split(k, 32 - k);
    Pow2Thirty2();
    var q := (x * m - Shl32(x, k)) / 0x1_0000_0000;
    var c := x - n * q;
    assert x * m - Shl32(x, k) == 0x1_0000_0000 * q;
    FactorOut(x, m, n, q);
    OrDisjoint(a, c, k);
  }

  lemma FactorOut(x: int, m: int, n: int, q: int)
    ensures (x - n * q) * m == x * m - (m * n) * q
  {
    assert (n * q) * m == (m * n) * q;
  }

  lemma {:induction false} Pow2Split(e: nat, f: nat)
    ensures Pow2(e + f) == Pow2(e) * Pow2(f)
    decreases f
  {
    if f > 0 {
      Pow2Split(e, f - 1);
      Pow2Step(e + f);
      Pow2Step(f);
      hide Pow2;
      Exchange(2, Pow2(e), Pow2(f - 1));
    } else {
      assert Pow2(0) == 1;
    }
  }

  lemma Pow2Step(k: nat)
    requires k > 0
    ensures Pow2(k) == 2 * Pow2(k - 1)
  {
  }

  lemma Exchange(b: int, x: int, y: int)
    ensures b * (x * y) == x * (b * y)
  {
  }

  lemma Pow2Thirty2()
    ensures Pow2(32) == 0x1_0000_0000
  {
    assert Pow2(4) == 16;
    Pow2Split(4, 4);
    Pow2Split(8, 8);
    Pow2Split(16, 16);
  }

  /** Narrowing conversion to a signed byte. */
  function ToSByte(x: int): (r: sbyte)
    ensures (r as int) % 256 == x % 256
  {
    (x + 128) % 256 - 128
  }

  /** The signs of two small numbers meet in their conjunction. */
  lemma {:induction false} AndSigns(a: int, b: int, k: nat)
    requires 0 - Pow2(k) <= a < Pow2(k) && 0 - Pow2(k) <= b < Pow2(k)
    ensures 0 - Pow2(k) <= And(a, b) < Pow2(k) && (And(a, b) < 0 <==> a < 0 && b < 0)
    decreases k
  {
    if !(IsBitConstant(a) && IsBitConstant(b)) {
      AndSigns(a / 2, b / 2, k - 1);
    }
  }

  lemma {:induction false} OrSigns(a: int, b: int, k: nat)
    requires 0 - Pow2(k) <= a < Pow2(k) && 0 - Pow2(k) <= b < Pow2(k)
    ensures 0 - Pow2(k) <= Or(a, b) < Pow2(k) && (Or(a, b) < 0 <==> a < 0 || b < 0)
    ensures Or(a, b) == 0 <==> a == 0 && b == 0
    decreases k
  {
    if !(IsBitConstant(a) && IsBitConstant(b)) {
      OrSigns(a / 2, b / 2, k - 1);
    }
  }

  lemma {:induction false} AndCommutes(x: int, y: int)
    ensures And(x, y) == And(y, x)
    decreases Magnitude(x) + Magnitude(y)
  {
    if !(IsBitConstant(x) && IsBitConstant(y)) {
      AndCommutes(x / 2, y / 2);
    }
  }

  lemma Pow2Of24()
    ensures Pow2(8) == 256 && Pow2(24) == 0x100_0000
  {
    assert Pow2(8) == 256;
    Pow2Split(8, 8);
    Pow2Split(16, 8);
  }

  lemma HalfThenRest(x: int, m: int)
    requires m > 0
    ensures x / 2 / m == x / (2 * m)
  {
    var q, r := x / 2 / m, x / 2 % m;
    assert (2 * m) * q == 2 * (m * q);
    DivModUnique(x, 2 * m, q, 2 * r + x % 2);
  }

  lemma HalfOfSplit(h: int, l: nat, m: int)
    requires m > 0
    ensures (h * (2 * m) + l) / 2 == h * m + l / 2 && (h * (2 * m) + l) % 2 == l % 2
  {
    assert h * (2 * m) == 2 * (h * m);
  }

  /** Numbers that share all bits above the lowest k: their xor has none there. */
  lemma {:induction false} XorHigh(x: int, y: int, k: nat)
    ensures Xor(x, y) / Pow2(k) == Xor(x / Pow2(k), y / Pow2(k))
    decreases k
  {
    hide Xor;
    if k > 0 {
      var m := Pow2(k - 1);
      assert Pow2(k) == 2 * m;
      hide Pow2;
      XorHigh(x / 2, y / 2, k - 1);
      XorHalves(x, y);
      HalfThenRest(Xor(x, y), m);
      HalfThenRest(x, m);
      HalfThenRest(y, m);
    }
  }

  lemma XorEven(x: int, y: int)
    requires y % 2 == 0
    ensures Xor(x, y) == 2 * Xor(x / 2, y / 2) + x % 2
  {
    hide Xor;
    XorHalves(x, y);
    assert (x + y) % 2 == x % 2;
  }

  /** Xor with a multiple of a power of two leaves the bits below it. */
  lemma {:induction false} XorAbove(h: int, l: nat, m: int, k: nat)
    requires l < Pow2(k)
    ensures Xor(h * Pow2(k) + l, m * Pow2(k)) == Xor(h, m) * Pow2(k) + l
    decreases k
  {
    hide Xor;
    if k > 0 {
      var p := Pow2(k - 1);
      assert Pow2(k) == 2 * p;
      hide Pow2;
      XorAbove(h, l / 2, m, k - 1);
      HalfOfSplit(h, l, p);
      HalfOfSplit(m, 0, p);
      XorEven(h * (2 * p) + l, m * (2 * p));
      assert Xor(h, m) * (2 * p) == 2 * (Xor(h, m) * p);
    }
  }

  lemma {:induction false} AndApart(h: int, l: nat, m: int, n: nat, k: nat)
    requires l < Pow2(k) && n < Pow2(k)
    ensures And(h * Pow2(k) + l, m * Pow2(k) + n) == And(h, m) * Pow2(k) + And(l, n)
    decreases k
  {
    hide And;
    if k == 0 {
      AndZero(0);
    } else {
      var p := Pow2(k - 1);
      assert Pow2(k) == 2 * p;
      hide Pow2;
      AndApart(h, l / 2, m, n / 2, k - 1);
      HalfOfSplit(h, l, p);
      HalfOfSplit(m, n, p);
      AndHalves(h * (2 * p) + l, m * (2 * p) + n);
      AndHalves(l, n);
      assert And(h, m) * (2 * p) == 2 * (And(h, m) * p);
    }
  }

  lemma {:induction false} OrOnes(x: int)
    ensures Or(x, -1) == -1
    decreases Magnitude(x)
  {
    if !IsBitConstant(x) {
      OrOnes(x / 2);
    }
  }

  /** Or with a multiple of a power of two leaves the bits below it. */
  lemma {:induction false} OrAbove(h: int, l: nat, m: int, k: nat)
    requires l < Pow2(k)
    ensures Or(h * Pow2(k) + l, m * Pow2(k)) == Or(h, m) * Pow2(k) + l
    decreases k
  {
    hide Or;
    if k > 0 {
      var p := Pow2(k - 1);
      assert Pow2(k) == 2 * p;
      hide Pow2;
      OrAbove(h, l / 2, m, k - 1);
      assert h * (2 * p) == 2 * (h * p) && m * (2 * p) == 2 * (m * p) && Or(h, m) * (2 * p) == 2 * (Or(h, m) * p);
      OrHalves(h * (2 * p) + l, m * (2 * p));
    }
  }

  lemma {:induction false} AndComplement(m: int)
    ensures And(-m - 1, m) == 0
    decreases Magnitude(m)
  {
    if !IsBitConstant(m) {
      AndComplement(m / 2);
      AndHalves(-m - 1, m);
    }
  }

  lemma AndHalf(x: int, y: int)
    ensures And(x, y) / 2 == And(x / 2, y / 2)
  {
  }

  lemma {:induction false} AndHigh(x: int, y: int, k: nat)
    ensures And(x, y) / Pow2(k) == And(x / Pow2(k), y / Pow2(k))
    decreases k
  {
    hide And;
    if k > 0 {
      var m := Pow2(k - 1);
      assert Pow2(k) == 2 * m;
      hide Pow2;
      AndHigh(x / 2, y / 2, k - 1);
      AndHalf(x, y);
      HalfThenRest(And(x, y), m);
      HalfThenRest(x, m);
      HalfThenRest(y, m);
    }
  }
}
