/**
 The integer specification of X25519: arithmetic modulo p = 2^255 - 19 and the
 decoding, Montgomery ladder and encoding of section 5 of RFC 7748.
 */
module Field25519 {
  import opened Bits
  import opened Positional

  /** 2^255 - 19 */
  const P: int := 0x7fffffff_ffffffff_ffffffff_ffffffff_ffffffff_ffffffff_ffffffff_ffffffed

  /** (486662 - 2) / 4 */
  const A24: int := 121665

  predicate InField(x: int) { 0 <= x < P }

  function FAdd(x: int, y: int): int { (x + y) % P }
  function FSub(x: int, y: int): int { (x - y) % P }
  function FMul(x: int, y: int): int { (x * y) % P }

  function FPow(x: int, e: nat): int {
    if e == 0 then 1 else FMul(x, FPow(x, e - 1))
  }

  /** The projective coordinates that one ladder step works on. */
  datatype Ladder = Ladder(x2: int, z2: int, x3: int, z3: int)

  function CSwap(swap: int, s: Ladder): Ladder {
    if swap == 1 then Ladder(s.x3, s.z3, s.x2, s.z2) else s
  }

  function Step(x1: int, s: Ladder): Ladder {
    var a := FAdd(s.x2, s.z2);
    var aa := FMul(a, a);
    var b := FSub(s.x2, s.z2);
    var bb := FMul(b, b);
    var e := FSub(aa, bb);
    var c := FAdd(s.x3, s.z3);
    var d := FSub(s.x3, s.z3);
    var da := FMul(d, a);
    var cb := FMul(c, b);
    Ladder(FMul(aa, bb),
           FMul(e, FAdd(aa, FMul(A24, e))),
           FMul(FAdd(da, cb), FAdd(da, cb)),
           FMul(x1, FMul(FSub(da, cb), FSub(da, cb))))
  }

  /** The loop of RFC 7748 for bits t-1 down to 0, with its deferred swaps and final swap. */
  function LadderFrom(k: int, x1: int, t: nat, s: Ladder, swap: int): Ladder
    decreases t
  {
    if t == 0 then CSwap(swap, s)
    else
      var kt := Bit(k, t - 1);
      LadderFrom(k, x1, t - 1, Step(x1, CSwap(Xor(swap, kt), s)), kt)
  }

  function X25519(k: int, u: int): int {
    var s := LadderFrom(k, u, 255, Ladder(1, 0, u, 1), 0);
    FMul(s.x2, FPow(s.z2, P - 2))
  }

  function Clamp(k: seq<int>): seq<int>
    requires |k| == 32
  {
    k[0 := And(k[0], 248)][31 := Or(And(k[31], 127), 64)]
  }

  function DecodeScalar(k: seq<int>): int
    requires |k| == 32
  {
    Val(256, Clamp(k))
  }

  function DecodeU(u: seq<int>): int
    requires |u| == 32
  {
    Val(256, u[31 := And(u[31], 127)]) % P
  }

  function EncodeU(u: int): (r: seq<int>)
    ensures |r| == 32
  {
    seq(32, i requires 0 <= i < 32 => (u / Pow2(8 * i)) % 256)
  }

  const BasePoint: int := 9

  /** The public key of a 32-byte private key. */
  function PublicKey(k: seq<int>): seq<int>
    requires |k| == 32
  {
    EncodeU(X25519(DecodeScalar(k), BasePoint))
  }

  // ---------------------------------------------------------------- arithmetic

  lemma PIs()
    ensures P == Pow2(255) - 19
  {
    Pow2Values();
    assert Pow2(51) == 0x8000000000000 by { Pow2Split(26, 25); }
    assert Pow2(102) == 0x8000000000000 * 0x8000000000000 by { Pow2Split(51, 51); }
    assert Pow2(204) == Pow2(102) * Pow2(102) by { Pow2Split(102, 102); }
    assert Pow2(255) == Pow2(204) * Pow2(51) by { Pow2Split(204, 51); }
  }

  /** Values that differ by a multiple of p have one remainder. */
  lemma ModShift(x: int, q: int)
    ensures (x + q * P) % P == x % P
  {
    var r, k := x % P, x / P;
    assert x + q * P == P * (k + q) + r by {
      assert x == P * k + r;
      assert P * (k + q) == P * k + P * q;
    }
    DivModUnique(x + q * P, P, k + q, r);
  }

  lemma ModOf(x: int, q: int, r: int)
    requires x == q * P + r
    ensures x % P == r % P
  {
    ModShift(r, q);
  }

  lemma FSubCases(x: int, y: int)
    requires InField(x) && InField(y)
    ensures FSub(x, y) == if x < y then x - y + P else x - y
  {
    DivModUnique(x - y, P, if x < y then -1 else 0, if x < y then x - y + P else x - y);
  }

  lemma FAddCases(x: int, y: int)
    requires InField(x) && InField(y)
    ensures FAdd(x, y) == if x + y < P then x + y else x + y - P
  {
    DivModUnique(x + y, P, if x + y < P then 0 else 1, if x + y < P then x + y else x + y - P);
  }

  lemma FMulSymmetric(x: int, y: int)
    ensures FMul(x, y) == FMul(y, x)
  {
    assert x * y == y * x;
  }

  lemma FAddSymmetric(x: int, y: int)
    ensures FAdd(x, y) == FAdd(y, x)
  {
  }

  lemma SquareOfDifference(x: int, y: int)
    ensures FMul(FSub(x, y), FSub(x, y)) == FMul(FSub(y, x), FSub(y, x))
  {
    var d := x - y;
    FMulMod(d, d);
    FMulMod(-d, -d);
    assert d * d == (-d) * (-d);
  }

  lemma FMulMod(x: int, y: int)
    ensures FMul(x % P, y % P) == FMul(x, y)
  {
    var a, b, k, l := x % P, y % P, x / P, y / P;
    assert x * y == (k * b + l * a + k * l * P) * P + a * b by {
      assert x == k * P + a && y == l * P + b;
      MulExpand(k, l, a, b, P);
    }
    ModOf(x * y, k * b + l * a + k * l * P, a * b);
  }

  lemma MulExpand(k: int, l: int, a: int, b: int, p: int)
    ensures (k * p + a) * (l * p + b) == (k * b + l * a + k * l * p) * p + a * b
  {
    assert (k * p + a) * (l * p + b) == (k * p) * (l * p) + (k * p) * b + a * (l * p) + a * b;
    assert (k * p) * (l * p) == k * l * p * p;
    assert (k * b + l * a + k * l * p) * p == k * b * p + l * a * p + k * l * p * p;
  }

  lemma FAddMod(x: int, y: int)
    ensures FAdd(x % P, y % P) == FAdd(x, y)
    ensures FSub(x % P, y % P) == FSub(x, y)
  {
    var a, b, k, l := x % P, y % P, x / P, y / P;
    ModOf(x + y, k + l, a + b);
    ModOf(x - y, k - l, a - b);
  }

  lemma FMulAssoc(x: int, y: int, z: int)
    ensures FMul(FMul(x, y), z) == FMul(x, FMul(y, z))
  {
    hide FMul;
    FMulIs(x, y);
    FMulIs(y, z);
    FMulIs(x * y, z);
    FMulIs(x, y * z);
    FMulReduced(x * y, z);
    FMulReduced(x, y * z);
    TripleProduct(x, y, z);
  }

  lemma FMulIs(x: int, y: int)
    ensures FMul(x, y) == (x * y) % P
  {
  }

  /** Reducing one factor first changes nothing. */
  lemma FMulReduced(x: int, y: int)
    ensures FMul(x % P, y) == FMul(x, y) == FMul(x, y % P)
  {
    hide FMul;
    FMulMod(x, y);
    FMulMod(x % P, y);
    FMulMod(x, y % P);
    ModTwice(x);
    ModTwice(y);
  }

  lemma ModTwice(x: int)
    ensures (x % P) % P == x % P
  {
  }

  lemma TripleProduct(x: int, y: int, z: int)
    ensures (x * y) * z == x * (y * z)
  {
  }

  lemma {:induction false} FPowRange(x: int, e: nat)
    ensures 0 <= FPow(x, e) < P
  {
  }

  /** Exponents add when powers are multiplied. */
  lemma {:induction false} FPowAdd(x: int, e: nat, f: nat)
    ensures FMul(FPow(x, e), FPow(x, f)) == FPow(x, e + f)
    decreases e
  {
    if e == 0 {
      FPowRange(x, f);
    } else {
      FPowAdd(x, e - 1, f);
      FMulAssoc(x, FPow(x, e - 1), FPow(x, f));
    }
  }

  lemma FPowOne(x: int)
    requires 0 <= x < P
    ensures FPow(x, 1) == x
  {
    assert FPow(x, 1) == FMul(x, FPow(x, 0));
  }

  // ---------------------------------------------------------------- ladder


  /**
   Swapping back after every step, and swapping again before the next, is the
   deferred swap of the RFC: the eager loop reaches the same point.
   */
  function EagerFrom(k: int, x1: int, t: nat, s: Ladder): Ladder
    decreases t
  {
    if t == 0 then s
    else
      var kt := Bit(k, t - 1);
      EagerFrom(k, x1, t - 1, CSwap(kt, Step(x1, CSwap(kt, s))))
  }

  lemma {:induction false} EagerIsDeferred(k: int, x1: int, t: nat, s: Ladder, swap: int)
    requires 0 <= swap <= 1
    ensures LadderFrom(k, x1, t, s, swap) == EagerFrom(k, x1, t, CSwap(swap, s))
    decreases t
  {
    if t > 0 {
      var kt := Bit(k, t - 1);
      assert CSwap(Xor(swap, kt), s) == CSwap(kt, CSwap(swap, s)) by {
        XorBits(swap, kt);
      }
      EagerIsDeferred(k, x1, t - 1, Step(x1, CSwap(Xor(swap, kt), s)), kt);
    }
  }

  lemma XorBits(a: int, b: int)
    requires 0 <= a <= 1 && 0 <= b <= 1
    ensures Xor(a, b) == if a == b then 0 else 1
  {
    assert Xor(0, 0) == 0 && Xor(1, 1) == 0 && Xor(0, 1) == 1 && Xor(1, 0) == 1;
  }

  // ---------------------------------------------------------------- scalar bits

  /** Bit 8i + j of a little-endian number is bit j of its byte i. */
  lemma BitOfBytes(b: seq<int>, i: nat, j: nat)
    requires Digits(256, b) && i < |b| && j < 8
    ensures Bit(Val(256, b), 8 * i + j) == Bit(b[i], j)
  {
    hide Val, Pow, Pow2, Bit, Digits;
    var v, rest := Val(256, b), Val(256, b[i + 1..]);
    ValDrop(256, b, i);
    ValHead(256, b[i..]);
    assert b[i..][1..] == b[i + 1..];
    Pow2Values();
    PowOfPow2(8, i);
    BitShift(v, 8 * i, j);
    BitBelow(b[i], rest, j);
  }

  /** Bits above position e are bits of the quotient. */
  lemma BitShift(v: int, e: nat, j: nat)
    ensures Bit(v, e + j) == Bit(v / Pow2(e), j)
  {
    hide Pow2;
    Pow2Split(e, j);
    DivDiv(v, Pow2(e), Pow2(j));
  }

  lemma BitBelow(b: int, rest: int, j: nat)
    requires j < 8
    ensures Bit(b + 256 * rest, j) == Bit(b, j)
  {
    Pow2Values();
    Pow2Split(j, 8 - j);
    var m, n := Pow2(j), Pow2(7 - j);
    assert Pow2(8 - j) == 2 * n;
    hide Pow2;
    LowBitsOnly(b, rest, m, n);
  }

  lemma EvenUnits(m: int, n: int, rest: int)
    ensures (m * (2 * n)) * rest == 2 * (m * (n * rest))
  {
    assert (m * (2 * n)) * rest == (2 * (m * n)) * rest;
    assert (m * n) * rest == m * (n * rest);
  }

  /** An even number of units more does not change the last bit of the quotient. */
  lemma EvenMore(b: int, m: int, k: int)
    requires m > 0
    ensures ((b + 2 * (m * k)) / m) % 2 == (b / m) % 2
  {
    var q, r := b / m, b % m;
    assert b == m * q + r && 0 <= r < m;
    MoreUnits(b, m, q, r, k);
    SameParity(q, k);
  }

  lemma MoreUnits(b: int, m: int, q: int, r: int, k: int)
    requires m > 0 && b == m * q + r && 0 <= r < m
    ensures (b + 2 * (m * k)) / m == q + 2 * k
  {
    Regroup(m, q, 2, k);
    DivModUnique(b + 2 * (m * k), m, q + 2 * k, r);
  }

  lemma SameParity(q: int, k: int)
    ensures (q + 2 * k) % 2 == q % 2
  {
  }

  lemma LowBitsOnly(b: int, rest: int, m: int, n: int)
    requires m > 0 && 256 == m * (2 * n)
    ensures ((b + 256 * rest) / m) % 2 == (b / m) % 2
  {
    EvenUnits(m, n, rest);
    EvenMore(b, m, n * rest);
  }

  lemma ClampIsBytes(k: seq<int>)
    requires |k| == 32 && Digits(256, k)
    ensures Digits(256, Clamp(k))
  {
    AndBound(k[0], 248);
    AndBound(k[31], 127);
    Pow2Values();
    OrBound(And(k[31], 127), 64, 8);
  }
}
