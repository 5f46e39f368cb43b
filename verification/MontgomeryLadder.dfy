/**
 What the ladder of `Field25519` computes, stated without its own functions: the projective
 formulas of the curve v^2 = u^3 + 486662 u^2 + u, the laws of the scalar, and its first values.
 */
module MontgomeryLadder {
  import opened Bits
  import opened Positional
  import opened Field25519

  // ---------------------------------------------------------------- congruences

  ghost predicate Congruent(x: int, y: int) { x % P == y % P }

  lemma CongruentMul(x: int, x': int, y: int, y': int)
    requires Congruent(x, x') && Congruent(y, y')
    ensures Congruent(x * y, x' * y')
  {
    hide FMul;
    FMulMod(x, y);
    FMulMod(x', y');
    FMulIs(x, y);
    FMulIs(x', y');
  }

  lemma CongruentSum(x: int, x': int, y: int, y': int)
    requires Congruent(x, x') && Congruent(y, y')
    ensures Congruent(x + y, x' + y') && Congruent(x - y, x' - y')
  {
    FAddMod(x, y);
    FAddMod(x', y');
  }

  lemma FieldCongruent(x: int, y: int)
    ensures Congruent(FAdd(x, y), x + y) && Congruent(FSub(x, y), x - y) && Congruent(FMul(x, y), x * y)
  {
    ModTwice(x + y);
    ModTwice(x - y);
    ModTwice(x * y);
  }

  lemma FAddLike(x: int, x': int, y: int, y': int)
    requires Congruent(x, x') && Congruent(y, y')
    ensures Congruent(FAdd(x, y), x' + y') && Congruent(FSub(x, y), x' - y')
  {
    hide FAdd, FSub, FMul;
    FieldCongruent(x, y);
    CongruentSum(x, x', y, y');
  }

  lemma FMulLike(x: int, x': int, y: int, y': int)
    requires Congruent(x, x') && Congruent(y, y')
    ensures Congruent(FMul(x, y), x' * y') && FMul(x, y) == (x' * y') % P
  {
    hide FAdd, FSub;
    FieldCongruent(x, y);
    CongruentMul(x, x', y, y');
  }

  // ---------------------------------------------------------------- one step

  /** The doubling formulas: the fourth-degree forms of the curve with 486662. */
  lemma Doubling(u: int, s: Ladder)
    ensures var x, z, r := s.x2, s.z2, Step(u, s);
      && r.x2 == ((x * x - z * z) * (x * x - z * z)) % P
      && r.z2 == ((4 * (x * z)) * (x * x + 486662 * (x * z) + z * z)) % P
  {
    hide FAdd, FSub, FMul, Congruent;
    var x, z := s.x2, s.z2;
    var a, b := FAdd(x, z), FSub(x, z);
    var aa, bb := FMul(a, a), FMul(b, b);
    var e := FSub(aa, bb);
    FieldCongruent(x, z);
    FMulLike(a, x + z, a, x + z);
    FMulLike(b, x - z, b, x - z);
    FMulLike(aa, (x + z) * (x + z), bb, (x - z) * (x - z));
    ProductOfSquares(x, z);
    FAddLike(aa, (x + z) * (x + z), bb, (x - z) * (x - z));
    DifferenceOfSquares(x, z);
    CongruentSelf(A24);
    FMulLike(A24, A24, e, 4 * (x * z));
    FAddLike(aa, (x + z) * (x + z), FMul(A24, e), A24 * (4 * (x * z)));
    CurveForm(x, z);
    FMulLike(e, 4 * (x * z), FAdd(aa, FMul(A24, e)), x * x + 486662 * (x * z) + z * z);
  }

  lemma CongruentSelf(x: int)
    ensures Congruent(x, x)
  {
  }

  lemma ProductOfSquares(x: int, z: int)
    ensures ((x + z) * (x + z)) * ((x - z) * (x - z)) == (x * x - z * z) * (x * x - z * z)
  {
    var p, m := x + z, x - z;
    assert p * m == x * x - z * z;
    assert (p * p) * (m * m) == (p * m) * (p * m) by {
      TripleProduct(p, p, m * m);
      TripleProduct(p, m, m);
      TripleProduct(p, m, p * m);
      Exchange(p, m, m);
      Exchange(m, p, m);
    }
  }

  lemma DifferenceOfSquares(x: int, z: int)
    ensures (x + z) * (x + z) - (x - z) * (x - z) == 4 * (x * z)
  {
  }

  lemma CurveForm(x: int, z: int)
    ensures (x + z) * (x + z) + 121665 * (4 * (x * z)) == x * x + 486662 * (x * z) + z * z
  {
  }

  /** The differential addition formulas, for points whose difference has the coordinate u. */
  lemma Adding(u: int, s: Ladder)
    ensures var sum, diff, r := s.x2 * s.x3 - s.z2 * s.z3, s.x3 * s.z2 - s.x2 * s.z3, Step(u, s);
      && r.x3 == ((2 * sum) * (2 * sum)) % P
      && r.z3 == (u * ((2 * diff) * (2 * diff))) % P
  {
    hide FAdd, FSub, FMul, Congruent;
    var x, z, x', z' := s.x2, s.z2, s.x3, s.z3;
    var a, b, c, d := FAdd(x, z), FSub(x, z), FAdd(x', z'), FSub(x', z');
    var da, cb := FMul(d, a), FMul(c, b);
    FieldCongruent(x, z);
    FieldCongruent(x', z');
    FMulLike(d, x' - z', a, x + z);
    FMulLike(c, x' + z', b, x - z);
    FAddLike(da, (x' - z') * (x + z), cb, (x' + z') * (x - z));
    CrossTerms(x, z, x', z');
    var sum, diff := 2 * (x * x' - z * z'), 2 * (x' * z - x * z');
    FMulLike(FAdd(da, cb), sum, FAdd(da, cb), sum);
    FMulLike(FSub(da, cb), diff, FSub(da, cb), diff);
    CongruentSelf(u);
    FMulLike(u, u, FMul(FSub(da, cb), FSub(da, cb)), diff * diff);
  }

  lemma CrossTerms(x: int, z: int, x': int, z': int)
    ensures (x' - z') * (x + z) + (x' + z') * (x - z) == 2 * (x * x' - z * z')
    ensures (x' - z') * (x + z) - (x' + z') * (x - z) == 2 * (x' * z - x * z')
  {
    assert (x' - z') * (x + z) == x' * x + x' * z - z' * x - z' * z;
    assert (x' + z') * (x - z) == x' * x - x' * z + z' * x - z' * z;
  }

  // ---------------------------------------------------------------- scalars

  /** Bits of an even or odd number above its lowest are those of its half. */
  lemma BitsOfHalf(k: int, b: int, t: nat)
    requires 0 <= b <= 1
    ensures Bit(2 * k + b, t + 1) == Bit(k, t) && Bit(2 * k + b, 0) == b
  {
    assert Pow2(0) == 1 && Pow2(1) == 2;
    hide Pow2;
    Pow2Split(1, t);
    DivDiv(2 * k + b, 2, Pow2(t));
  }

  /** The scalar 2k, from any state: the ladder for k and one step more, which doubles its first point. */
  lemma {:induction false} LadderEven(k: int, u: int, t: nat, s: Ladder, swap: int)
    requires 0 <= swap <= 1
    ensures LadderFrom(2 * k, u, t + 1, s, swap) == Step(u, LadderFrom(k, u, t, s, swap))
    decreases t
  {
    hide Step, Bit, Xor;
    BitsOfHalf(k, 0, t);
    if t == 0 {
      XorBits(swap, 0);
    } else {
      BitsOfHalf(k, 0, t - 1);
      var kt := Bit(k, t - 1);
      LadderEven(k, u, t - 1, Step(u, CSwap(Xor(swap, kt), s)), kt);
    }
  }

  /** The scalar 2k + 1: the two points change places around that step. */
  lemma {:induction false} LadderOdd(k: int, u: int, t: nat, s: Ladder, swap: int)
    requires 0 <= swap <= 1
    ensures var r := LadderFrom(k, u, t, s, swap);
      var d := Step(u, Ladder(r.x3, r.z3, r.x2, r.z2));
      LadderFrom(2 * k + 1, u, t + 1, s, swap) == Ladder(d.x3, d.z3, d.x2, d.z2)
    decreases t
  {
    hide Step, Bit, Xor;
    BitsOfHalf(k, 1, t);
    if t == 0 {
      XorBits(swap, 1);
    } else {
      BitsOfHalf(k, 1, t - 1);
      var kt := Bit(k, t - 1);
      LadderOdd(k, u, t - 1, Step(u, CSwap(Xor(swap, kt), s)), kt);
    }
  }

  /** The state that the ladder starts from: the neutral point and the given one. */
  function Start(u: int): Ladder { Ladder(1, 0, u, 1) }

  /** The scalar 0 stays at the neutral point, beside a multiple of the given one. */
  lemma {:induction false} ScalarZero(u: int, t: nat)
    ensures var s := LadderFrom(0, u, t, Start(u), 0);
      s.x2 == 1 && s.z2 == 0 && Congruent(s.x3, u * s.z3)
    decreases t
  {
    hide Step;
    if t > 0 {
      ScalarZero(u, t - 1);
      LadderEven(0, u, t - 1, Start(u), 0);
      var r := LadderFrom(0, u, t - 1, Start(u), 0);
      hide LadderFrom, Congruent;
      Doubling(u, r);
      NeutralDoubled();
      Adding(u, r);
      BesideNeutral(u, r.x3, r.z3);
    }
  }

  lemma NeutralDoubled()
    ensures (1 * 1 - 0 * 0) * (1 * 1 - 0 * 0) == 1 && (4 * (1 * 0)) * (1 * 1 + 486662 * (1 * 0) + 0 * 0) == 0
    ensures 1 % P == 1 && 0 % P == 0
  {
  }

  lemma BesideNeutral(u: int, x: int, z: int)
    requires Congruent(x, u * z)
    ensures var x', z' := ((2 * (1 * x - 0 * z)) * (2 * (1 * x - 0 * z))) % P,
                          (u * ((2 * (x * 0 - 1 * z)) * (2 * (x * 0 - 1 * z)))) % P;
      Congruent(x', u * z')
  {
    hide Congruent;
    assert (2 * (1 * x - 0 * z)) * (2 * (1 * x - 0 * z)) == 4 * (x * x);
    assert (2 * (x * 0 - 1 * z)) * (2 * (x * 0 - 1 * z)) == 4 * (z * z);
    SquaredMultiple(u, x, z);
    MultipleOf(u, u * (4 * (z * z)), 4 * (x * x));
  }

  lemma SquaredMultiple(u: int, x: int, z: int)
    requires Congruent(x, u * z)
    ensures Congruent(4 * (x * x), u * (u * (4 * (z * z))))
  {
    hide Congruent;
    CongruentMul(x, u * z, x, u * z);
    CongruentSelf(4);
    CongruentMul(4, 4, x * x, (u * z) * (u * z));
    FourSquares(u, z);
  }

  lemma FourSquares(u: int, z: int)
    ensures 4 * ((u * z) * (u * z)) == u * (u * (4 * (z * z)))
  {
    TripleProduct(u, z, u * z);
    Exchange(z, u, z);
    Exchange(4, u, u * (z * z));
    Exchange(4, u, z * z);
  }

  lemma MultipleOf(u: int, w: int, y: int)
    requires Congruent(y, u * w)
    ensures Congruent(y % P, u * (w % P))
  {
    ModTwice(w);
    CongruentMul(u, u, w % P, w);
    ModTwice(y);
  }

  /** The scalar 1 gives the point itself, as a fraction. */
  lemma ScalarOne(u: int)
    ensures var s := LadderFrom(1, u, 255, Ladder(1, 0, u, 1), 0);
      s.x2 == FMul(u, s.z2)
  {
    hide Step, LadderFrom, Congruent;
    var r := LadderFrom(0, u, 254, Start(u), 0);
    ScalarZero(u, 254);
    LadderOdd(0, u, 254, Start(u), 0);
    var turned := Ladder(r.x3, r.z3, r.x2, r.z2);
    Adding(u, turned);
    OnePoint(u, r.x3, r.z3);
  }

  lemma OnePoint(u: int, x: int, z: int)
    requires Congruent(x, u * z)
    ensures var x', z' := ((2 * (x * 1 - z * 0)) * (2 * (x * 1 - z * 0))) % P,
                          (u * ((2 * (1 * z - x * 0)) * (2 * (1 * z - x * 0)))) % P;
      x' == FMul(u, z')
  {
    assert (2 * (x * 1 - z * 0)) * (2 * (x * 1 - z * 0)) == 4 * (x * x);
    assert (2 * (1 * z - x * 0)) * (2 * (1 * z - x * 0)) == 4 * (z * z);
    SquaredMultiple(u, x, z);
    MultipleOf(u, u * (4 * (z * z)), 4 * (x * x));
    ModTwice(4 * (x * x));
  }

  /** The scalar 2 gives the doubled point: (u^2 - 1)^2 over 4u(u^2 + 486662u + 1). */
  lemma ScalarTwo(u: int)
    ensures var s := LadderFrom(2, u, 255, Ladder(1, 0, u, 1), 0);
      FMul(s.x2, (4 * u) * (u * u + 486662 * u + 1)) == FMul(s.z2, (u * u - 1) * (u * u - 1))
  {
    hide Step, LadderFrom, Congruent, FMul;
    var r := LadderFrom(1, u, 254, Start(u), 0);
    ScalarZero(u, 253);
    LadderOdd(0, u, 253, Start(u), 0);
    var q := LadderFrom(0, u, 253, Start(u), 0);
    Adding(u, Ladder(q.x3, q.z3, q.x2, q.z2));
    OnePoint(u, q.x3, q.z3);
    LadderEven(1, u, 254, Start(u), 0);
    Doubling(u, r);
    DoubledFraction(u, r.x2, r.z2);
  }

  lemma DoubledFraction(u: int, x: int, z: int)
    requires x == FMul(u, z)
    ensures var x', z' := ((x * x - z * z) * (x * x - z * z)) % P,
                          ((4 * (x * z)) * (x * x + 486662 * (x * z) + z * z)) % P;
      FMul(x', (4 * u) * (u * u + 486662 * u + 1)) == FMul(z', (u * u - 1) * (u * u - 1))
  {
    hide FMul, Congruent;
    var zz, n, m := z * z, u * u - 1, u * u + 486662 * u + 1;
    FractionForms(u, x, z);
    FMulLike(((x * x - z * z) * (x * x - z * z)) % P, (zz * n) * (zz * n), (4 * u) * m, (4 * u) * m);
    FMulLike(((4 * (x * z)) * (x * x + 486662 * (x * z) + z * z)) % P, (4 * (u * zz)) * (zz * m), n * n, n * n);
    SameProducts(u, zz, n, m);
  }

  /** For x = uz both coordinates of the double are multiples of z^4. */
  lemma FractionForms(u: int, x: int, z: int)
    requires x == FMul(u, z)
    ensures var zz, n, m := z * z, u * u - 1, u * u + 486662 * u + 1;
      && Congruent(((x * x - z * z) * (x * x - z * z)) % P, (zz * n) * (zz * n))
      && Congruent(((4 * (x * z)) * (x * x + 486662 * (x * z) + z * z)) % P, (4 * (u * zz)) * (zz * m))
      && Congruent((4 * u) * m, (4 * u) * m) && Congruent(n * n, n * n)
  {
    hide Congruent;
    var zz, n, m := z * z, u * u - 1, u * u + 486662 * u + 1;
    FieldCongruent(u, z);
    hide FMul;
    CongruentSelf(z);
    CongruentSelf(zz);
    CongruentSelf((4 * u) * m);
    CongruentSelf(n * n);
    CongruentMul(x, u * z, x, u * z);
    CongruentMul(x, u * z, z, z);
    PowersOfZ(u, z);
    // x^2 - z^2 and its square
    CongruentSum(x * x, (u * u) * zz, zz, zz);
    CongruentMul(x * x - zz, zz * n, x * x - zz, zz * n);
    Reduces((x * x - zz) * (x * x - zz), (zz * n) * (zz * n));
    // the other coordinate
    CongruentSelf(4);
    CongruentMul(4, 4, x * z, u * zz);
    CongruentSelf(486662);
    CongruentMul(486662, 486662, x * z, u * zz);
    CongruentSum(x * x, (u * u) * zz, 486662 * (x * z), 486662 * (u * zz));
    CongruentSum(x * x + 486662 * (x * z), (u * u) * zz + 486662 * (u * zz), zz, zz);
    CongruentMul(4 * (x * z), 4 * (u * zz), x * x + 486662 * (x * z) + zz, zz * m);
    Reduces((4 * (x * z)) * (x * x + 486662 * (x * z) + zz), (4 * (u * zz)) * (zz * m));
  }

  lemma Reduces(x: int, y: int)
    requires Congruent(x, y)
    ensures Congruent(x % P, y)
  {
    ModTwice(x);
  }

  lemma PowersOfZ(u: int, z: int)
    ensures var zz, n, m := z * z, u * u - 1, u * u + 486662 * u + 1;
      && (u * z) * (u * z) == (u * u) * zz && (u * z) * z == u * zz
      && (u * u) * zz - zz == zz * n
      && (u * u) * zz + 486662 * (u * zz) + zz == zz * m
  {
    var zz := z * z;
    TripleProduct(u, z, u * z);
    Exchange(z, u, z);
    TripleProduct(u, u, zz);
    TripleProduct(u, z, z);
    assert (486662 * u) * zz == 486662 * (u * zz);
    assert zz * (u * u + 486662 * u + 1) == (u * u) * zz + (486662 * u) * zz + zz;
  }

  lemma SameProducts(u: int, w: int, n: int, m: int)
    ensures ((w * n) * (w * n)) * ((4 * u) * m) == ((4 * (u * w)) * (w * m)) * (n * n)
  {
    var ww, nn := w * w, n * n;
    assert (w * n) * (w * n) == ww * nn by {
      TripleProduct(w, n, w * n);
      Exchange(n, w, n);
      TripleProduct(w, w, nn);
    }
    assert (4 * (u * w)) * (w * m) == ww * ((4 * u) * m) by {
      assert 4 * (u * w) == w * (4 * u);
      TripleProduct(w, 4 * u, w * m);
      Exchange(4 * u, w, m);
      TripleProduct(w, w, (4 * u) * m);
    }
    var c := (4 * u) * m;
    TripleProduct(ww, nn, c);
    TripleProduct(ww, c, nn);
    assert nn * c == c * nn;
  }

  // ---------------------------------------------------------------- denominators

  /** Invertible modulo p. */
  ghost predicate Unit(x: int) {
    exists y :: InverseOf(x, y)
  }

  predicate InverseOf(x: int, y: int) { (x * y) % P == 1 }

  lemma UnitMul(x: int, y: int)
    requires Unit(x) && Unit(y)
    ensures Unit(x * y)
  {
    var a :| InverseOf(x, a);
    var b :| InverseOf(y, b);
    assert 1 % P == 1;
    CongruentMul(x * a, 1, y * b, 1);
    assert (x * a) * (y * b) == (x * y) * (a * b) by {
      TripleProduct(x, a, y * b);
      Exchange(a, y, b);
      TripleProduct(x, y, a * b);
    }
    assert InverseOf(x * y, a * b);
  }

  lemma UnitReduced(x: int)
    requires Unit(x)
    ensures Unit(x % P) && x % P != 0
  {
    var a :| InverseOf(x, a);
    ModTwice(x);
    CongruentMul(x % P, x, a, a);
    assert InverseOf(x % P, a);
    assert (0 * a) % P == 0;
  }

  /** Four, and the base point, are invertible. */
  lemma KnownUnits()
    ensures Unit(1) && Unit(4) && Unit(9)
  {
    assert InverseOf(1, 1);
    assert InverseOf(4, 43422033463993573283839119378257965444976244249615211514796594002967423614962);
    assert InverseOf(9, 32164469232587832062103051391302196625908329073789045566515995557753647122194);
  }

  /** The fraction beside the neutral point has an invertible denominator if u is invertible. */
  lemma {:induction false} ScalarZeroUnit(u: int, t: nat)
    requires Unit(u)
    ensures Unit(LadderFrom(0, u, t, Start(u), 0).z3)
    decreases t
  {
    hide Step, Unit;
    KnownUnits();
    if t > 0 {
      ScalarZeroUnit(u, t - 1);
      LadderEven(0, u, t - 1, Start(u), 0);
      ScalarZero(u, t - 1);
      var r := LadderFrom(0, u, t - 1, Start(u), 0);
      hide LadderFrom;
      Adding(u, r);
      UnitMul(r.z3, r.z3);
      UnitMul(4, r.z3 * r.z3);
      UnitMul(u, 4 * (r.z3 * r.z3));
      assert (2 * (r.x3 * 0 - 1 * r.z3)) * (2 * (r.x3 * 0 - 1 * r.z3)) == 4 * (r.z3 * r.z3);
      UnitReduced(u * (4 * (r.z3 * r.z3)));
    }
  }

  /** So is the fraction of the scalar 1: it is not zero over zero. */
  lemma ScalarOneUnit(u: int)
    requires Unit(u)
    ensures var z := LadderFrom(1, u, 255, Ladder(1, 0, u, 1), 0).z2; Unit(z) && z != 0
  {
    hide Step, LadderFrom, Unit;
    var r := LadderFrom(0, u, 254, Start(u), 0);
    ScalarZero(u, 254);
    ScalarZeroUnit(u, 254);
    LadderOdd(0, u, 254, Start(u), 0);
    Adding(u, Ladder(r.x3, r.z3, r.x2, r.z2));
    KnownUnits();
    UnitMul(r.z3, r.z3);
    UnitMul(4, r.z3 * r.z3);
    UnitMul(u, 4 * (r.z3 * r.z3));
    assert (2 * (1 * r.z3 - r.x3 * 0)) * (2 * (1 * r.z3 - r.x3 * 0)) == 4 * (r.z3 * r.z3);
    UnitReduced(u * (4 * (r.z3 * r.z3)));
  }

  // ---------------------------------------------------------------- bytes

  /** Powers in the field are powers. */
  lemma {:induction false} FPowIsPow(x: nat, e: nat)
    ensures FPow(x, e) == Pow(x, e) % P
  {
    if e > 0 {
      FPowIsPow(x, e - 1);
      PowStep(x, e);
      hide FPow, Pow, FMul;
      FPowStep(x, e);
      FMulReduced(x, Pow(x, e - 1));
      FMulIs(x, Pow(x, e - 1));
    } else {
      assert 1 % P == 1;
    }
  }

  lemma FPowStep(x: int, e: nat)
    requires e > 0
    ensures FPow(x, e) == FMul(x, FPow(x, e - 1))
  {
  }

  /** The encoding of a number below 2^256 is its 32 digits, lowest first. */
  lemma EncodedValue(u: int)
    requires 0 <= u < Pow2(256)
    ensures Digits(256, EncodeU(u)) && Val(256, EncodeU(u)) == u
  {
    hide Pow2, Val, EncodeU;
    EncodedPart(u, 32);
    assert EncodeU(u)[..32] == EncodeU(u);
    DivModUnique(u, Pow2(256), 0, u);
    EncodedDigits(u);
  }

  lemma EncodedDigits(u: int)
    ensures Digits(256, EncodeU(u))
  {
    hide Pow2;
  }

  lemma {:induction false} EncodedPart(u: int, n: nat)
    requires n <= 32
    ensures Val(256, EncodeU(u)[..n]) == u % Pow2(8 * n)
  {
    hide Pow2, Val;
    if n == 0 {
      ValEmpty(256);
      assert EncodeU(u)[..0] == [];
      assert Pow2(8 * n) == 1 by {
        PowZeroTwo();
      }
    } else {
      var m := n - 1;
      EncodedPart(u, m);
      ValPrefix(256, EncodeU(u), m);
      Pow2Values();
      PowOfPow2(8, m);
      Pow2Split(8 * m, 8);
      NextByte(u, Pow2(8 * m));
    }
  }

  lemma PowZeroTwo()
    ensures Pow2(0) == 1
  {
  }

  lemma NextByte(u: int, m: nat)
    requires m > 0
    ensures u % m + ((u / m) % 256) * m == u % (m * 256)
  {
    var q, r := u / m, u % m;
    assert u == m * (256 * (q / 256) + q % 256) + r;
    DivDivUnique(u, m, 256, q / 256, q % 256, r);
    assert m * (q % 256) == (q % 256) * m;
  }

  /** The clamped scalar: a multiple of eight with bit 254 set and the other bits of the key. */
  lemma ClampedScalar(k: seq<int>)
    requires |k| == 32 && Digits(256, k)
    ensures var v, n := Val(256, k), DecodeScalar(k);
      n == Pow2(254) + v % Pow2(254) - v % 8 && n % 8 == 0
  {
    hide Val, Pow, Pow2, And, Or, Digits, Clamp;
    ClampedSum(k);
    TopByte(k);
    HighPowers();
    ValHead(256, k);
    ByteAt(k, 31);
    ScalarArithmetic(Val(256, k), Val(256, k[..31]), k[31], Val(256, k[1..]), k[0], Pow2(248));
  }

  /** What clamping adds and takes away. */
  lemma ClampedSum(k: seq<int>)
    requires |k| == 32 && Digits(256, k)
    ensures DecodeScalar(k) ==
      Val(256, k) + (k[0] - k[0] % 8 - k[0]) * 1 + (64 + k[31] % 64 - k[31]) * Pow2(248)
  {
    hide Val, Pow, Pow2, And, Or, Digits;
    var a, b := And(k[0], 248), Or(And(k[31], 127), 64);
    ByteAt(k, 0);
    ByteAt(k, 31);
    ClearedLow(k[0]);
    SetHigh(k[31]);
    ValUpdate(256, k, 0, a - k[0]);
    ValUpdate(256, k[0 := a], 31, b - k[31]);
    assert Clamp(k) == k[0 := k[0] + (a - k[0])][31 := k[31] + (b - k[31])];
    PowZero(256);
    Pow2Values();
    PowOfPow2(8, 31);
  }

  lemma TopByte(k: seq<int>)
    requires |k| == 32 && Digits(256, k)
    ensures Val(256, k) == Val(256, k[..31]) + k[31] * Pow2(248) && 0 <= Val(256, k[..31]) < Pow2(248)
  {
    hide Val, Pow, Pow2, Digits;
    ValPrefix(256, k, 31);
    assert k[..32] == k;
    PrefixDigits(k);
    ValBound(256, k[..31]);
    Pow2Values();
    PowOfPow2(8, 31);
  }

  lemma HighPowers()
    ensures Pow2(254) == Pow2(248) * 64 && Pow2(248) % 8 == 0
  {
    assert Pow2(3) == 8 && Pow2(6) == 64;
    hide Pow2;
    Pow2Split(248, 6);
    Pow2Split(3, 245);
    DivModUnique(Pow2(248), 8, Pow2(245), 0);
  }

  lemma PrefixDigits(k: seq<int>)
    requires |k| == 32 && Digits(256, k)
    ensures Digits(256, k[..31])
  {
  }

  lemma ByteAt(k: seq<int>, i: nat)
    requires Digits(256, k) && i < |k|
    ensures 0 <= k[i] < 256
  {
  }

  lemma ScalarArithmetic(v: int, low: int, top: int, rest: int, first: int, m: nat)
    requires v == low + top * m && v == first + 256 * rest && 0 <= low < m && 0 <= top < 256 && m % 8 == 0
    ensures v + (first - first % 8 - first) * 1 + (64 + top % 64 - top) * m == m * 64 + v % (m * 64) - v % 8
    ensures (m * 64 + v % (m * 64) - v % 8) % 8 == 0
  {
    var q, r := top / 64, top % 64;
    DivModUnique(v, 8, first / 8 + 32 * rest, first % 8);
    assert top * m == (m * 64) * q + r * m;
    RemainderRoom(low, r, m);
    DivModUnique(v, m * 64, q, low + r * m);
    var w := v % (m * 64);
    MultipleOfEight(m, q, v, w);
  }

  lemma RemainderRoom(low: int, r: int, m: nat)
    requires 0 <= low < m && 0 <= r < 64
    ensures 0 <= low + r * m < m * 64
  {
    ProductBound(r, m, 63, m);
  }

  lemma MultipleOfEight(m: nat, q: int, v: int, w: int)
    requires m % 8 == 0 && v == (m * 64) * q + w
    ensures (m * 64 + w - v % 8) % 8 == 0
  {
    var e := m / 8;
    assert m * 64 == 8 * (e * 64);
    assert (m * 64) * q == 8 * ((e * 64) * q) by {
      TripleProduct(8, e * 64, q);
    }
    var c := v / 8;
    assert v == 8 * c + v % 8;
    DivModUnique(m * 64 + w - v % 8, 8, e * 64 + c - (e * 64) * q, 0);
  }

  lemma ClearedLow(x: int)
    requires 0 <= x < 256
    ensures And(x, 248) == x - x % 8
  {
    hide And;
    AndHalves(x, 248);
    AndHalves(x / 2, 124);
    AndHalves(x / 4, 62);
    FiveBits();
    AndLowMask(x / 8, 5);
  }

  lemma FiveBits()
    ensures Pow2(5) == 32 && Pow2(6) == 64 && Pow2(7) == 128
  {
  }

  lemma SetHigh(x: int)
    requires 0 <= x < 256
    ensures Or(And(x, 127), 64) == 64 + x % 64
  {
    hide And, Or;
    FiveBits();
    AndLowMask(x, 7);
    OrBit(x % 128, 6);
    DivModUnique(x, 64, 2 * (x / 128) + x % 128 / 64, x % 128 % 64);
  }

  /** Setting bit k of a number below 2^(k + 1). */
  lemma {:induction false} OrBit(y: int, k: nat)
    requires 0 <= y < 2 * Pow2(k)
    ensures Or(y, Pow2(k)) == Pow2(k) + y % Pow2(k)
  {
    if k == 0 {
      assert Or(0, 1) == 1 && Or(1, 1) == 1 && Pow2(0) == 1;
    } else {
      OrBit(y / 2, k - 1);
      Pow2Step(k);
      hide Pow2, Or;
      var m := Pow2(k - 1);
      OrHalves(y, 2 * m);
      ModDouble(y, m);
    }
  }
}
