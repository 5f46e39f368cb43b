/**
 Little-endian positional values: a sequence of limbs `s` in base `b` stands for
 the sum of s[k] * b^k. Limbs may be negative or larger than the base, which is
 what carry loops rely on between their steps.
 */
module Positional {
  import opened Bits

  function Pow(b: nat, e: nat): (r: nat)
    ensures b > 0 ==> r > 0
  {
    if e == 0 then 1 else b * Pow(b, e - 1)
  }

  function Val(b: nat, s: seq<int>): int {
    if s == [] then 0
    else Val(b, s[..|s| - 1]) + s[|s| - 1] * Pow(b, |s| - 1)
  }

  predicate Digits(b: nat, s: seq<int>) {
    forall k :: 0 <= k < |s| ==> 0 <= s[k] < b
  }

  lemma ValEmpty(b: nat)
    ensures Val(b, []) == 0 && forall c :: Carried(b, [], c) == c
  {
  }

  lemma ValSnoc(b: nat, s: seq<int>, v: int)
    ensures Val(b, s + [v]) == Val(b, s) + v * Pow(b, |s|)
  {
    assert (s + [v])[..|s|] == s;
  }

  /** The value of a prefix one limb longer. */
  lemma ValPrefix(b: nat, s: seq<int>, i: nat)
    requires i < |s|
    ensures Val(b, s[..i + 1]) == Val(b, s[..i]) + s[i] * Pow(b, i)
  {
    assert s[..i + 1] == s[..i] + [s[i]];
    ValSnoc(b, s[..i], s[i]);
  }

  /** Adding d to limb k adds d * b^k to the value. */
  lemma {:induction false} ValUpdate(b: nat, s: seq<int>, k: nat, d: int)
    requires k < |s|
    ensures Val(b, s[k := s[k] + d]) == Val(b, s) + d * Pow(b, k)
  {
    var t := s[k := s[k] + d];
    var n := |s| - 1;
    if k == n {
      assert t[..n] == s[..n];
      Distribute(s[k], d, Pow(b, k));
    } else {
      assert t[..n] == s[..n][k := s[..n][k] + d];
      ValUpdate(b, s[..n], k, d);
    }
  }

  /** Moving q units of weight b^(i+1) out of limb i into limb i + 1 keeps the value. */
  lemma ValCarry(b: nat, s: seq<int>, i: nat, q: int)
    requires i + 1 < |s|
    ensures Val(b, s[i := s[i] - b * q][i + 1 := s[i + 1] + q]) == Val(b, s)
  {
    hide Val;
    var t := s[i := s[i] + -(b * q)];
    ValUpdate(b, s, i, -(b * q));
    ValUpdate(b, t, i + 1, q);
    assert -(b * q) * Pow(b, i) + q * (b * Pow(b, i)) == 0;
  }

  lemma ProductBound(a: int, b: int, c: int, d: int)
    requires 0 <= a <= c && 0 <= b <= d
    ensures 0 <= a * b <= c * d
  {
    assert (c - a) * b >= 0 && c * (d - b) >= 0;
    assert (c - a) * b == c * b - a * b && c * (d - b) == c * d - c * b;
  }

  lemma Distribute(x: int, y: int, m: int)
    ensures (x + y) * m == x * m + y * m
  {
  }

  lemma {:induction false} ValZero(b: nat, s: seq<int>)
    requires forall k :: 0 <= k < |s| ==> s[k] == 0
    ensures Val(b, s) == 0
  {
    if s != [] {
      ValZero(b, s[..|s| - 1]);
    }
  }

  lemma {:induction false} ValSum(b: nat, s: seq<int>, v: int, t: seq<int>, u: seq<int>)
    requires |s| == |t| == |u| && forall k :: 0 <= k < |s| ==> u[k] == s[k] + v * t[k]
    ensures Val(b, u) == Val(b, s) + v * Val(b, t)
  {
    if s != [] {
      var n := |s| - 1;
      ValSum(b, s[..n], v, t[..n], u[..n]);
      Combine(1, Val(b, s[..n]), s[n], v, Val(b, t[..n]), t[n], Pow(b, n));
    }
  }

  lemma {:induction false} ValScale(b: nat, v: int, s: seq<int>, t: seq<int>)
    requires |s| == |t| && forall k :: 0 <= k < |s| ==> t[k] == v * s[k]
    ensures Val(b, t) == v * Val(b, s)
  {
    if s != [] {
      var n := |s| - 1;
      ValScale(b, v, s[..n], t[..n]);
      assert (v * s[n]) * Pow(b, n) == v * (s[n] * Pow(b, n));
      assert v * (Val(b, s[..n]) + s[n] * Pow(b, n)) == v * Val(b, s[..n]) + v * (s[n] * Pow(b, n));
    }
  }

  lemma {:induction false} ValConcat(b: nat, s: seq<int>, t: seq<int>)
    ensures Val(b, s + t) == Val(b, s) + Pow(b, |s|) * Val(b, t)
  {
    if t == [] {
      assert s + t == s;
    } else {
      var n := |t| - 1;
      var p, q, v := Pow(b, |s|), Pow(b, n), t[n];
      assert s + t == (s + t[..n]) + [v];
      ValSnoc(b, s + t[..n], v);
      ValConcat(b, s, t[..n]);
      PowAdd(b, |s|, n);
      Regroup(p, Val(b, t[..n]), v, q);
    }
  }

  /** Above position k, equal limbs weigh the same. */
  lemma ValTail(b: nat, s: seq<int>, t: seq<int>, k: nat)
    requires k <= |s| == |t| && s[k..] == t[k..]
    ensures Val(b, s) - Val(b, s[..k]) == Val(b, t) - Val(b, t[..k])
  {
    hide Val, Pow;
    ValConcat(b, s[..k], s[k..]);
    ValConcat(b, t[..k], t[k..]);
    assert s == s[..k] + s[k..] && t == t[..k] + t[k..];
  }

  lemma RowAlgebra(v: int, p: int, w: int, y: int, q: int)
    ensures v * (p * (w + y * q)) == v * (p * w) + (v * y) * (p * q)
  {
    assert p * (w + y * q) == p * w + y * (p * q);
    assert v * (p * w + y * (p * q)) == v * (p * w) + v * (y * (p * q));
  }

  lemma Regroup(p: int, a: int, v: int, q: int)
    ensures p * (a + v * q) == p * a + v * (p * q)
  {
    assert p * (v * q) == v * (p * q);
  }

  lemma {:induction false} PowAdd(b: nat, e: nat, f: nat)
    ensures Pow(b, e + f) == Pow(b, e) * Pow(b, f)
    decreases f
  {
    if f > 0 {
      PowAdd(b, e, f - 1);
      PowStep(b, e + f);
      PowStep(b, f);
      hide Pow;
      Exchange(b, Pow(b, e), Pow(b, f - 1));
    } else {
      assert Pow(b, 0) == 1;
    }
  }

  lemma NoDigits(b: nat)
    ensures Digits(b, [])
  {
  }

  lemma DigitsSnoc(b: nat, s: seq<int>, d: int)
    requires Digits(b, s) && 0 <= d < b
    ensures Digits(b, s + [d])
  {
  }

  lemma PowZero(b: nat)
    ensures Pow(b, 0) == 1
  {
  }

  lemma PowStep(b: nat, e: nat)
    requires e > 0
    ensures Pow(b, e) == b * Pow(b, e - 1)
  {
  }

  lemma Pow2Values()
    ensures Pow2(5) == 32 && Pow2(8) == 256 && Pow2(16) == 0x10000 && Pow2(21) == 0x200000
    ensures Pow2(25) == 0x2000000 && Pow2(26) == 0x4000000
  {
    assert Pow2(4) == 16;
    Pow2Split(4, 1);
    Pow2Split(4, 4);
    Pow2Split(8, 8);
    Pow2Split(16, 5);
    Pow2Split(21, 4);
    Pow2Split(21, 5);
  }

  /** (2^w)^e == 2^(w * e), one factor at a time. */
  lemma {:induction false} PowOfPow2(w: nat, e: nat)
    ensures Pow(Pow2(w), e) == Pow2(w * e)
  {
    if e > 0 {
      PowOfPow2(w, e - 1);
      assert w * e == w + w * (e - 1);
      Pow2Split(w, w * (e - 1));
    }
  }

  /** n digits are worth less than b^n. */
  lemma {:induction false} ValBound(b: nat, s: seq<int>)
    requires b > 0 && Digits(b, s)
    ensures 0 <= Val(b, s) < Pow(b, |s|)
  {
    if s != [] {
      var n := |s| - 1;
      ValBound(b, s[..n]);
      TopDigit(b, s[n], Pow(b, n));
    }
  }

  lemma TopDigit(b: nat, v: int, p: nat)
    requires 0 <= v < b
    ensures 0 <= v * p <= b * p - p
  {
    assert (b - 1 - v) * p >= 0;
    assert (b - 1 - v) * p == b * p - p - v * p;
  }

  /** A non-negative value with carry c above n digits fits below b^n only when c is 0. */
  lemma NoCarryOut(low: int, c: int, m: int, total: int)
    requires m > 0 && 0 <= low < m && total == low + c * m
    ensures 0 <= total < m <==> c == 0
    ensures total < 0 <==> c < 0
    ensures total / m == c && total % m == low
  {
    assert total == m * c + low;
    DivModUnique(total, m, c, low);
    assert c >= 1 ==> c * m >= m;
    assert c <= -1 ==> c * m <= -m;
  }

  /** Splitting c into remainder and quotient moves weight from b^k to b^(k+1). */
  lemma CarryStep(b: nat, c: int, p: nat, bp: nat)
    requires b > 0 && bp == b * p
    ensures c * p == (c % b) * p + (c / b) * bp
  {
    SplitProduct(c, b, c / b, c % b, p);
  }

  lemma SplitProduct(c: int, b: int, q: int, r: int, p: int)
    requires c == b * q + r
    ensures c * p == r * p + q * (b * p)
  {
    assert (b * q) * p == q * (b * p);
    assert (b * q + r) * p == (b * q) * p + r * p;
  }

  /** The value of digits `t` with the carry `c` still pending above them. */
  function Carried(b: nat, t: seq<int>, c: int): int {
    Val(b, t) + c * Pow(b, |t|)
  }

  lemma Propagate(b: nat, t: seq<int>, c: int, d: int)
    requires b > 0
    ensures Carried(b, t + [(c + d) % b], (c + d) / b) == Carried(b, t, c) + d * Pow(b, |t|)
  {
    var p := Pow(b, |t|);
    ValSnoc(b, t, (c + d) % b);
    CarryStep(b, c + d, p, Pow(b, |t| + 1));
    Distribute(c, d, p);
  }

  /**
   The body of every carry loop: it forms k*x + l*y + offset limb by limb. With i
   digits `t` done and carry `c` pending, the next digit is (c + d) mod b and the
   next carry (c + d) div b, where d is the combination of limb i.
   */
  lemma CarryLoop(b: nat, t: seq<int>, c: int, k: int, x: seq<int>, l: int, y: seq<int>, offset: int)
    requires b > 0 && |t| < |x| && |t| < |y|
    requires Carried(b, t, c) == k * Val(b, x[..|t|]) + l * Val(b, y[..|t|]) + offset
    ensures var i, d := |t|, c + k * x[|t|] + l * y[|t|];
      Carried(b, t + [d % b], d / b) == k * Val(b, x[..i + 1]) + l * Val(b, y[..i + 1]) + offset
  {
    var i := |t|;
    var p := Pow(b, i);
    Propagate(b, t, c, k * x[i] + l * y[i]);
    ValPrefix(b, x, i);
    ValPrefix(b, y, i);
    Combine(k, Val(b, x[..i]), x[i], l, Val(b, y[..i]), y[i], p);
  }

  lemma Combine(k: int, v: int, x: int, l: int, w: int, y: int, p: int)
    ensures k * (v + x * p) + l * (w + y * p) == k * v + l * w + (k * x + l * y) * p
  {
    Distribute(k * x, l * y, p);
    assert k * (v + x * p) == k * v + (k * x) * p;
    assert l * (w + y * p) == l * w + (l * y) * p;
  }

  /** A finished carry loop: digits and carry are the remainder and the quotient by b^n. */
  lemma CarryDone(b: nat, t: seq<int>, c: int, total: int)
    requires b > 0 && Digits(b, t) && Carried(b, t, c) == total
    ensures 0 <= Val(b, t) < Pow(b, |t|)
    ensures c == total / Pow(b, |t|) && Val(b, t) == total % Pow(b, |t|)
    ensures 0 <= total < Pow(b, |t|) ==> c == 0 && Val(b, t) == total
  {
    ValBound(b, t);
    NoCarryOut(Val(b, t), c, Pow(b, |t|), total);
  }

  /** The least significant limb and the rest. */
  lemma ValHead(b: nat, s: seq<int>)
    requires s != []
    ensures Val(b, s) == s[0] + b * Val(b, s[1..])
  {
    ValConcat(b, s[..1], s[1..]);
    assert s == s[..1] + s[1..];
    ValPrefix(b, s, 0);
    assert s[..0] == [];
    assert Pow(b, 0) == 1 && Pow(b, 1) == b * Pow(b, 0);
  }

  /** Dropping i digits divides by b^i. */
  lemma ValDrop(b: nat, s: seq<int>, i: nat)
    requires b > 0 && Digits(b, s) && i <= |s|
    ensures Val(b, s) / Pow(b, i) == Val(b, s[i..])
  {
    hide Val, Pow;
    assert s == s[..i] + s[i..];
    ValConcat(b, s[..i], s[i..]);
    ValBound(b, s[..i]);
    DivModUnique(Val(b, s), Pow(b, i), Val(b, s[i..]), Val(b, s[..i]));
  }

  lemma DivDiv(x: int, a: int, b: int)
    requires a > 0 && b > 0
    ensures a * b > 0 && (x / a) / b == x / (a * b)
  {
    var q, r := (x / a) / b, (x / a) % b;
    DivDivUnique(x, a, b, q, r, x % a);
  }

  lemma DivDivUnique(x: int, a: int, b: int, q: int, r: int, r': int)
    requires a > 0 && b > 0 && 0 <= r < b && 0 <= r' < a && x == a * (b * q + r) + r'
    ensures a * b > 0 && x / (a * b) == q && x % (a * b) == a * r + r'
  {
    ProductBound(a, r, a, b - 1);
    assert a * (b * q) == (a * b) * q;
    assert a * (b * q + r) == a * (b * q) + a * r;
    assert a * (b - 1) == a * b - a;
    DivModUnique(x, a * b, q, a * r + r');
  }

  lemma ProductRow(b: nat, xs: seq<int>, i: nat, w: int)
    requires i < |xs|
    ensures Val(b, xs[..i + 1]) * w == Val(b, xs[..i]) * w + xs[i] * (Pow(b, i) * w)
  {
    hide Val, Pow;
    ValPrefix(b, xs, i);
    Distribute(Val(b, xs[..i]), xs[i] * Pow(b, i), w);
    assert (xs[i] * Pow(b, i)) * w == xs[i] * (Pow(b, i) * w);
  }
}
