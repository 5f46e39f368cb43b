/**
 The Java implementation of Curve25519: ten 26-bit limbs in 32-bit integers,
 products in 64-bit integers, all temporaries held in the arrays of one object.
 Every assignment to an `int32` or `int64` carries the obligation that the
 arithmetic does not overflow.
 */
module JavaCurve25519 {
  import opened Bits
  import opened Positional
  import opened Field25519
  import opened Options
  import opened JavaLimbs

  class Curve25519 {
    const A: array<int32>
    const AA: array<int32>
    const BE: array<int32>
    const BB: array<int32>
    const C: array<int32>
    const CB: array<int32>
    const D: array<int32>
    const DA: array<int32>
    const E: array<int32>
    const t1: array<int64>
    const t2: array<int32>
    const x_1: array<int32>
    const x_2: array<int32>
    const x_3: array<int32>
    const z_2: array<int32>
    const z_3: array<int32>

    /** Fourteen separate field elements, two scratch buffers, and the limb that Mul never writes. */
    ghost predicate Valid()
      reads t1
    {
      && t1.Length == 20 && t2.Length == 20 && t1[19] == 0
      && A.Length == AA.Length == BE.Length == BB.Length == C.Length == CB.Length == D.Length == 10
      && DA.Length == E.Length == x_1.Length == x_2.Length == x_3.Length == z_2.Length == z_3.Length == 10
      && A != AA && A != BE && A != BB && A != C && A != CB && A != D && A != DA && A != E && A != x_1 && A != x_2 &&
        A != x_3 && A != z_2 && A != z_3
      && AA != BE && AA != BB && AA != C && AA != CB && AA != D && AA != DA && AA != E && AA != x_1 && AA != x_2 &&
        AA != x_3 && AA != z_2 && AA != z_3
      && BE != BB && BE != C && BE != CB && BE != D && BE != DA && BE != E && BE != x_1 && BE != x_2 && BE != x_3 &&
        BE != z_2 && BE != z_3
      && BB != C && BB != CB && BB != D && BB != DA && BB != E && BB != x_1 && BB != x_2 && BB != x_3 && BB != z_2 &&
        BB != z_3
      && C != CB && C != D && C != DA && C != E && C != x_1 && C != x_2 && C != x_3 && C != z_2 && C != z_3
      && CB != D && CB != DA && CB != E && CB != x_1 && CB != x_2 && CB != x_3 && CB != z_2 && CB != z_3
      && D != DA && D != E && D != x_1 && D != x_2 && D != x_3 && D != z_2 && D != z_3
      && DA != E && DA != x_1 && DA != x_2 && DA != x_3 && DA != z_2 && DA != z_3
      && E != x_1 && E != x_2 && E != x_3 && E != z_2 && E != z_3
      && x_1 != x_2 && x_1 != x_3 && x_1 != z_2 && x_1 != z_3
      && x_2 != x_3 && x_2 != z_2 && x_2 != z_3
      && x_3 != z_2 && x_3 != z_3
      && z_2 != z_3
      && A != t2 && AA != t2 && BE != t2 && BB != t2 && C != t2 && CB != t2 && D != t2 && DA != t2 && E != t2 &&
        x_1 != t2 && x_2 != t2 && x_3 != t2 && z_2 != t2 && z_3 != t2
    }

    constructor ()
      ensures Valid()
      ensures fresh(t1) && fresh({A, AA, BE, BB, C, CB, D, DA, E, x_1, x_2, x_3, z_2, z_3, t2})
    {
      x_1 := new int32[10];
      x_2 := new int32[10];
      x_3 := new int32[10];
      z_2 := new int32[10];
      z_3 := new int32[10];
      A := new int32[10];
      BE := new int32[10];
      C := new int32[10];
      D := new int32[10];
      E := new int32[10];
      AA := new int32[10];
      BB := new int32[10];
      DA := new int32[10];
      CB := new int32[10];
      t1 := new int64[20](_ => 0);
      t2 := new int32[20];
    }

    method Square(result: array<int32>, x: array<int32>)
      requires t1.Length == 20 && t2.Length == 20 && t1[19] == 0
      requires result.Length == 10 && result != t2 && x != t2 && Holds(x)
      modifies result, t1, t2
      ensures t1[19] == 0 && Holds(result) && V(result) == FMul(old(V(x)), old(V(x)))
    {
      Mul(result, x, x);
    }

    /** The first nine operations of a ladder step. */
    method StepProducts()
      requires Valid() && Holds(x_2) && Holds(z_2) && Holds(x_3) && Holds(z_3)
      modifies A, AA, BE, BB, C, CB, D, DA, E, t1, t2
      ensures Valid() && Holds(AA) && Holds(BB) && Holds(E) && Holds(DA) && Holds(CB)
      ensures var a, b := FAdd(V(x_2), V(z_2)), FSub(V(x_2), V(z_2));
        && V(AA) == FMul(a, a) && V(BB) == FMul(b, b) && V(E) == FSub(V(AA), V(BB))
        && V(DA) == FMul(FSub(V(x_3), V(z_3)), a) && V(CB) == FMul(FAdd(V(x_3), V(z_3)), b)
    {
      hide V, Holds, FAdd, FSub, FMul;
      Add(A, x_2, z_2);
      Square(AA, A);
      Sub(BE, x_2, z_2);
      Square(BB, BE);
      Sub(E, AA, BB);
      Add(C, x_3, z_3);
      Sub(D, x_3, z_3);
      Mul(DA, D, A);
      Mul(CB, C, BE);
    }

    /** The remaining operations, which put the next point into x_2, z_2, x_3, z_3. */
    method StepCombine()
      requires Valid() && Holds(AA) && Holds(BB) && Holds(E) && Holds(DA) && Holds(CB) && Holds(x_1)
      modifies x_2, z_2, x_3, z_3, t1, t2
      ensures Valid() && Holds(x_2) && Holds(z_2) && Holds(x_3) && Holds(z_3)
      ensures V(x_2) == FMul(V(AA), V(BB)) && V(z_2) == FMul(FAdd(FMul(A24, V(E)), V(AA)), V(E))
      ensures var p, m := FAdd(V(DA), V(CB)), FSub(V(DA), V(CB));
        V(x_3) == FMul(p, p) && V(z_3) == FMul(FMul(m, m), V(x_1))
    {
      hide V, Holds, FAdd, FSub, FMul;
      Add(x_3, DA, CB);
      Square(x_3, x_3);
      Sub(z_3, DA, CB);
      Square(z_3, z_3);
      Mul(z_3, z_3, x_1);
      Mul(x_2, AA, BB);
      MulA24(z_2, E);
      Add(z_2, z_2, AA);
      Mul(z_2, z_2, E);
    }

    ghost function Point(): Ladder
      reads x_2, z_2, x_3, z_3
    {
      Ladder(V(x_2), V(z_2), V(x_3), V(z_3))
    }

    ghost predicate PointHolds()
      reads x_2, z_2, x_3, z_3
    {
      Holds(x_2) && Holds(z_2) && Holds(x_3) && Holds(z_3)
    }

    method LadderStep()
      requires Valid() && PointHolds() && Holds(x_1)
      modifies A, AA, BE, BB, C, CB, D, DA, E, x_2, z_2, x_3, z_3, t1, t2
      ensures Valid() && PointHolds() && Point() == Step(V(x_1), old(Point()))
    {
      hide V, Holds, FAdd, FSub, FMul;
      StepProducts();
      StepCombine();
      FAddSymmetric(FMul(A24, V(E)), V(AA));
      FMulSymmetric(FAdd(V(AA), FMul(A24, V(E))), V(E));
      FMulSymmetric(FMul(FSub(V(DA), V(CB)), FSub(V(DA), V(CB))), V(x_1));
    }

    /** Swap of two elements by xor with a mask of all zeros or all ones. */
    static method CSwapArrays(select: int32, x: array<int32>, y: array<int32>)
      requires 0 <= select <= 1 && x.Length == 10 && y.Length == 10 && x != y
      modifies x, y
      ensures if select == 1 then x[..] == old(y[..]) && y[..] == old(x[..])
                             else x[..] == old(x[..]) && y[..] == old(y[..])
    {
      hide And, Xor;
      var mask: int32 := -select;
      for index := 0 to 10
        invariant forall k :: 0 <= k < index ==> x[k] == old(if select == 1 then y[k] else x[k])
        invariant forall k :: 0 <= k < index ==> y[k] == old(if select == 1 then x[k] else y[k])
        invariant forall k :: index <= k < 10 ==> x[k] == old(x[k]) && y[k] == old(y[k])
      {
        var dummy := And(mask, Xor(x[index], y[index]));
        AndSelect(Xor(x[index], y[index]), mask);
        XorSwap(x[index], y[index]);
        x[index], y[index] := Xor(x[index], dummy), Xor(y[index], dummy);
      }
    }

    method CSwapPoint(swap: int32)
      requires Valid() && PointHolds() && 0 <= swap <= 1
      modifies x_2, z_2, x_3, z_3
      ensures PointHolds()
      ensures V(x_2) == if swap == 1 then old(V(x_3)) else old(V(x_2))
      ensures V(z_2) == if swap == 1 then old(V(z_3)) else old(V(z_2))
      ensures V(x_3) == if swap == 1 then old(V(x_2)) else old(V(x_3))
      ensures V(z_3) == if swap == 1 then old(V(z_2)) else old(V(z_3))
    {
      hide Val, Canonical;
      CSwapArrays(swap, x_2, x_3);
      CSwapArrays(swap, z_2, z_3);
    }

    /**
     The bit walk over the private key: byte 31 from bit 6 with bit 6 forced, then
     whole bytes, byte 0 with its three low bits cleared; swaps are deferred.
     */
    method EvalCurve(s: seq<sbyte>)
      requires |s| == 32 && Valid() && PointHolds() && Holds(x_1)
      modifies A, AA, BE, BB, C, CB, D, DA, E, x_2, z_2, x_3, z_3, t1, t2
      ensures Valid() && PointHolds()
      ensures Point() == LadderFrom(DecodeScalar(Unsigned(s)), V(x_1), 255, old(Point()), 0)
    {
      hide V, Holds, Step, DecodeScalar, Xor, Or, And, Bit, Pow2, LoadedByte;
      ghost var k, x1 := DecodeScalar(Unsigned(s)), V(x_1);
      var sposn, sbit := 31, 6;
      var svalue := Or(s[sposn], 0x40);
      var swap: int32 := 0;
      LoadedByteCases(s, 31);
      while true
        invariant Valid() && PointHolds() && Holds(x_1) && V(x_1) == x1
        invariant 0 <= sposn <= 31 && 0 <= sbit <= 7 && (sposn == 31 ==> sbit <= 6) && 0 <= swap <= 1
        invariant svalue == LoadedByte(s, sposn)
        invariant LadderFrom(k, x1, 8 * sposn + sbit + 1, Point(), swap) == LadderFrom(k, x1, 255, old(Point()), 0)
        decreases 8 * sposn + sbit
      {
        var select := LowBit(svalue / Pow2(sbit));
        WalkedBit(s, sposn, sbit);
        XorBits(swap, select);
        swap := Xor(swap, select);
        CSwapPoint(swap);
        swap := select;
        LadderStep();
        if sbit > 0 {
          sbit := sbit - 1;
        } else if sposn == 0 {
          break;
        } else if sposn == 1 {
          sposn := sposn - 1;
          svalue := And(s[sposn], 0xF8);
          LoadedByteCases(s, 0);
          sbit := 7;
        } else {
          sposn := sposn - 1;
          svalue := s[sposn];
          LoadedByteCases(s, sposn);
          sbit := 7;
        }
      }
      CSwapPoint(swap);
    }

    /** n squarings of A in a row. */
    method SquareA(n: nat, ghost v: int, ghost e: nat)
      requires Valid() && Holds(A) && V(A) == FPow(v, e)
      modifies A, t1, t2
      ensures Valid() && Holds(A) && V(A) == FPow(v, Shifted(e, n))
    {
      hide V, Holds, FPow, FMul, Shifted;
      ShiftedStart(e);
      for j := 0 to n
        invariant Valid() && Holds(A) && V(A) == FPow(v, Shifted(e, j))
      {
        Square(A, A);
        FPowAdd(v, Shifted(e, j), Shifted(e, j));
        ShiftedNext(e, j);
      }
    }

    /** The exponent pattern of 25 ones, ten bits apart. */
    method PowPattern(result: array<int32>, x: array<int32>)
      requires Valid() && Holds(x) && result.Length == 10
      requires x != result && x != A && x != t2 && result != A && result != t2
      modifies result, A, t1, t2
      ensures Valid() && Holds(result) && V(result) == FPow(V(x), Pattern(25))
    {
      hide V, Holds, FPow, FMul, Pow2, Pattern, Shifted, Filled;
      ghost var v := V(x);
      FPowOneOf(x);
      Square(A, x);
      FPowAdd(v, 1, 1);
      SquareA(9, v, 2);
      Mul(result, A, x);
      PatternStart();
      FPowAdd(v, Shifted(2, 9), 1);
      for i := 0 to 23
        invariant Valid() && Holds(x) && V(x) == v && Holds(A) && Holds(result)
        invariant V(A) == FPow(v, Pow2(10 * (i + 1))) && V(result) == FPow(v, Pattern(i + 2))
      {
        SquareA(10, v, Pow2(10 * (i + 1)));
        Mul(result, result, A);
        PatternNext(i + 2);
        FPowAdd(v, Pattern(i + 2), Pow2(10 * (i + 2)));
      }
    }

    /** Raises to 2^250 - 1: the pattern, filled in by nine shifted copies of itself. */
    method Pow250(result: array<int32>, x: array<int32>)
      requires Valid() && Holds(x) && result.Length == 10
      requires x != result && x != A && x != t2 && result != A && result != t2
      modifies result, A, t1, t2
      ensures Valid() && Holds(result) && V(result) == FPow(V(x), Pow2(250) - 1)
    {
      hide V, Holds, FPow, FMul, Pow2, Pattern, Shifted, Filled;
      ghost var v, e := V(x), Pattern(25);
      PowPattern(result, x);
      Square(A, result);
      FPowAdd(v, e, e);
      Mul(result, result, A);
      FPowAdd(v, e, 2 * e);
      FilledStart(e);
      for j := 0 to 8
        invariant Valid() && Holds(A) && Holds(result)
        invariant V(A) == FPow(v, Shifted(e, j + 1)) && V(result) == FPow(v, Filled(e, j + 2))
      {
        Square(A, A);
        FPowAdd(v, Shifted(e, j + 1), Shifted(e, j + 1));
        ShiftedNext(e, j + 1);
        Mul(result, result, A);
        FPowAdd(v, Filled(e, j + 2), Shifted(e, j + 2));
        ShiftedNext(e, j + 2);
      }
      FilledEnd();
    }

    /** The reciprocal: x^(p - 2). */
    method Recip(result: array<int32>, x: array<int32>)
      requires Valid() && Holds(x) && result.Length == 10
      requires x != result && x != A && x != t2 && result != A && result != t2
      modifies result, A, t1, t2
      ensures Valid() && Holds(result) && V(result) == FPow(V(x), P - 2)
    {
      hide V, Holds, FPow, FMul, Pow2;
      ghost var v, e := V(x), Pow2(250) - 1;
      Pow250(result, x);
      FPowOneOf(x);
      Square(result, result);
      FPowAdd(v, e, e);
      Square(result, result);
      FPowAdd(v, 2 * e, 2 * e);
      Mul(result, result, x);
      FPowAdd(v, 4 * e, 1);
      Square(result, result);
      FPowAdd(v, 4 * e + 1, 4 * e + 1);
      Square(result, result);
      FPowAdd(v, 8 * e + 2, 8 * e + 2);
      Mul(result, result, x);
      FPowAdd(v, 16 * e + 4, 1);
      Square(result, result);
      FPowAdd(v, 16 * e + 5, 16 * e + 5);
      Mul(result, result, x);
      FPowAdd(v, 32 * e + 10, 1);
      RecipExponent();
    }

    /** Unpacks 32 little-endian bytes into limbs, as the code does it: all 256 bits, no masking. */
    method Unpack(u: seq<byte>)
      requires |u| == 32 && Valid()
      modifies x_1, t2
      ensures Limbs(x_1[..]) && V(x_1) == UnpackedU(u)
    {
      hide Val, Or, Pow2, Low26, TrialSubtracted, PartlyUnpacked;
      for index := 0 to 10
        invariant forall k :: 0 <= k < index ==> x_1[k] == 0
      {
        x_1[index] := 0;
      }
      UnpackStart(x_1[..], u);
      for index := 0 to 32
        invariant PartlyUnpacked(x_1[..], u, index)
      {
        ghost var s := x_1[..];
        var bit, word := (index * 8) % 26, (index * 8) / 26;
        var value := u[index];
        if bit <= 26 - 8 {
          UnpackLow(s, u, index);
          x_1[word] := Or(x_1[word], Shl32(value, bit));
        } else {
          UnpackHigh(s, u, index);
          var w := Or(x_1[word], Shl32(value, bit));
          x_1[word] := Low26(w);
          x_1[word + 1] := Or(x_1[word + 1], value / Pow2(26 - bit));
          assert x_1[..] == s[word := Low26(w)][word + 1 := Or(s[word + 1], value / Pow2(26 - bit))];
        }
      }
      UnpackEnd(x_1[..], u);
      ReduceQuick(x_1);
      TrialRange(Val(B, x_1[..]), Val(256, u));
      ReduceQuick(x_1);
    }

    /** Writes x_2 as 32 little-endian bytes at the offset. */
    method Pack(result: array<sbyte>, offset: nat)
      requires Valid() && Holds(x_2) && offset + 32 <= result.Length
      modifies result
      ensures Written(old(result[..]), result[..], offset, EncodeU(V(x_2)))
    {
      hide Val, Pow2, Or, Shl32, EncodeU;
      for index := 0 to 32
        invariant forall k :: 0 <= k < result.Length && !(offset <= k < offset + index) ==> result[k] == old(result[k])
        invariant forall k :: 0 <= k < index ==> (result[offset + k] as int) % 256 == EncodeU(V(x_2))[k]
      {
        var bit, word := (index * 8) % 26, (index * 8) / 26;
        PackedByte(x_2[..], index);
        if bit <= 26 - 8 {
          result[offset + index] := ToSByte(x_2[word] / Pow2(bit));
        } else {
          result[offset + index] := ToSByte(Or(x_2[word] / Pow2(bit), Shl32(x_2[word + 1], 26 - bit)));
        }
      }
    }

    /**
     X25519 of a private key. With no public key the base point is used, which is
     the only call in the application. A given public key is taken modulo p, which is
     the element of the RFC exactly when bit 255 is clear (see InputMatchesDecodeU); of
     the nineteen largest values the code does not take the modulus (see
     UnpackReducedExactly).
     */
    static method Eval(result: array<sbyte>, offset: nat, privateKey: seq<sbyte>, publicKey: Option<seq<sbyte>>)
      requires offset + 32 <= result.Length && |privateKey| == 32
      requires publicKey.Some? ==> |publicKey.value| == 32 && Val(256, Unsigned(publicKey.value)) < 2 * Two255 - 19
      modifies result
      ensures var u := if publicKey.Some? then Val(256, Unsigned(publicKey.value)) % P else BasePoint;
        Written(old(result[..]), result[..], offset, EncodeU(X25519(DecodeScalar(Unsigned(privateKey)), u)))
    {
      hide Val, V, EncodeU, DecodeScalar, DecodeU, FPow, FMul, LadderFrom, Canonical, Holds;
      var state := new Curve25519();
      ghost var u := if publicKey.Some? then Val(256, Unsigned(publicKey.value)) % P else BasePoint;
      if publicKey.Some? {
        state.Unpack(Unsigned(publicKey.value));
        UnpackCanonical(state.x_1, Unsigned(publicKey.value));
      } else {
        state.SetSmall(state.x_1, 9);
      }
      state.SetSmall(state.x_2, 1);
      state.SetSmall(state.z_2, 0);
      state.Copy(state.x_3, state.x_1);
      state.SetSmall(state.z_3, 1);
      state.EvalCurve(privateKey);
      state.Recip(state.z_3, state.z_2);
      state.Mul(state.x_2, state.x_2, state.z_3);
      state.Pack(result, offset);
    }

    /** Fills with zeros and sets the lowest limb. */
    static method SetSmall(a: array<int32>, v: int32)
      requires a.Length == 10 && 0 <= v < B
      modifies a
      ensures Holds(a) && V(a) == v
    {
      hide Val, Pow;
      for k := 0 to 10
        invariant forall i :: 0 <= i < k ==> a[i] == 0
      {
        a[k] := 0;
      }
      ghost var zeros := a[..];
      ValZero(B, zeros);
      ValUpdate(B, zeros, 0, v);
      PowZero(B);
      a[0] := v;
      assert a[..] == zeros[0 := zeros[0] + v];
    }

    static method Copy(a: array<int32>, x: array<int32>)
      requires a.Length == 10 && Holds(x) && a != x
      modifies a
      ensures Holds(a) && V(a) == V(x)
    {
      for k := 0 to 10
        invariant forall i :: 0 <= i < k ==> a[i] == x[i]
      {
        a[k] := x[k];
      }
      assert a[..] == x[..];
    }

    /**
     The loop that adds a small carry into ten limbs from index `start` up, shared by
     both passes of the reduction and the trial subtraction; `out` may be `x` itself.
     */
    static method AddInto(out: array<int32>, x: array<int32>, start: nat, small: int32) returns (carry: int32)
      requires out.Length >= 10 && x.Length >= 10 && start <= 10 && 0 <= small <= 361
      requires Digits(B, x[start..10]) && Digits(B, out[..start])
      modifies out
      ensures Limbs(out[..10]) && (out != x ==> x[..] == old(x[..]))
      ensures Carried(B, out[..10], carry) - Val(B, old(x[..10]))
              == Carried(B, old(out[..start]), small) - Val(B, old(x[..start]))
    {
      hide Val, Carried, Low26, Shr26;
      ghost var xs, offset := x[..10], Carried(B, out[..start], small) - Val(B, x[..start]);
      carry := small;
      assert xs[..start] == x[..start];
      for index := start to 10
        invariant x[index..10] == xs[index..] && (out != x ==> x[..] == old(x[..]))
        invariant 0 <= carry <= 361 && Digits(B, out[..index])
        invariant Carried(B, out[..index], carry) == 1 * Val(B, xs[..index]) + 0 * Val(B, xs[..index]) + offset
      {
        ghost var done := out[..index];
        assert x[index] == xs[index] == x[start..10][index - start];
        CarryLoop26(done, carry, 1, xs, 0, xs, offset);
        carry := carry + x[index];
        out[index] := Low26(carry);
        assert out[..index + 1] == done + [Low26(carry)];
        DigitsSnoc(B, done, Low26(carry));
        carry := Shr26(carry);
      }
      assert xs[..10] == xs;
    }

    method ReduceQuick(x: array<int32>)
      requires t2.Length == 20 && x != t2
      requires Limbs(x[..]) && Val(B, x[..]) < 2 * Two255
      modifies x, t2
      ensures Limbs(x[..]) && Val(B, x[..]) == TrialSubtracted(old(Val(B, x[..])))
    {
      hide Val, Carried, And, Or, TrialSubtracted;
      ghost var was := x[..];
      assert was[..10] == was;
      ValEmpty(B);
      var carry := AddInto(t2, x, 0, 19);
      ghost var sum := t2[..10];
      ReduceQuickSum(was, sum, carry);
      var mask := -LowBit(t2[9] / 0x200000);
      var nmask := -mask - 1;
      t2[9] := Low21(t2[9]);
      ghost var trial := t2[..10];
      assert trial == sum[9 := sum[9] % 0x200000];
      for index := 0 to 10
        invariant t2[..10] == trial
        invariant forall k :: 0 <= k < index ==> x[k] == if mask == -1 then trial[k] else was[k]
        invariant forall k :: index <= k < 10 ==> x[k] == was[k]
      {
        AndSelect(x[index], nmask);
        AndSelect(t2[index], mask);
        OrZero(x[index]);
        OrZero(t2[index]);
        x[index] := Or(And(x[index], nmask), And(t2[index], mask));
      }
      assert x[..] == if mask == -1 then trial else was;
    }

    /** The borrow loop: x - y as ten digits and a final borrow of 0 or -1. */
    static method SubBorrow(result: array<int32>, x: array<int32>, y: array<int32>) returns (borrow: int32)
      requires result.Length == 10 && Limbs(x[..]) && Limbs(y[..])
      modifies result
      ensures -1 <= Shr26(borrow) <= 0 && Limbs(result[..])
      ensures Carried(B, result[..], Shr26(borrow)) == old(Val(B, x[..])) - old(Val(B, y[..]))
    {
      hide Val, Carried, Low26, Shr26, And, Digits, LowBit;
      ValEmpty(B);
      NoDigits(B);
      ghost var xs, ys := x[..], y[..];
      borrow := 0;
      Split26(0);
      for index := 0 to 10
        invariant forall k :: index <= k < 10 ==> x[k] == xs[k] && y[k] == ys[k]
        invariant -1 <= Shr26(borrow) <= 0 && Digits(B, result[..index])
        invariant Carried(B, result[..index], Shr26(borrow)) == 1 * Val(B, xs[..index]) + -1 * Val(B, ys[..index]) + 0
      {
        ghost var done := result[..index];
        SubStep(done, Shr26(borrow), xs, 1, ys, 0);
        borrow := x[index] - y[index] - LowBit(Shr26(borrow));
        result[index] := Low26(borrow);
        assert result[..index + 1] == done + [Low26(borrow)];
      }
      assert xs[..10] == xs && ys[..10] == ys && result[..10] == result[..];
    }

    /** The correction loop: takes s off, which is 19 after a borrow and 0 otherwise. */
    static method SubCorrect(result: array<int32>, s: int32) returns (borrow: int32)
      requires Limbs(result[..]) && 0 <= s < B
      modifies result
      ensures Limbs(result[..])
      ensures Carried(B, result[..], Shr26(borrow)) == old(Val(B, result[..])) - s
    {
      hide Val, Carried, Low26, Shr26, And, Digits, LowBit;
      ghost var first := result[..];
      ValEmpty(B);
      LimbAt(first, 0);
      borrow := result[0] - s;
      CarryLoop26([], -s, 1, first, 0, first, -s);
      result[0] := Low26(borrow);
      assert result[..1] == [] + [Low26(borrow)];
      NoDigits(B);
      DigitsSnoc(B, [], Low26(borrow));
      for index := 1 to 10
        invariant result[index..] == first[index..]
        invariant -1 <= Shr26(borrow) <= 0 && Digits(B, result[..index])
        invariant Carried(B, result[..index], Shr26(borrow))
                  == 1 * Val(B, first[..index]) + -0 * Val(B, first[..index]) + -s
      {
        ghost var done := result[..index];
        assert result[index] == result[index..][0] == first[index..][0] == first[index];
        assert result[index + 1..] == result[index..][1..] == first[index..][1..] == first[index + 1..];
        SubStep(done, Shr26(borrow), first, 0, first, -s);
        borrow := result[index] - LowBit(Shr26(borrow));
        result[index] := Low26(borrow);
        assert result[..index + 1] == done + [Low26(borrow)];
      }
      assert first[..10] == first && result[..10] == result[..];
    }

    static method Sub(result: array<int32>, x: array<int32>, y: array<int32>)
      requires result.Length == 10 && Holds(x) && Holds(y)
      modifies result
      ensures Holds(result) && V(result) == FSub(old(V(x)), old(V(y)))
    {
      hide Val, Carried, Low26, Shr26, And, FSub;
      ghost var xs, ys := x[..], y[..];
      var borrow := SubBorrow(result, x, y);
      ghost var first := result[..];
      SubFirstPass(xs, ys, first, Shr26(borrow));
      AndSelect(19, -LowBit(Shr26(borrow)));
      borrow := SubCorrect(result, And(-LowBit(Shr26(borrow)), 19));
      ghost var second := result[..];
      SubSecondPass(xs, ys, first, second, Shr26(borrow));
      result[9] := Low21(result[9]);
      assert result[..] == second[9 := second[9] % 0x200000];
    }

    /** The carry loop of the addition. */
    static method AddCarry(result: array<int32>, x: array<int32>, y: array<int32>) returns (carry: int32)
      requires result.Length == 10 && Limbs(x[..]) && Limbs(y[..])
      modifies result
      ensures Limbs(result[..])
      ensures Carried(B, result[..], Shr26(carry)) == old(Val(B, x[..])) + old(Val(B, y[..]))
    {
      hide Val, Carried, Low26, Shr26, And;
      ghost var xs, ys := x[..], y[..];
      ValEmpty(B);
      CarryLoop26([], 0, 1, xs, 1, ys, 0);
      carry := x[0] + y[0];
      result[0] := Low26(carry);
      assert result[..1] == [] + [Low26(carry)];
      for index := 1 to 10
        invariant forall k :: index <= k < 10 ==> x[k] == xs[k] && y[k] == ys[k]
        invariant 0 <= Shr26(carry) <= 1 && Digits(B, result[..index])
        invariant Carried(B, result[..index], Shr26(carry)) == 1 * Val(B, xs[..index]) + 1 * Val(B, ys[..index]) + 0
      {
        ghost var done := result[..index];
        CarryLoop26(done, Shr26(carry), 1, xs, 1, ys, 0);
        carry := Shr26(carry) + x[index] + y[index];
        result[index] := Low26(carry);
        assert result[..index + 1] == done + [Low26(carry)];
      }
      assert xs[..10] == xs && ys[..10] == ys && result[..10] == result[..];
    }

    method Add(result: array<int32>, x: array<int32>, y: array<int32>)
      requires t2.Length == 20 && result.Length == 10 && result != t2 && x != t2 && y != t2
      requires Holds(x) && Holds(y)
      modifies result, t2
      ensures Holds(result) && V(result) == FAdd(old(V(x)), old(V(y)))
    {
      hide Val, Carried, FAdd;
      ghost var xs, ys := x[..], y[..];
      var carry := AddCarry(result, x, y);
      AddSum(xs, ys, result[..], Shr26(carry));
      ReduceQuick(result);
    }

    /**
     The first loop of the reduction, over the `size` limbs of the high half: the
     value above bit 255, re-aligned by 5 bits, times 19 is added to the low half.
     */
    static method FoldHigh(x: array<int32>, size: int) returns (carry: int32, limb: int32, ghost ls: seq<int>)
      requires 1 <= size <= 10 && x.Length == 20 && Digits(B, x[..10 + size])
      modifies x
      ensures Digits(B, x[..size]) && |ls| == size && Digits(B, ls) && 0 <= carry <= 19 && 0 <= limb <= 31
      ensures x[size..10] == old(x[..10])[9 := old(x[9]) % 0x200000][size..]
      ensures Carried(B, ls, limb) == 32 * Val(B, old(x[10..10 + size])) + old(x[9]) / 0x200000
      ensures Carried(B, x[..size], carry) == 19 * Val(B, ls) + Val(B, old(x[..10])[9 := old(x[9]) % 0x200000][..size])
    {
      hide Val, Carried, Low26, Shr26, And;
      ghost var lo, hi, top := x[..10][9 := x[9] % 0x200000], x[10..10 + size], x[9] / 0x200000;
      assert Digits(B, lo) && Digits(B, hi);
      ValEmpty(B);
      carry := 0;
      limb := x[9] / 0x200000;
      x[9] := Low21(x[9]);
      ls := [];
      for index := 0 to size
        invariant x[index..10] == lo[index..] && x[10..10 + size] == hi
        invariant 0 <= limb <= 31 && |ls| == index && Digits(B, ls)
        invariant Carried(B, ls, limb) == 32 * Val(B, hi[..index]) + top
        invariant 0 <= carry <= 19 && Digits(B, x[..index])
        invariant Carried(B, x[..index], carry) == 19 * Val(B, ls) + Val(B, lo[..index])
      {
        ghost var done := x[..index];
        assert x[index] == x[index..10][0] && lo[index] == lo[index..][0];
        assert x[10 + index] == x[10..10 + size][index] && x[10..10 + size] == hi;
        FoldStepBounds(limb, hi[index], carry, lo[index]);
        FoldStep(ls, limb, hi, top, done, carry, lo);
        limb := limb + 32 * x[10 + index];
        carry := carry + Low26(limb) * 19 + x[index];
        x[index] := Low26(carry);
        ls := ls + [Low26(limb)];
        assert x[..index + 1] == done + [Low26(carry)];
        limb := Shr26(limb);
        carry := Shr26(carry);
      }
      assert hi[..size] == hi;
    }

    /** The whole first pass: ten limbs worth x mod 2^255 plus 19 times x div 2^255. */
    static method Fold(x: array<int32>, size: int) returns (ghost h: int)
      requires 1 <= size <= 10 && x.Length == 20 && Digits(B, x[..10 + size])
      requires FitsFold(Val(B, x[..10 + size]), size)
      modifies x
      ensures Limbs(x[..10]) && Val(B, x[..10]) < 20 * Two255
      ensures old(Val(B, x[..10 + size])) == h * P + Val(B, x[..10])
    {
      hide Val, Carried, Low26, Shr26, And, FitsFold;
      ghost var orig, hi := x[..10 + size], x[10..10 + size];
      ghost var lo := x[..10][9 := x[9] % 0x200000];
      assert Digits(B, lo) && orig[..10] == x[..10] && orig[10..] == hi;
      var carry, limb, ls := FoldHigh(x, size);
      FoldSplit(orig, ls, limb);
      h := Val(B, ls);
      if size < 10 {
        ValTail(B, x[..10], lo, size);
        assert x[..10][..size] == x[..size];
        carry := AddInto(x, x, size, carry);
      }
      assert lo[..10] == lo;
      TopLimb(x[..10], carry, Val(B, lo) + 19 * h);
    }

    /** The second pass: at most 19 multiples of 2^255 are left above bit 255. */
    static method FoldTop(result: array<int32>, x: array<int32>) returns (ghost q: int)
      requires result.Length == 10 && result != x && x.Length == 20
      requires Limbs(x[..10]) && Val(B, x[..10]) < 20 * Two255
      modifies result, x
      ensures Limbs(result[..]) && Val(B, result[..]) < 2 * P
      ensures old(Val(B, x[..10])) == q * P + Val(B, result[..])
    {
      hide Val, Carried, Low26, Shr26, And;
      ghost var was := x[..10];
      ghost var low := was[9 := was[9] % 0x200000];
      ValEmpty(B);
      WholeLimbs(was);
      ValBound(B, was);
      TopLimb(was, 0, Val(B, was));
      q := was[9] / 0x200000;
      var carry: int32 := (x[9] / 0x200000) * 19;
      x[9] := Low21(x[9]);
      assert x[..10] == low;
      LowLimbs(was);
      carry := AddInto(result, x, 0, carry);
      assert result[..10] == result[..];
      TopLimb(result[..], carry, Val(B, low) + 19 * q);
      SecondFold(Val(B, was), Val(B, low), q);
    }

    method Reduce(result: array<int32>, x: array<int32>, size: int)
      requires t2.Length == 20 && result.Length == 10 && result != t2 && result != x && x.Length == 20
      requires 1 <= size <= 10 && Digits(B, x[..10 + size])
      requires FitsFold(Val(B, x[..10 + size]), size)
      modifies result, x, t2
      ensures Canonical(result[..])
      ensures Val(B, result[..]) == old(Val(B, x[..10 + size])) % P
    {
      hide Val, FitsFold;
      ghost var v := Val(B, x[..10 + size]);
      ghost var h := Fold(x, size);
      ghost var q := FoldTop(result, x);
      ghost var w := Val(B, result[..]);
      ValBound(B, result[..]);
      ReduceQuick(result);
      TrialIsMod(w, h + q, v);
    }

    method MulA24(result: array<int32>, x: array<int32>)
      requires t2.Length == 20 && result.Length == 10 && result != t2 && x != t2 && Holds(x)
      modifies result, t2
      ensures Holds(result) && V(result) == FMul(A24, old(V(x)))
    {
      hide Val, Carried, Low26, Shr26;
      ghost var xs := x[..];
      ValEmpty(B);
      var carry: int64 := 0;
      for index := 0 to 10
        invariant x[..] == xs
        invariant 0 <= carry <= 121665 && Digits(B, t2[..index])
        invariant Carried(B, t2[..index], carry) == 121665 * Val(B, xs[..index]) + 0 * Val(B, xs[..index]) + 0
      {
        ghost var done := t2[..index];
        CarryLoop26(done, carry, 121665, xs, 0, xs, 0);
        carry := carry + 121665 * (x[index] as int64);
        NarrowLow26(carry);
        t2[index] := Low26(ToInt32(carry));
        assert t2[..index + 1] == done + [Low26(carry)];
        carry := Shr26(carry);
      }
      ghost var done := t2[..10];
      NarrowLow26(carry);
      t2[10] := Low26(ToInt32(carry));
      assert t2[..11] == done + [carry] by { Split26(carry); }
      assert xs[..10] == xs;
      MulA24Value(xs, done, carry);
      Reduce(result, t2, 1);
    }

    /** Row i of the schoolbook multiplication: adds x[i] * y at limb i, opening limb i + 9. */
    method MulRow(i: nat, v: int64, y: array<int32>)
      requires t1.Length == 20 && 1 <= i < 10 && 0 <= v < B && Limbs(y[..])
      requires RowBound(t1[..i + 9], i)
      modifies t1
      ensures t1[19] == old(t1[19]) && RowBound(t1[..i + 10], i + 1)
      ensures Val(B, t1[..i + 10]) == old(Val(B, t1[..i + 9])) + v * (Pow(B, i) * Val(B, y[..]))
    {
      hide Val, Pow, RowBound;
      ghost var ys, before := y[..], t1[..i + 9];
      RowStart(v, i);
      assert ys[..0] == [];
      for j := 0 to 9
        invariant t1[19] == old(t1[19]) && RowPart(t1[..i + 9], before, i, j)
        invariant Val(B, t1[..i + 9]) == Val(B, before) + v * (Pow(B, i) * Val(B, ys[..j]))
      {
        ghost var t := t1[..i + 9];
        RowStep(t, before, i, j, v, ys);
        t1[i + j] := t1[i + j] + v * y[j];
        assert t1[..i + 9] == t[i + j := t[i + j] + v * ys[j]];
      }
      ghost var t := t1[..i + 9];
      RowEnd(t, before, i, v, ys);
      t1[i + 9] := v * y[9];
      assert t1[..i + 10] == t + [v * ys[9]];
    }

    /** Schoolbook multiplication into t1; t1[19] is read later but never written. */
    method MulLimbs(x: array<int32>, y: array<int32>)
      requires t1.Length == 20 && Limbs(x[..]) && Limbs(y[..])
      modifies t1
      ensures t1[19] == old(t1[19]) && RowBound(t1[..19], 10)
      ensures Val(B, t1[..19]) == Val(B, x[..]) * Val(B, y[..])
    {
      hide Val, Pow, RowBound;
      ghost var xs, ys := x[..], y[..];
      var v: int64 := x[0];
      for i := 0 to 10
        invariant t1[19] == old(t1[19])
        invariant forall k :: 0 <= k < i ==> t1[k] == v * ys[k]
      {
        LimbProduct(v, y[i]);
        t1[i] := v * (y[i] as int64);
      }
      FirstRow(t1[..10], xs, ys);
      for i := 1 to 10
        invariant t1[19] == old(t1[19]) && RowBound(t1[..i + 9], i)
        invariant Val(B, t1[..i + 9]) == Val(B, xs[..i]) * Val(B, ys)
      {
        v := x[i];
        ProductRow(B, xs, i, Val(B, ys));
        MulRow(i, v, y);
      }
      assert xs[..10] == xs;
    }

    /** The carry loop of the multiplication: 20 columns into 20 limbs. */
    method MulCarry()
      requires t1.Length == 20 && t2.Length == 20 && t1[19] == 0 && RowBound(t1[..19], 10)
      modifies t2
      ensures Digits(B, t2[..])
      ensures Val(B, t1[..19]) < Pow(B, 20) ==> Val(B, t2[..]) == Val(B, t1[..19])
    {
      hide Val, Pow, Carried, Low26, Shr26;
      ghost var ts: seq<int> := t1[..];
      assert forall k :: 0 <= k < 20 ==> 0 <= ts[k] <= 10 * 0xFFFFFF8000001;
      ValEmpty(B);
      var v: int64 := t1[0];
      CarryLoop26([], 0, 1, ts, 0, ts, 0);
      NarrowLow26(v);
      t2[0] := Low26(ToInt32(v));
      assert t2[..1] == [] + [Low26(v)];
      for i := 1 to 20
        invariant t1[..] == ts && 0 <= Shr26(v) <= 0x10000_00000000 && Digits(B, t2[..i])
        invariant Carried(B, t2[..i], Shr26(v)) == 1 * Val(B, ts[..i]) + 0 * Val(B, ts[..i]) + 0
      {
        ghost var done := t2[..i];
        CarryLoop26(done, Shr26(v), 1, ts, 0, ts, 0);
        v := Shr26(v) + t1[i];
        NarrowLow26(v);
        t2[i] := Low26(ToInt32(v));
        assert t2[..i + 1] == done + [Low26(v)];
      }
      assert ts[..20] == ts[..19] + [0] && t2[..20] == t2[..];
      MulCarryValue(ts[..19], t2[..], Shr26(v));
      assert t1[..19] == ts[..19];
    }

    method Mul(result: array<int32>, x: array<int32>, y: array<int32>)
      requires t1.Length == 20 && t2.Length == 20 && t1[19] == 0
      requires result.Length == 10 && result != t2 && x != t2 && y != t2
      requires Holds(x) && Holds(y)
      modifies result, t1, t2
      ensures t1[19] == 0 && Holds(result) && V(result) == FMul(old(V(x)), old(V(y)))
    {
      hide Val, Pow, FitsFold;
      ghost var v, w := Val(B, x[..]), Val(B, y[..]);
      MulLimbs(x, y);
      ProductFits(x[..], y[..]);
      MulCarry();
      assert t2[..20] == t2[..];
      Reduce(result, t2, 10);
    }
  }
}
