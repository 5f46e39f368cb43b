/**
 The Java twin of the hexadecimal codec. Its masks tell digits from other characters
 below 256; above, every character passes but ten.
 */
module JavaHex {
  import opened Bits
  import opened Ascii
  import opened KeyCodec
  import opened HexCodec
  import opened JavaLimbs
  import opened JavaKey
  import WgDevice

  // ---------------------------------------------------------------- one character

  function Num(c: char16): int { Xor(c, 48) }

  function Alpha(c: char16): int { And(c, -33) - 55 }

  function NumMask16(c: char16): int { And(Shr8(Num(c) - 10), 255) }

  function AlphaMask16(c: char16): int { And(Shr8(Xor(Alpha(c) - 10, Alpha(c) - 16)), 255) }

  /** The value that fromHex takes a character for. */
  function Value16(c: char16): int {
    Or(And(NumMask16(c), Num(c)), And(AlphaMask16(c), Alpha(c)))
  }

  /** The characters that fromHex refuses. */
  predicate Refused(c: char16) {
    (c < 256 && HexDigit(c) < 0) || 0x130 <= c <= 0x139
  }

  lemma NumIs(c: char16)
    ensures Num(c) == 16 * Xor((c as int) / 16, 3) + (c as int) % 16
    ensures Num(c) / 256 == (c as int) / 256
  {
    hide Xor, Pow2;
    Pow2Of24();
    SmallPowers();
    XorAbove((c as int) / 16, (c as int) % 16, 3, 4);
    XorHigh(c, 48, 8);
    XorZero((c as int) / 256);
  }

  /** Sixteen and nineteen, zero and three: the only ones that xor with three takes to each other. */
  lemma XorThree(x: int)
    ensures Xor(x, 3) == 0 <==> x == 3
    ensures Xor(x, 3) == 16 <==> x == 19
  {
    hide Xor;
    XorSymmetric(x, 3);
    XorCancel(3, x);
    XorZero(3);
    XorHalves(3, 16);
    XorHalves(1, 8);
    XorZero(4);
    XorHalves(3, 19);
    XorHalves(1, 9);
    XorCancel(3, 0);
    SameHalves(Xor(3, 16), 19);
    SameHalves(Xor(3, 19), 16);
  }

  /** Where the xor is small: at the digits, and one page above them. */
  lemma NumRange(c: char16)
    ensures c < 256 ==> 0 <= Num(c) < 256 && (Num(c) < 10 <==> IsDecimal(c))
    ensures c < 256 && IsDecimal(c) ==> Num(c) == c - '0' as int
    ensures 256 <= Num(c) < 266 <==> 0x130 <= c <= 0x139
  {
    hide Xor, Num;
    NumIs(c);
    XorThree((c as int) / 16);
  }

  lemma PageMask(n: int)
    requires 0 <= n < 0x10000
    ensures Shr8(n - 10) % 256 == if n < 10 then 255 else if n % 256 < 10 then n / 256 - 1 else n / 256
  {
    hide Shr8;
    Shr8Is(n - 10);
    if n >= 10 {
      var q, r := n / 256, n % 256;
      DivModUnique(n - 10, 256, if r < 10 then q - 1 else q, if r < 10 then r + 246 else r - 10);
    }
  }

  /** The digit mask: all ones for a digit; above 255 the high byte, or one less where the low byte is a digit. */
  lemma NumMask16Is(c: char16)
    ensures 0 <= NumMask16(c) < 256
    ensures c < 256 ==> NumMask16(c) == if IsDecimal(c) then 255 else 0
    ensures c < 256 && IsDecimal(c) ==> Num(c) == c - '0' as int
    ensures c >= 256 ==> NumMask16(c) == (c as int) / 256 - if Num(c) % 256 < 10 then 1 else 0
    ensures c >= 256 ==> (NumMask16(c) == 0 <==> 0x130 <= c <= 0x139)
  {
    hide Xor, And, Num, Shr8;
    NumIs(c);
    NumRange(c);
    PageMask(Num(c));
    LowByte(Shr8(Num(c) - 10));
  }

  lemma AlphaIs(c: char16)
    ensures Alpha(c) == (c as int) - 32 * ((c as int) / 32 % 2) - 55
  {
    hide And, Pow2;
    Pow2Few();
    AndApart((c as int) / 64, (c as int) % 64, -1, 31, 6);
    AndOnes((c as int) / 64);
    AndLowMask((c as int) % 64, 5);
  }

  /** Numbers with one quotient by 256: no bits above the lowest eight differ. */
  lemma XorNear(x: int, y: int)
    ensures x / 256 == y / 256 ==> Shr8(Xor(x, y)) == 0
    ensures x / 256 == 0 && y / 256 == -1 ==> Shr8(Xor(x, y)) == 0xFF_FFFF
  {
    hide Xor, Pow2;
    Pow2Of24();
    XorHigh(x, y, 8);
    XorZero(x / 256);
    XorCancel(x / 256, 0);
    XorZero(-1);
  }

  lemma AlphaMask16Is(c: char16)
    ensures 0 <= AlphaMask16(c) < 256
    ensures c < 256 ==> AlphaMask16(c) == if !IsDecimal(c) && HexDigit(c) >= 0 then 255 else 0
    ensures c < 256 && !IsDecimal(c) && HexDigit(c) >= 0 ==> Alpha(c) == HexDigit(c)
    ensures 0x130 <= c <= 0x139 ==> AlphaMask16(c) == 0
    ensures (Alpha(c) - 10) / 256 == (Alpha(c) - 16) / 256 ==> AlphaMask16(c) == 0
  {
    hide Xor, And, Alpha, Shr8;
    AlphaIs(c);
    var a := Alpha(c);
    XorNear(a - 10, a - 16);
    LowByte(Shr8(Xor(a - 10, a - 16)));
  }

  /** Exactly the refused characters fail, and a digit below 256 has its value. */
  lemma NibbleExactly(c: char16)
    ensures 0 <= Or(NumMask16(c), AlphaMask16(c)) < 256
    ensures Or(NumMask16(c), AlphaMask16(c)) == 0 <==> Refused(c)
    ensures c < 256 && HexDigit(c) >= 0 ==> Value16(c) == HexDigit(c)
  {
    hide Xor, And, Or, Num, Alpha, NumMask16, AlphaMask16;
    NumMask16Is(c);
    AlphaMask16Is(c);
    Collect(NumMask16(c), AlphaMask16(c));
    if c < 256 && HexDigit(c) >= 0 {
      if IsDecimal(c) {
        AndByteMask(255, Num(c));
        AndZero(Alpha(c));
        OrZero(Num(c));
      } else {
        AndByteMask(255, Alpha(c));
        AndZero(Num(c));
        OrZero(Alpha(c));
      }
    }
  }

  // ---------------------------------------------------------------- keys

  /** The value of a character, and the failures with its own collected. */
  method Nibble16(c: char16, failed: nat) returns (val: int, ret: nat)
    requires failed < 0x100_0000
    ensures ret < 0x100_0000 && (ret == 0 <==> failed == 0 && !Refused(c))
    ensures val == Value16(c)
  {
    hide Xor, And, Or, Num, Alpha, NumMask16, AlphaMask16;
    NibbleExactly(c);
    var valid := Or(NumMask16(c), AlphaMask16(c));
    FailureWord(failed, valid);
    ret := Or(failed, Shr8(valid - 1));
    val := Or(And(NumMask16(c), Num(c)), And(AlphaMask16(c), Alpha(c)));
  }

  lemma FailureWord(failed: nat, valid: int)
    requires failed < 0x100_0000 && 0 <= valid < 256
    ensures 0 <= Or(failed, Shr8(valid - 1)) < 0x100_0000
    ensures Or(failed, Shr8(valid - 1)) == 0 <==> failed == 0 && valid != 0
  {
    hide Or, Pow2;
    Pow2Of24();
    assert Shr8(valid - 1) == if valid == 0 then 0xFF_FFFF else 0;
    OrSigns(failed, Shr8(valid - 1), 24);
  }

  ghost predicate AllHex16(str: seq<char16>) {
    forall i :: 0 <= i < |str| ==> str[i] < 256 && HexDigit(str[i]) >= 0
  }

  lemma HexWhenNarrow(str: seq<char16>)
    requires forall i :: 0 <= i < |str| ==> !Refused(str[i])
    ensures AllHex16(str) <==> forall i :: 0 <= i < |str| ==> str[i] < 256
  {
  }

  /** Refuses exactly the texts of another length or with a refused character. */
  method FromHex(str: seq<char16>) returns (r: Decoding)
    ensures r.WrongLength? <==> |str| != 64
    ensures r.Decoded? <==> |str| == 64 && forall i :: 0 <= i < 64 ==> !Refused(str[i])
    ensures r.Decoded? ==> |r.key| == 32
    ensures r.Decoded? ==> forall j :: 0 <= j < 32 ==> Unsigned(r.key)[j] == ByteFor(str[2 * j], str[2 * j + 1])
    // what is taken is hexadecimal exactly when no character is above 255, and then the key is what it spells
    ensures r.Decoded? ==> (AllHex16(str) <==> forall i :: 0 <= i < 64 ==> str[i] < 256)
    ensures r.Decoded? && AllHex16(str) ==> Spells(str, Unsigned(r.key))
  {
    hide Or, HexDigit, Refused, Value16;
    if |str| != 64 {
      return WrongLength;
    }
    var key := new sbyte[32](_ => 0);
    var ret: nat := 0;
    for i := 0 to 32
      invariant ret < 0x100_0000 && (ret == 0 <==> forall j :: 0 <= j < 2 * i ==> !Refused(str[j]))
      invariant forall j :: 0 <= j < i ==> (key[j] as int) % 256 == ByteFor(str[2 * j], str[2 * j + 1])
    {
      var hi, lo;
      hi, ret := Nibble16(str[2 * i], ret);
      lo, ret := Nibble16(str[2 * i + 1], ret);
      key[i] := ToSByte(Or(hi * 16, lo));
    }
    if ret != 0 {
      return WrongContents;
    }
    HexWhenNarrow(str);
    r := Decoded(key[..]);
    if AllHex16(str) {
      forall j | 0 <= j < 32
        ensures ByteFor(str[2 * j], str[2 * j + 1]) == 16 * HexDigit(str[2 * j]) + HexDigit(str[2 * j + 1])
      {
        ByteForDigits(str[2 * j], str[2 * j + 1]);
      }
    }
  }

  /** The byte that two characters are taken for. */
  function ByteFor(hi: char16, lo: char16): int {
    Or(Value16(hi) * 16, Value16(lo)) % 256
  }

  lemma DigitValue(c: char16)
    requires c < 256 && HexDigit(c) >= 0
    ensures Value16(c) == HexDigit(c) < 16
  {
    hide Or, Value16, NumMask16, AlphaMask16;
    NibbleExactly(c);
  }

  lemma ByteForDigits(hi: char16, lo: char16)
    requires hi < 256 && lo < 256 && HexDigit(hi) >= 0 && HexDigit(lo) >= 0
    ensures ByteFor(hi, lo) == 16 * HexDigit(hi) + HexDigit(lo)
  {
    hide Or, Value16, HexDigit;
    DigitValue(hi);
    DigitValue(lo);
    TwoDigits(HexDigit(hi), HexDigit(lo));
  }

  lemma TwoDigits(hi: int, lo: int)
    requires 0 <= hi < 16 && 0 <= lo < 16
    ensures Or(hi * 16, lo) == 16 * hi + lo
  {
    hide Or;
    SmallPowers();
    OrDisjoint(lo, hi, 4);
  }

  /** A text without a single digit that is taken for the key of zeros. */
  method WideHexText() returns (str: seq<char16>, r: Decoding)
    ensures r.Decoded? && |str| == 64 && forall i :: 0 <= i < 64 ==> str[i] == 0x100
    ensures Unsigned(r.key) == WgDevice.ZeroKey()
  {
    hide ByteFor;
    str := seq(64, _ => 0x100);
    r := FromHex(str);
    WideByte(0x100);
  }

  lemma WideByte(c: char16)
    requires c == 0x100
    ensures ByteFor(c, c) == 0
  {
    hide And, Or, Num, Alpha, NumMask16, AlphaMask16, Pow2;
    WideNum(c);
    NumMask16Is(c);
    AlphaIs(c);
    AlphaMask16Is(c);
    AndZero(Alpha(c));
    LowestBit(Num(c));
    OrZero(0);
  }

  lemma WideNum(c: char16)
    requires c == 0x100
    ensures Num(c) == 0x130
  {
    hide Xor, Num;
    NumIs(c);
    XorHalves((c as int) / 16, 3);
    XorHalves(8, 1);
    XorZero(4);
  }

  lemma LowestBit(n: int)
    requires n % 2 == 0
    ensures And(1, n) == 0
  {
    AndHalves(1, n);
    AndZero(n / 2);
  }

  /** The character formula of toHex. */
  function HexFormula16(v: int): int {
    87 + v + And((v - 10) / 256, -39)
  }

  lemma HexFormula16Exactly(v: int)
    requires 0 <= v < 16
    ensures HexFormula16(v) == HexChar(v)
  {
    hide And;
    AndSelect(-39, (v - 10) / 256);
  }

  method ToHex(key: seq<sbyte>) returns (str: seq<char16>)
    requires |key| == 32
    ensures str == Hex(Unsigned(key))
  {
    hide And, HexFormula16, HexChar;
    SmallPowers();
    var output := new char16[64](_ => 0);
    ghost var u: seq<byte> := Unsigned(key);
    for i := 0 to 32
      invariant output[..2 * i] == Hex(u[..i])
    {
      var high, low := And((key[i] as int) / 16, 15), And(key[i], 15);
      AndLowMask((key[i] as int) / 16, 4);
      AndLowMask(key[i], 4);
      Nibbles(key[i]);
      HexFormula16Exactly(high);
      HexFormula16Exactly(low);
      HexCharPositive(high);
      HexCharPositive(low);
      output[2 * i] := HexFormula16(high);
      output[2 * i + 1] := HexFormula16(low);
      assert u[..i + 1][..i] == u[..i];
      assert output[..2 * (i + 1)] == output[..2 * i] + [output[2 * i], output[2 * i + 1]];
    }
    assert u[..32] == u;
    return output[..];
  }

  lemma Nibbles(b: sbyte)
    ensures (b as int) / 16 % 16 == (b as int) % 256 / 16 && (b as int) % 16 == (b as int) % 256 % 16
  {
  }

  lemma HexCharPositive(v: int)
    requires 0 <= v < 16
    ensures HexChar(v) > 0
  {
  }

  /** Encoding and decoding a key. */
  method ThereAndBack(key: seq<sbyte>) returns (r: Decoding)
    requires |key| == 32
    ensures r == Decoded(key)
  {
    hide Hex, Unsigned;
    var str := ToHex(key);
    HexSpells(Unsigned(key));
    HexAccepted(str, Unsigned(key));
    r := FromHex(str);
    SpellsOnce(str, Unsigned(key), Unsigned(r.key));
    SameSigned(key, r.key);
  }

  lemma HexAccepted(str: seq<char16>, k: seq<byte>)
    requires str == Hex(k)
    ensures |str| == 2 * |k| && forall i :: 0 <= i < |str| ==> !Refused(str[i]) && str[i] < 256
  {
    hide Hex, HexDigit, Refused, Spells;
    HexSpells(k);
    var t := Hex(k);
    forall i | 0 <= i < |str|
      ensures !Refused(str[i]) && str[i] < 256
    {
      DigitAccepted(t[i]);
    }
  }

  lemma DigitAccepted(c: cchar)
    requires HexDigit(c) >= 0
    ensures 0 <= c < 256 && !Refused(c)
  {
  }

  lemma SpellsOnce(str: seq<char16>, a: seq<byte>, b: seq<byte>)
    requires (forall i :: 0 <= i < |str| ==> str[i] < 256) && Spells(str, a) && Spells(str, b)
    ensures a == b
  {
    hide HexDigit;
  }
}
