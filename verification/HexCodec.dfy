/**
 The hexadecimal form of a key, computed by masks on unsigned 32-bit words and bytes.
 */
module HexCodec {
  import opened Bits
  import opened Ascii
  import opened KeyCodec

  const WORD: int := 0x1_0000_0000

  function HexChar(v: int): cchar
    requires 0 <= v < 16
  {
    if v < 10 then '0' as int + v else 'a' as int + (v - 10)
  }

  /** The value of a digit of either case; -1 for any other character. */
  function HexDigit(c: cchar): (v: int)
    ensures -1 <= v < 16
  {
    if '0' as int <= c <= '9' as int then c - '0' as int
    else if 'a' as int <= c <= 'f' as int then c - 'a' as int + 10
    else if 'A' as int <= c <= 'F' as int then c - 'A' as int + 10
    else -1
  }

  function Hex(key: seq<byte>): (t: seq<cchar>)
    ensures |t| == 2 * |key|
  {
    if key == [] then [] else
      var n := |key| - 1;
      Hex(key[..n]) + [HexChar(key[n] / 16), HexChar(key[n] % 16)]
  }

  ghost predicate AllHex(t: seq<cchar>) {
    forall i :: 0 <= i < |t| ==> HexDigit(t[i]) >= 0
  }

  /** The bytes whose digits, of either case, the text gives. */
  ghost predicate Spells(t: seq<cchar>, key: seq<byte>) {
    |t| == 2 * |key| && forall i :: 0 <= i < |key| ==> key[i] as int == 16 * HexDigit(t[2 * i]) + HexDigit(t[2 * i + 1])
  }

  /** What key_to_hex writes consists of digits that spell the key; lower case only. */
  lemma {:induction false} HexSpells(key: seq<byte>)
    ensures AllHex(Hex(key)) && Spells(Hex(key), key)
    ensures forall i :: 0 <= i < |Hex(key)| ==> !('A' as int <= Hex(key)[i] <= 'Z' as int)
    decreases |key|
  {
    if key != [] {
      HexSpells(key[..|key| - 1]);
    }
  }

  // ---------------------------------------------------------------- encoding

  /** The character formula of key_to_hex, in unsigned words, narrowed to a byte. */
  function HexFormula(v: int): int {
    (87 + v + And((v - 10) % WORD / 256, 0xFFFF_FFD9)) % WORD % 256
  }

  /** 24 ones select the low bits of the constant. */
  lemma HexMask()
    ensures And(0xFF_FFFF, 0xFFFF_FFD9) == 0xFF_FFD9 && And(0, 0xFFFF_FFD9) == 0
  {
    hide And, Pow2;
    Pow2Of24();
    AndLowMask(0xFFFF_FFD9, 24);
    AndCommutes(0xFF_FFFF, 0xFFFF_FFD9);
    AndZero(0xFFFF_FFD9);
  }

  lemma HexFormulaExactly(v: int)
    requires 0 <= v < 16
    ensures HexFormula(v) == HexChar(v)
  {
    hide And;
    HexMask();
    assert (v - 10) % WORD == if v < 10 then v - 10 + WORD else v - 10;
  }

  method KeyToHex(text: array<cchar>, key: Key)
    requires text.Length == 65
    modifies text
    ensures text[..64] == Hex(key) && text[64] == 0
  {
    hide And, HexFormula, HexChar;
    assert Pow2(4) == 16;
    for i := 0 to 32
      invariant text[..2 * i] == Hex(key[..i])
    {
      AndLowMask(key[i], 4);
      HexFormulaExactly(key[i] / 16);
      HexFormulaExactly(And(key[i], 15));
      text[2 * i] := HexFormula(key[i] / 16);
      text[2 * i + 1] := HexFormula(And(key[i], 15));
      assert key[..i + 1][..i] == key[..i];
      assert text[..2 * (i + 1)] == text[..2 * i] + [text[2 * i], text[2 * i + 1]];
    }
    text[64] := 0;
    assert key[..32] == key;
  }

  // ---------------------------------------------------------------- decoding

  /** The masks of key_from_hex for one character: digit, letter, and failure. */
  function NumMask(num: int): int { (num - 10) % WORD / 256 % 256 }

  function AlphaMask(alpha: int): int { Xor((alpha - 10) % WORD, (alpha - 16) % WORD) / 256 % 256 }

  lemma NumMaskExactly(num: byte)
    ensures NumMask(num) == if num < 10 then 255 else 0
  {
    assert (num - 10) % WORD == if num < 10 then num - 10 + WORD else num - 10;
    assert (num - 10) % WORD / 256 == if num < 10 then 0xFF_FFFF else 0;
  }

  lemma AlphaMaskExactly(alpha: byte)
    ensures AlphaMask(alpha) == if 10 <= alpha < 16 then 255 else 0
  {
    hide Xor;
    assert Pow2(8) == 256;
    var x, y := (alpha - 10) % WORD, (alpha - 16) % WORD;
    XorHigh(x, y, 8);
    XorZero(0xFF_FFFF);
    XorCancel(0xFF_FFFF, 0);
    assert x / 256 == if alpha < 10 then 0xFF_FFFF else 0;
    assert y / 256 == if alpha < 16 then 0xFF_FFFF else 0;
    XorZero(0);
  }

  /** c ^ 48 is below ten exactly for the digits, and then is the digit. */
  lemma NumOf(c: byte)
    ensures 0 <= Xor(c, 48) < 256
    ensures Xor(c, 48) < 10 <==> '0' as int <= c <= '9' as int
    ensures Xor(c, 48) < 10 ==> Xor(c, 48) == c - '0' as int
  {
    hide Xor;
    assert Pow2(4) == 16;
    var h := c / 16;
    XorAbove(h, c % 16, 3, 4);
    XorSmall(h, 3);
    if Xor(h, 3) == 0 {
      XorSymmetric(h, 3);
      XorCancel(3, h);
      XorZero(3);
    }
    if h == 3 {
      XorZero(3);
      XorCancel(3, 0);
    }
  }

  lemma XorSmall(x: nat, y: nat)
    requires x < 16 && y < 16
    ensures 0 <= Xor(x, y) < 16
  {
    hide Xor;
    assert Pow2(4) == 16;
    XorHigh(x, y, 4);
    XorZero(0);
  }

  /** (c & ~32) - 55 in a byte is 10 to 15 exactly for the letters a to f of either case. */
  lemma AlphaOf(c: byte)
    ensures var alpha := (And(c, 0xFFFF_FFDF) - 55) % WORD % 256;
      && (10 <= alpha < 16 <==> 'A' as int <= c <= 'F' as int || 'a' as int <= c <= 'f' as int)
      && (10 <= alpha < 16 ==> alpha == HexDigit(c))
  {
    hide And;
    WithoutBit5(c);
    assert And(c, 0xFFFF_FFDF) == if c / 32 % 2 == 1 then c - 32 else c;
  }

  lemma WithoutBit5(c: byte)
    ensures And(c, 0xFFFF_FFDF) == c - 32 * (c / 32 % 2)
  {
    hide And, Pow2;
    Pow2Few();
    var h, l := c / 64, c % 64;
    AndApart(h, l, 0x3FF_FFFF, 31, 6);
    AndLowMask(l, 5);
    AndLowMask(h, 26);
  }

  lemma Pow2Few()
    ensures Pow2(5) == 32 && Pow2(6) == 64 && Pow2(26) == 0x400_0000
  {
    assert Pow2(6) == 64;
    Pow2Split(6, 20);
    Pow2Split(10, 10);
    assert Pow2(10) == 1024;
  }

  /** And with a mask of eight zeros or eight ones. */
  lemma AndByteMask(mask: int, x: byte)
    requires mask == 0 || mask == 255
    ensures And(mask, x) == if mask == 255 then x else 0
  {
    hide And;
    AndZero(x);
    LowByte(x);
    AndCommutes(255, x);
  }

  /** The value of one character, and the failure byte with its failure collected. */
  method Nibble(ch: cchar, failed: byte) returns (val: byte, ret: byte)
    ensures HexDigit(ch) >= 0 ==> val == HexDigit(ch) && ret == failed
    ensures HexDigit(ch) < 0 ==> ret == 255
  {
    hide And, Or, Xor, NumMask, AlphaMask;
    var c: byte := (ch as int) % 256;
    NumOf(c);
    AlphaOf(c);
    var num: byte := Xor(c, 48);
    var alpha: byte := (And(c, 0xFFFF_FFDF) - 55) % WORD % 256;
    NumMaskExactly(num);
    AlphaMaskExactly(alpha);
    var num0, alpha0 := NumMask(num), AlphaMask(alpha);
    MaskCases(num0, num, alpha0, alpha, failed);
    ret := Or(failed, (Or(num0, alpha0) - 1) / 256) % 256;
    val := Or(And(num0, num), And(alpha0, alpha));
  }

  /** At most one of the masks is set; without any the failure byte is. */
  lemma MaskCases(num0: int, num: byte, alpha0: int, alpha: byte, failed: byte)
    requires (num0, alpha0) in {(255, 0), (0, 255), (0, 0)}
    ensures Or(And(num0, num), And(alpha0, alpha)) == if num0 == 255 then num else if alpha0 == 255 then alpha else 0
    ensures Or(failed, (Or(num0, alpha0) - 1) / 256) == if num0 == 0 && alpha0 == 0 then -1 else failed
  {
    hide And, Or;
    AndByteMask(num0, num);
    AndByteMask(alpha0, alpha);
    OrZero(num0);
    OrZero(alpha0);
    OrZero(And(num0, num));
    OrZero(And(alpha0, alpha));
    OrZero(failed);
    OrOnes(failed);
  }

  lemma TwoNibbles(hi: int, lo: int)
    requires 0 <= hi < 16 && 0 <= lo < 16
    ensures Or(hi * 16 % 256, lo) == 16 * hi + lo
  {
    hide Or;
    assert Pow2(4) == 16;
    OrDisjoint(lo, hi, 4);
  }

  /** Accepts exactly 64 digits of either case, and gives the bytes that they spell. */
  method KeyFromHex(key: array<byte>, text: seq<cchar>) returns (ok: bool)
    requires key.Length == 32
    modifies key
    ensures ok <==> |text| == 64 && AllHex(text)
    ensures ok ==> Spells(text, key[..])
    ensures forall k: Key :: text == Hex(k) ==> ok && key[..] == k
    ensures |text| != 64 ==> key[..] == old(key[..])
  {
    hide Or, HexDigit, IsZero, Hex;
    if |text| != 64 {
      return false;
    }
    var ret: byte := 0;
    for i := 0 to 32
      invariant ret == 0 <==> AllHex(text[..2 * i])
      invariant ret == 0 ==> forall j :: 0 <= j < i ==>
        key[j] as int == 16 * HexDigit(text[2 * j]) + HexDigit(text[2 * j + 1])
    {
      assert text[..2 * (i + 1)] == text[..2 * i] + [text[2 * i], text[2 * i + 1]];
      AllHexConcat(text[..2 * i], text[2 * i], text[2 * i + 1]);
      var hi, lo;
      hi, ret := Nibble(text[2 * i], ret);
      lo, ret := Nibble(text[2 * i + 1], ret);
      if ret == 0 {
        TwoNibbles(hi, lo);
      }
      ByteOr(hi, lo);
      key[i] := Or((hi as int) * 16 % 256, lo);
    }
    IsZeroExactly(ret);
    ok := IsZero(ret);
    assert text[..64] == text;
    forall k: Key | text == Hex(k)
      ensures ok && key[..] == k
    {
      HexSpells(k);
    }
  }

  lemma ByteOr(hi: byte, lo: byte)
    ensures 0 <= Or((hi as int) * 16 % 256, lo) < 256
  {
    hide Or;
    assert Pow2(8) == 256;
    OrBound((hi as int) * 16 % 256, lo, 8);
  }

  lemma AllHexConcat(t: seq<cchar>, a: cchar, b: cchar)
    ensures AllHex(t + [a, b]) <==> AllHex(t) && HexDigit(a) >= 0 && HexDigit(b) >= 0
  {
    hide HexDigit;
    var u := t + [a, b];
    assert u[|t|] == a && u[|t| + 1] == b;
    assert forall i :: 0 <= i < |t| ==> u[i] == t[i];
  }
}
