/**
 The Java twin of the key codecs. It works on 16-bit characters and signed bytes with
 unsigned shifts, and its masks are all ones or all zeros only for characters below 256;
 what they are above is stated exactly.
 */
module JavaKey {
  import opened Bits
  import opened Ascii
  import opened KeyCodec
  import opened HexCodec
  import opened JavaLimbs
  import WgDevice

  type char16 = c: int | 0 <= c < 0x10000

  /** The unsigned right shift by eight of a 32-bit integer. */
  function Shr8(x: int): int {
    x % WORD / 256
  }

  lemma Shr8Is(x: int)
    requires -256 <= x < WORD
    ensures Shr8(x) == if x < 0 then 0xFF_FFFF else x / 256
  {
    assert x % WORD == if x < 0 then x + WORD else x;
  }

  // ---------------------------------------------------------------- one base64 character

  /** lo < c < hi as a mask, for a character below 256. */
  function Mask(lo: int, c: int, hi: int): int {
    Shr8(And(lo - c, c - hi))
  }

  /** The character formula of decodeBase64. */
  function DecodeChar16(c: char16): int {
    -1
    + And(Mask('A' as int - 1, c, 'Z' as int + 1), (c as int) - 64)
    + And(Mask('a' as int - 1, c, 'z' as int + 1), (c as int) - 70)
    + And(Mask('0' as int - 1, c, '9' as int + 1), (c as int) + 5)
    + And(Mask('+' as int - 1, c, '+' as int + 1), 63)
    + And(Mask('/' as int - 1, c, '/' as int + 1), 64)
  }

  function TrailingZeros(h: nat): (k: nat)
    requires h > 0
    ensures h % Pow2(k) == 0
  {
    if h % 2 == 1 then 0 else
      var k := TrailingZeros(h / 2);
      EvenMultiple(h, Pow2(k));
      k + 1
  }

  lemma EvenMultiple(h: nat, m: nat)
    requires m > 0 && h % 2 == 0 && h / 2 % m == 0
    ensures h % (2 * m) == 0
  {
    ModDouble(h, m);
  }

  /** What the formula computes: above 255 the table of the low byte, cut to as many bits as c / 256 ends in zeros. */
  function Sextet16(c: char16): int {
    var l := (c as int) % 256;
    if c < 256 || Sextet(l) < 0 then Sextet(l)
    else (Sextet(l) + 1) % Pow2(TrailingZeros((c as int) / 256)) - 1
  }

  /** The bits below the lowest one of h. */
  lemma {:induction false} BelowLowest(h: nat)
    requires h > 0
    ensures And(-(h as int) - 1, h - 1) == Pow2(TrailingZeros(h)) - 1
    decreases h
  {
    hide And;
    AndHalves(-(h as int) - 1, h - 1);
    if h % 2 == 1 {
      AndComplement(h / 2);
      assert (-(h as int) - 1) / 2 == -(h / 2) - 1 && (h - 1) / 2 == h / 2;
    } else {
      BelowLowest(h / 2);
      assert (-(h as int) - 1) / 2 == -(h / 2) - 1 && (h - 1) / 2 == h / 2 - 1;
    }
  }

  /** The mask of a wide character: the zeros that c / 256 ends in, if its low byte is between. */
  lemma WideMask(lo: int, c: char16, hi: int)
    requires 40 <= lo < hi <= 123 && c >= 256
    ensures var h, l := (c as int) / 256, (c as int) % 256;
      Mask(lo, c, hi) == if lo < l < hi then Pow2(TrailingZeros(h)) - 1 else 0
  {
    hide And, Pow2, TrailingZeros;
    var h, l := (c as int) / 256, (c as int) % 256;
    var x, y := lo - (c as int), (c as int) - hi;
    Pow2Of24();
    AndHigh(x, y, 8);
    AndBound(x, y);
    assert x / 256 == if l <= lo then -h else -h - 1;
    assert y / 256 == if l < hi then h - 1 else h;
    assert And(x, y) % WORD == And(x, y);
    if lo < l < hi {
      BelowLowest(h);
    } else if l <= lo {
      AndComplement(h - 1);
    } else {
      AndComplement(h);
    }
  }

  /** One masked term for a wide character whose low byte is in the range: as many bits as the mask has. */
  lemma WideTerm(lo: int, c: char16, hi: int, x: int, v: int)
    requires 40 <= lo < hi <= 123 && c >= 256
    requires var h, l := (c as int) / 256, (c as int) % 256; lo < l < hi ==> x == v || x == v + 256 * h
    ensures var h, l := (c as int) / 256, (c as int) % 256;
      And(Mask(lo, c, hi), x) == if lo < l < hi then v % Pow2(TrailingZeros(h)) else 0
  {
    hide And, Pow2, Mask, TrailingZeros;
    var h, l := (c as int) / 256, (c as int) % 256;
    WideMask(lo, c, hi);
    if lo < l < hi {
      var k := TrailingZeros(h);
      AndLowMask(x, k);
      AndCommutes(Pow2(k) - 1, x);
      SameRemainder(v, h, Pow2(k));
    } else {
      AndZero(x);
    }
  }

  lemma SameRemainder(v: int, h: int, m: int)
    requires m > 0 && h % m == 0
    ensures (v + 256 * h) % m == v % m
  {
    var q := h / m;
    assert h == m * q;
    assert v + 256 * h == m * (v / m + 256 * q) + v % m by {
      assert m * (256 * q) == 256 * (m * q);
    }
    DivModUnique(v + 256 * h, m, v / m + 256 * q, v % m);
  }

  lemma NarrowTerm(lo: int, c: byte, hi: int, x: int)
    requires 40 <= lo < hi <= 123 && (lo < c < hi ==> 0 <= x < 128)
    ensures And(Mask(lo, c, hi), x) == if lo < c < hi then x else 0
  {
    hide And, Pow2;
    Pow2Of24();
    AndSigns(lo - c, c - hi, 8);
    AndZero(x);
    if lo < c < hi {
      assert Mask(lo, c, hi) == Pow2(24) - 1;
      AndLowMask(x, 24);
      AndCommutes(Mask(lo, c, hi), x);
    } else {
      assert Mask(lo, c, hi) == 0;
    }
  }

  /** The formula, for every 16-bit character. */
  lemma DecodeChar16Exactly(c: char16)
    ensures DecodeChar16(c) == Sextet16(c)
  {
    hide DecodeChar16, Pow2, TrailingZeros, Sextet;
    if c < 256 {
      DecodeNarrow(c);
    } else {
      DecodeWide(c);
    }
  }

  lemma DecodeNarrow(c: byte)
    ensures DecodeChar16(c) == Sextet(c)
  {
    hide And, Mask;
    NarrowTerm('A' as int - 1, c, 'Z' as int + 1, (c as int) - 64);
    NarrowTerm('a' as int - 1, c, 'z' as int + 1, (c as int) - 70);
    NarrowTerm('0' as int - 1, c, '9' as int + 1, (c as int) + 5);
    NarrowTerm('+' as int - 1, c, '+' as int + 1, 63);
    NarrowTerm('/' as int - 1, c, '/' as int + 1, 64);
  }

  lemma DecodeWide(c: char16)
    requires c >= 256
    ensures var l := (c as int) % 256;
      DecodeChar16(c) == if Sextet(l) < 0 then -1 else (Sextet(l) + 1) % Pow2(TrailingZeros((c as int) / 256)) - 1
  {
    hide And, Mask, Pow2, TrailingZeros;
    var h, l := (c as int) / 256, (c as int) % 256;
    var v := Sextet(l) + 1;
    assert c as int == 256 * h + l;
    WideTerm('A' as int - 1, c, 'Z' as int + 1, (c as int) - 64, v);
    WideTerm('a' as int - 1, c, 'z' as int + 1, (c as int) - 70, v);
    WideTerm('0' as int - 1, c, '9' as int + 1, (c as int) + 5, v);
    WideTerm('+' as int - 1, c, '+' as int + 1, 63, v);
    WideTerm('/' as int - 1, c, '/' as int + 1, 64, v);
  }

  /** The table itself, which has no characters above 255. */
  function Table(c: char16): int {
    if c < 256 then Sextet(c) else -1
  }

  /** The formula is the table exactly for these characters. */
  predicate TableCharacter(c: char16) {
    var h, l := (c as int) / 256, (c as int) % 256;
    c < 256 || Sextet(l) < 0 || (Sextet(l) + 1) % Pow2(TrailingZeros(h)) == 0
  }

  lemma TableExactly(c: char16)
    ensures DecodeChar16(c) == Table(c) <==> TableCharacter(c)
  {
    hide DecodeChar16, Pow2, TrailingZeros, Sextet;
    DecodeChar16Exactly(c);
  }

  /** A character that is not of the alphabet and decodes to zero. */
  lemma WideCharacter()
    ensures DecodeChar16(0x22B) == 0 && Table(0x22B) == -1
  {
    hide DecodeChar16, TrailingZeros, Pow2, And, Mask;
    DecodeChar16Exactly(0x22B);
    TwoEndsInOneZero();
    assert 0x22B % 256 == '+' as int && 0x22B / 256 == 2;
  }

  lemma TwoEndsInOneZero()
    ensures Pow2(TrailingZeros(2)) == 2 && 63 % 2 == 1
  {
    assert TrailingZeros(1) == 0 && Pow2(1) == 2;
  }

  // ---------------------------------------------------------------- base64

  /** How a conversion to a key ends: with the key, or with one of the two exceptions. */
  datatype Decoding = Decoded(key: seq<sbyte>) | WrongLength | WrongContents

  /** The C character that decodes like this one. */
  function Twin(c: char16): (t: cchar)
    ensures Sextet(t) == Sextet16(c)
  {
    SextetRange(c);
    if Sextet16(c) < 0 then '!' as int else
      SextetOf(Sextet16(c));
      Alphabet(Sextet16(c))
  }

  lemma SextetRange(c: char16)
    ensures -1 <= Sextet16(c) < 64
  {
    hide Pow2, TrailingZeros, Sextet;
    var v, m := Sextet((c as int) % 256) + 1, Pow2(if c < 256 then 0 else TrailingZeros((c as int) / 256));
    assert 0 <= v % m <= v;
  }

  function Twins(s: seq<char16>): (t: Text)
    ensures |t| == |s| && forall i :: 0 <= i < |s| ==> t[i] == Twin(s[i])
  {
    seq(|s|, i requires 0 <= i < |s| => Twin(s[i]))
  }

  /** What the decoder takes a text of 43 characters and the padding for. */
  function Seen(str: seq<char16>): Text
    requires |str| == 44
  {
    Twins(str[..43]) + ['=' as int]
  }

  /** decodeBase64 on four characters. */
  method DecodeGroup16(src: seq<char16>) returns (val: int)
    requires |src| == 4
    ensures -0x1000000 <= val < 0x1000000
    ensures val >= 0 <==> InAlphabet(Twins(src))
    ensures val >= 0 ==> val == Word(Twins(src))
  {
    hide Or, Sextet, Sextet16, DecodeChar16, Weight, High, Pow2, Twin;
    ghost var t := Twins(src);
    val := 0;
    HighZero(t);
    for i := 0 to 4
      invariant -0x1000000 <= val < 0x1000000
      invariant val >= 0 <==> forall k :: 0 <= k < i ==> Sextet(t[k]) >= 0
      invariant val >= 0 ==> val == High(t, i) * Weight(i)
    {
      DecodeChar16Exactly(src[i]);
      if val >= 0 {
        OrSextet(High(t, i), Sextet(t[i]), i);
        HighStep(t, i);
      } else {
        OrFailed(val, Sextet(t[i]), i);
      }
      val := Or(val, DecodeChar16(src[i]) * Pow2(18 - 6 * i));
    }
    if val >= 0 {
      HighIsWord(t);
    }
  }

  /** A byte of a word, cut out with an unsigned shift and narrowed to a signed byte. */
  function ByteAt(val: int, shift: int): sbyte
    requires shift > 0
  {
    ToSByte(And(val % WORD / shift, 255))
  }

  lemma ByteAtIs(val: int)
    ensures (ByteAt(val, 0x10000) as int) % 256 == val / 0x10000 % 256
    ensures (ByteAt(val, 0x100) as int) % 256 == val / 0x100 % 256
    ensures (ByteAt(val, 1) as int) % 256 == val % 256
  {
    hide ByteAt;
    var q, r := val / WORD, val % WORD;
    ByteAtLow(val, 0x10000);
    ByteAtLow(val, 0x100);
    ByteAtLow(val, 1);
    assert r / 1 == r && val == WORD * q + r;
    HigherUnits(q, r);
    SameLow(r / 0x10000, 0x100 * q);
    SameLow(r / 0x100, 0x10000 * q);
    SameLow(r, 0x1000000 * q);
  }

  lemma ByteAtLow(val: int, shift: int)
    requires shift > 0
    ensures (ByteAt(val, shift) as int) % 256 == val % WORD / shift % 256
  {
    hide And, ToSByte;
    LowByte(val % WORD / shift);
    ByteTwice(val % WORD / shift);
  }

  lemma ByteTwice(x: int)
    ensures x % 256 % 256 == x % 256
  {
  }

  lemma HigherUnits(q: int, r: int)
    requires 0 <= r < WORD
    ensures (WORD * q + r) / 0x10000 == 0x10000 * q + r / 0x10000
    ensures (WORD * q + r) / 0x100 == 0x1000000 * q + r / 0x100
  {
    DivModUnique(WORD * q + r, 0x10000, 0x10000 * q + r / 0x10000, r % 0x10000);
    DivModUnique(WORD * q + r, 0x100, 0x1000000 * q + r / 0x100, r % 0x100);
  }

  lemma SameLow(x: int, k: int)
    ensures (256 * k + x) % 256 == x % 256
  {
  }

  method PutSigned(key: array<sbyte>, at: nat, val: int, n: nat)
    requires n <= 3 && at + n <= key.Length
    modifies key
    ensures Unsigned(key[..]) == Unsigned(old(key[..]))[..at]
      + [val / 0x10000 % 256, val / 0x100 % 256, val % 256][..n] + Unsigned(old(key[..]))[at + n..]
  {
    hide ByteAt;
    ByteAtIs(val);
    var b: seq<sbyte> := [ByteAt(val, 0x10000), ByteAt(val, 0x100), ByteAt(val, 1)];
    for i := 0 to n
      invariant forall k :: 0 <= k < at || at + n <= k < key.Length ==> key[k] == old(key[k])
      invariant forall k :: 0 <= k < i ==> key[at + k] == b[k]
    {
      key[at + i] := b[i];
    }
    ghost var was, w := Unsigned(old(key[..])), [val / 0x10000 % 256, val / 0x100 % 256, val % 256];
    assert forall j :: 0 <= j < 3 ==> (b[j] as int) % 256 == w[j];
    ghost var r := was[..at] + w[..n] + was[at + n..];
    forall k | 0 <= k < key.Length
      ensures Unsigned(key[..])[k] == r[k]
    {
      if at <= k < at + n {
        assert key[at + (k - at)] == b[k - at] && r[k] == w[k - at];
      } else {
        assert r[k] == was[k];
      }
    }
    assert Unsigned(key[..]) == r;
  }

  /** Accepts exactly the texts that are seen as the base64 of some key, and gives that key. */
  method FromBase64(str: seq<char16>) returns (r: Decoding)
    ensures r.WrongLength? <==> |str| != 44 || str[43] != '=' as int
    ensures r.Decoded? <==> |str| == 44 && str[43] == '=' as int && IsKeyText(Seen(str))
    ensures r.Decoded? ==> |r.key| == 32 && Base64(Unsigned(r.key)) == Seen(str)
  {
    hide Base64, Or, Sextet, TopBit, KeyCodec.Decoded, Word, IsKeyText, Twins, Unsigned;
    if |str| != 44 || str[43] != '=' as int {
      return WrongLength;
    }
    ghost var text := Seen(str);
    var key := new sbyte[32](_ => 0);
    var ret: byte := 0;
    DecodedStart(text, Unsigned(key[..]));
    for i := 0 to 10
      invariant KeyCodec.Decoded(text, Unsigned(key[..]), i, ret)
    {
      GroupSeen(str, i);
      var val := DecodeGroup16(str[4 * i..4 * i + 4]);
      TopBitIsSign(val);
      Collect(ret, TopBit(val));
      ghost var was, before := Unsigned(key[..]), ret;
      ret := Or(ret, TopBit(val));
      PutSigned(key, 3 * i, val, 3);
      DecodedNext(text, was, Unsigned(key[..]), i, before, val, ret);
    }
    DecodedGroups(text, Unsigned(key[..]), ret);
    r := LastGroup16(str, key, ret);
  }

  lemma GroupSeen(str: seq<char16>, i: nat)
    requires |str| == 44 && i < 10
    ensures Seen(str)[4 * i..4 * i + 4] == Twins(str[4 * i..4 * i + 4])
  {
    hide Twin;
  }

  /** The last group, of two bytes, and the verdict. */
  method LastGroup16(str: seq<char16>, key: array<sbyte>, failed: byte) returns (r: Decoding)
    requires key.Length == 32 && |str| == 44 && str[43] == '=' as int
    requires failed == 0 <==> InAlphabet(Seen(str)[..40])
    requires failed == 0 ==> Quads(Unsigned(key[..])[..30]) == Seen(str)[..40]
    modifies key
    ensures !r.WrongLength? && (r.Decoded? <==> IsKeyText(Seen(str)))
    ensures r.Decoded? ==> |r.key| == 32 && Base64(Unsigned(r.key)) == Seen(str)
  {
    hide Base64, Quads, Quad, Word, And, Or, Sextet, TopBit, Twin, Sextet16;
    ghost var text := Seen(str);
    var end: seq<char16> := [str[40], str[41], str[42], 'A' as int];
    ghost var group := [text[40], text[41], text[42], 'A' as int];
    TwinOfA();
    assert Twins(end) == group;
    var val := DecodeGroup16(end);
    LowByte(val);
    TopBitIsSign(val);
    Collect(TopBit(val), And(val, 255));
    var last := Or(TopBit(val), And(val, 255));
    Collect(failed, last);
    var ret := Or(failed, last);
    ghost var done := Unsigned(key[..])[..30];
    PutSigned(key, 30, val, 2);
    LastShape(text, group, val);
    KeyShapeExactly(text);
    if ret != 0 {
      return WrongContents;
    }
    ghost var k: seq<byte> := Unsigned(key[..]);
    assert k[..30] == done && k[30] == val / 0x10000 && k[31] == val / 0x100 % 256;
    QuadOfWord(group);
    Base64OfKey(k);
    assert text == text[..40] + group[..3] + ['=' as int];
    return Decoded(key[..]);
  }

  lemma TwinOfA()
    ensures Twin('A' as int) == 'A' as int
  {
  }

  ghost predicate IsKeyText16(str: seq<char16>) {
    exists k: WgDevice.Key :: Base64(k) == str
  }

  /** What is accepted is the base64 of a key exactly when no character is above 255. */
  lemma FromBase64Exactly(str: seq<char16>)
    requires |str| == 44 && str[43] == '=' as int
    ensures IsKeyText16(str) <==> IsKeyText(Seen(str)) && forall i :: 0 <= i < 43 ==> str[i] < 256
  {
    hide Base64, Sextet16, Sextet, Twin;
    if IsKeyText16(str) {
      var k: WgDevice.Key :| Base64(k) == str;
      KeyHasShape(k);
      SeenItself(str);
    }
    if IsKeyText(Seen(str)) && forall i :: 0 <= i < 43 ==> str[i] < 256 {
      var k: WgDevice.Key :| Base64(k) == Seen(str);
      KeyHasShape(k);
      forall i | 0 <= i < 43
        ensures 0 <= Table(str[i])
      {
        assert Seen(str)[..43][i] == Twin(str[i]);
        NarrowTwin(str[i]);
      }
      SeenItself(str);
    }
  }

  lemma NarrowTwin(c: char16)
    requires c < 256
    ensures Table(c) == Sextet(Twin(c))
  {
  }

  lemma SeenItself(str: seq<char16>)
    requires |str| == 44 && str[43] == '=' as int
    requires forall i :: 0 <= i < 43 ==> 0 <= Table(str[i])
    ensures Seen(str) == str
  {
    hide Table, Twin;
    forall i | 0 <= i < 43
      ensures Twin(str[i]) == str[i]
    {
      TwinOfTable(str[i]);
    }
  }

  lemma TwinOfTable(c: char16)
    requires 0 <= Table(c)
    ensures Twin(c) == c
  {
    hide TrailingZeros, Pow2, Alphabet;
    assert Sextet16(c) == Sextet(c);
  }

  /** A text that is not base64 and is taken for the key of zeros. */
  lemma WideText()
    ensures var str: seq<char16> := seq(43, _ => 0x22B) + ['=' as int];
      IsKeyText(Seen(str)) && !IsKeyText16(str)
      && forall k: WgDevice.Key :: Base64(k) == Seen(str) ==> k == WgDevice.ZeroKey()
  {
    hide Sextet16, Base64, Sextet, Twin, KeyShape, IsKeyText, IsKeyText16;
    var str: seq<char16> := seq(43, _ => 0x22B) + ['=' as int];
    WideTwin();
    var zeros: Text := seq(43, _ => 'A' as int) + ['=' as int];
    assert Seen(str) == zeros;
    ZeroText();
    assert IsKeyText(zeros) by {
      assert Base64(WgDevice.ZeroKey()) == zeros;
      KeyTextIs(WgDevice.ZeroKey());
    }
    assert str[0] == 0x22B;
    FromBase64Exactly(str);
    forall k: WgDevice.Key | Base64(k) == zeros
      ensures k == WgDevice.ZeroKey()
    {
      Base64Injective(k, WgDevice.ZeroKey());
    }
  }

  lemma KeyTextIs(k: WgDevice.Key)
    ensures IsKeyText(Base64(k))
  {
  }

  lemma WideTwin()
    ensures Twin(0x22B) == 'A' as int
  {
    hide DecodeChar16;
    WideCharacter();
    DecodeChar16Exactly(0x22B);
  }

  /** The base64 of the key of zeros. */
  lemma ZeroText()
    ensures Base64(WgDevice.ZeroKey()) == seq(43, _ => 'A' as int) + ['=' as int]
  {
    hide Base64, Quads, Quad;
    var k := WgDevice.ZeroKey();
    Base64OfKey(k);
    ZeroQuads(k[..30]);
    ZeroQuad();
  }

  lemma ZeroQuad()
    ensures Quad(0, 0, 0) == ['A' as int, 'A' as int, 'A' as int, 'A' as int]
  {
  }

  lemma {:induction false} ZeroQuads(b: seq<byte>)
    requires |b| % 3 == 0 && forall i :: 0 <= i < |b| ==> b[i] == 0
    ensures forall i :: 0 <= i < |Quads(b)| ==> Quads(b)[i] == 'A' as int
    decreases |b|
  {
    hide Quad;
    if b != [] {
      ZeroQuads(b[..|b| - 3]);
      ZeroQuad();
    }
  }

  // ---------------------------------------------------------------- encoding

  /** The character formula of encodeBase64. */
  function EncodeChar16(v: int): int {
    v + 'A' as int + And(Shr8(25 - v), 6) - And(Shr8(51 - v), 75) - And(Shr8(61 - v), 15) + And(Shr8(62 - v), 3)
  }

  lemma SignTerm(d: int, x: int)
    requires -256 <= d < 256 && 0 <= x < 128
    ensures And(Shr8(d), x) == if d < 0 then x else 0
  {
    hide And, Pow2;
    Pow2Of24();
    AndZero(x);
    if d < 0 {
      assert Shr8(d) == Pow2(24) - 1;
      AndLowMask(x, 24);
      AndCommutes(Shr8(d), x);
    } else {
      assert Shr8(d) == 0;
    }
  }

  lemma EncodeChar16Exactly(v: int)
    requires 0 <= v < 64
    ensures EncodeChar16(v) == Alphabet(v)
  {
    hide And, Shr8;
    SignTerm(25 - v, 6);
    SignTerm(51 - v, 75);
    SignTerm(61 - v, 15);
    SignTerm(62 - v, 3);
  }

  /** The four six-bit inputs of encodeBase64, from signed bytes. */
  function Input(a: sbyte, b: sbyte, c: sbyte): seq<int> {
    [And((a as int) % WORD / 4, 63),
     And(Or((a as int) * 16, And(b, 255) / 16), 63),
     And(Or((b as int) * 4, And(c, 255) / 64), 63),
     And(c, 63)]
  }

  lemma InputIs(a: sbyte, b: sbyte, c: sbyte)
    ensures var x, y, z := (a as int) % 256, (b as int) % 256, (c as int) % 256;
      Input(a, b, c) == [x / 4, 16 * (x % 4) + y / 16, 4 * (y % 16) + z / 64, z % 64]
  {
    hide And, Or;
    LowByte(b);
    LowByte(c);
    FirstInput(a);
    SecondInput(a, (b as int) % 256 / 16);
    ThirdInput(b, (c as int) % 256 / 64);
    FourthInput(c);
  }

  lemma FirstInput(a: sbyte)
    ensures And((a as int) % WORD / 4, 63) == (a as int) % 256 / 4
  {
    hide And, Pow2;
    SmallPowers();
    AndLowMask((a as int) % WORD / 4, 6);
    SignedLow(a);
  }

  lemma SecondInput(a: sbyte, q: nat)
    requires q < 16
    ensures And(Or((a as int) * 16, q), 63) == 16 * ((a as int) % 256 % 4) + q
  {
    hide And, Or, Pow2;
    SmallPowers();
    OrDisjoint(q, a, 4);
    AndLowMask((a as int) * 16 + q, 6);
    DivModUnique((a as int) * 16 + q, 64, (a as int) / 4, 16 * ((a as int) % 4) + q);
  }

  lemma ThirdInput(b: sbyte, r: nat)
    requires r < 4
    ensures And(Or((b as int) * 4, r), 63) == 4 * ((b as int) % 256 % 16) + r
  {
    hide And, Or, Pow2;
    SmallPowers();
    OrDisjoint(r, b, 2);
    AndLowMask((b as int) * 4 + r, 6);
    FourTimes(b, r);
  }

  lemma FourTimes(x: int, r: nat)
    requires r < 4
    ensures (x * 4 + r) % 64 == 4 * (x % 256 % 16) + r
  {
    var q, l := x / 16, x % 16;
    assert x == 16 * q + l;
    DivModUnique(x * 4 + r, 64, q, 4 * l + r);
    SixteenOf(x);
  }

  lemma SixteenOf(x: int)
    ensures x % 256 % 16 == x % 16
  {
    var q, r := x / 256, x % 256;
    DivModUnique(x, 16, 16 * q + r / 16, r % 16);
  }

  lemma FourthInput(c: sbyte)
    ensures And(c, 63) == (c as int) % 256 % 64
  {
    hide And, Pow2;
    SmallPowers();
    AndLowMask(c, 6);
  }

  lemma SmallPowers()
    ensures Pow2(2) == 4 && Pow2(4) == 16 && Pow2(6) == 64
  {
  }

  lemma SignedLow(a: sbyte)
    ensures (a as int) % WORD / 4 % 64 == (a as int) % 256 / 4
  {
    assert (a as int) % WORD == if a < 0 then (a as int) + WORD else a;
    assert (a as int) % 256 == if a < 0 then (a as int) + 256 else a;
    if a < 0 {
      DivModUnique(((a as int) + WORD) / 4, 64, WORD / 256 - 1, ((a as int) + 256) / 4);
    }
  }

  method EncodeGroup16(dest: array<char16>, at: nat, a: sbyte, b: sbyte, c: sbyte)
    requires at + 4 <= dest.Length
    modifies dest
    ensures dest[..] ==
      old(dest[..at]) + Quad((a as int) % 256, (b as int) % 256, (c as int) % 256) + old(dest[at + 4..])
  {
    hide Quad, EncodeChar16, Alphabet, Input;
    ghost var q := Quad((a as int) % 256, (b as int) % 256, (c as int) % 256);
    InputIs(a, b, c);
    QuadBytes((a as int) % 256, (b as int) % 256, (c as int) % 256);
    var input := Input(a, b, c);
    for i := 0 to 4
      invariant forall k :: 0 <= k < i ==> dest[at + k] == q[k]
      invariant dest[..at] == old(dest[..at]) && dest[at + 4..] == old(dest[at + 4..])
    {
      EncodeChar16Exactly(input[i]);
      AlphabetPositive(input[i]);
      dest[at + i] := EncodeChar16(input[i]);
    }
    assert dest[at..at + 4] == q;
    assert dest[..] == dest[..at] + dest[at..at + 4] + dest[at + 4..];
  }

  lemma AlphabetPositive(v: int)
    requires 0 <= v < 64
    ensures Alphabet(v) > 0
  {
  }

  /** The base64 of the key; what FromBase64 gives back. */
  method ToBase64(key: seq<sbyte>) returns (str: seq<char16>)
    requires |key| == 32
    ensures str == Base64(Unsigned(key))
  {
    hide Quads, Quad, Base64;
    var output := new char16[44](_ => 0);
    ghost var u: seq<byte> := Unsigned(key);
    QuadsEmpty();
    for i := 0 to 10
      invariant output[..4 * i] == Quads(u[..3 * i])
    {
      EncodeGroup16(output, 4 * i, key[3 * i], key[3 * i + 1], key[3 * i + 2]);
      QuadsSnoc(u[..3 * i], u[3 * i], u[3 * i + 1], u[3 * i + 2]);
      assert u[..3 * (i + 1)] == u[..3 * i] + [u[3 * i], u[3 * i + 1], u[3 * i + 2]];
    }
    EncodeGroup16(output, 40, key[30], key[31], 0);
    output[43] := '=' as int;
    Base64OfKey(u);
    assert output[40..43] == Quad(u[30], u[31], 0)[..3];
    return output[..];
  }

  /** Encoding and decoding a key. */
  method ThereAndBack(key: seq<sbyte>) returns (r: Decoding)
    requires |key| == 32
    ensures r == Decoded(key)
  {
    hide Base64, Unsigned, Seen, IsKeyText;
    var str := ToBase64(key);
    KeyHasShape(Unsigned(key));
    KeySeen(str, Unsigned(key));
    KeyTextIs(Unsigned(key));
    r := FromBase64(str);
    Base64Injective(Unsigned(key), Unsigned(r.key));
    SameSigned(key, r.key);
  }

  lemma KeySeen(str: seq<char16>, k: WgDevice.Key)
    requires str == Base64(k)
    ensures |str| == 44 && str[43] == '=' as int && Seen(str) == str
  {
    hide Base64, Sextet;
    KeyHasShape(k);
    var t := Base64(k);
    assert forall i :: 0 <= i < 43 ==> t[..43][i] == t[i];
    SeenItself(str);
  }

  lemma SameSigned(a: seq<sbyte>, b: seq<sbyte>)
    requires Unsigned(a) == Unsigned(b)
    ensures a == b
  {
    assert |a| == |b|;
    forall i | 0 <= i < |a|
      ensures a[i] == b[i]
    {
      assert Unsigned(a)[i] == Unsigned(b)[i];
    }
  }
}
