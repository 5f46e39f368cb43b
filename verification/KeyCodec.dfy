/**
 The base64 form of a key, as in section 4 of RFC 4648. The program computes each
 character without branches, by masks made of sign bits; the reference here is the
 table of the standard.
 */
module KeyCodec {
  import opened Bits
  import opened Ascii
  import WgDevice

  type Key = WgDevice.Key

  // ---------------------------------------------------------------- the standard

  /** Table 1 of RFC 4648. */
  function Alphabet(v: int): cchar
    requires 0 <= v < 64
  {
    if v < 26 then 'A' as int + v
    else if v < 52 then 'a' as int + (v - 26)
    else if v < 62 then '0' as int + (v - 52)
    else if v == 62 then '+' as int
    else '/' as int
  }

  /** The table read backwards; -1 outside it. */
  function Sextet(c: cchar): (v: int)
    ensures -1 <= v < 64
    ensures v >= 0 ==> Alphabet(v) == c
    ensures v < 0 ==> forall u :: 0 <= u < 64 ==> Alphabet(u) != c
  {
    if 'A' as int <= c <= 'Z' as int then c - 'A' as int
    else if 'a' as int <= c <= 'z' as int then c - 'a' as int + 26
    else if '0' as int <= c <= '9' as int then c - '0' as int + 52
    else if c == '+' as int then 62
    else if c == '/' as int then 63
    else -1
  }

  lemma SextetOf(v: int)
    requires 0 <= v < 64
    ensures Sextet(Alphabet(v)) == v
  {
  }

  /** Three bytes as one 24-bit number, read as four characters of six bits. */
  function Quad(a: byte, b: byte, c: byte): (q: seq<cchar>)
    ensures |q| == 4
  {
    var v := 0x10000 * (a as int) + 0x100 * (b as int) + (c as int);
    [Alphabet(v / 0x40000 % 64), Alphabet(v / 0x1000 % 64), Alphabet(v / 0x40 % 64), Alphabet(v % 64)]
  }

  function Quads(b: seq<byte>): (t: seq<cchar>)
    requires |b| % 3 == 0
    ensures |t| == |b| / 3 * 4
    decreases |b|
  {
    if b == [] then [] else
      var n := |b| - 3;
      Quads(b[..n]) + Quad(b[n], b[n + 1], b[n + 2])
  }

  /** Base64 of any byte string, with its padding. */
  function Base64(b: seq<byte>): seq<cchar> {
    var n := |b| - |b| % 3;
    Quads(b[..n]) +
    (match |b| % 3
     case 0 => []
     case 1 => Quad(b[n], 0, 0)[..2] + ['=' as int, '=' as int]
     case _ => Quad(b[n], b[n + 1], 0)[..3] + ['=' as int])
  }

  // ---------------------------------------------------------------- inverse

  ghost predicate InAlphabet(t: seq<cchar>) {
    forall i :: 0 <= i < |t| ==> Sextet(t[i]) >= 0
  }

  function Word(t: seq<cchar>): (v: int)
    requires |t| == 4 && forall i :: 0 <= i < 4 ==> Sextet(t[i]) >= 0
    ensures 0 <= v < 0x1000000
  {
    0x40000 * Sextet(t[0]) + 0x1000 * Sextet(t[1]) + 0x40 * Sextet(t[2]) + Sextet(t[3])
  }

  /** The four characters of a 24-bit number are those of its three bytes. */
  lemma QuadOfWord(t: seq<cchar>)
    requires |t| == 4 && InAlphabet(t)
    ensures var v := Word(t); Quad(v / 0x10000, v / 0x100 % 256, v % 256) == t
  {
    hide Sextet, Alphabet, Quad;
    QuadOf(Word(t));
    WordDigits(Sextet(t[0]), Sextet(t[1]), Sextet(t[2]), Sextet(t[3]));
    assert t == [t[0], t[1], t[2], t[3]];
  }

  lemma QuadOf(v: int)
    requires 0 <= v < 0x1000000
    ensures Quad(v / 0x10000, v / 0x100 % 256, v % 256) ==
      [Alphabet(v / 0x40000 % 64), Alphabet(v / 0x1000 % 64), Alphabet(v / 0x40 % 64), Alphabet(v % 64)]
  {
    hide Alphabet;
    ThreeBytes(v);
  }

  lemma ThreeBytes(v: int)
    requires 0 <= v < 0x1000000
    ensures v == 0x10000 * (v / 0x10000) + 0x100 * (v / 0x100 % 256) + v % 256
    ensures 0 <= v / 0x10000 < 256 && 0 <= v / 0x100 % 256 < 256
  {
    var w := v / 0x100;
    DivModUnique(v, 0x10000, w / 256, 0x100 * (w % 256) + v % 256);
  }

  lemma WordDigits(a: int, b: int, c: int, d: int)
    requires 0 <= a < 64 && 0 <= b < 64 && 0 <= c < 64 && 0 <= d < 64
    ensures var v := 0x40000 * a + 0x1000 * b + 0x40 * c + d;
      v / 0x40000 % 64 == a && v / 0x1000 % 64 == b && v / 0x40 % 64 == c && v % 64 == d
  {
    var v := 0x40000 * a + 0x1000 * b + 0x40 * c + d;
    assert v / 0x40 == 0x1000 * a + 0x40 * b + c;
    assert v / 0x1000 == 0x40 * a + b;
    assert v / 0x40000 == a;
  }

  /** Where the bits of the three bytes go. */
  lemma QuadBytes(a: byte, b: byte, c: byte)
    ensures Quad(a, b, c) ==
      [Alphabet(a / 4), Alphabet(16 * (a % 4) + b / 16), Alphabet(4 * (b % 16) + c / 64), Alphabet(c % 64)]
  {
    hide Alphabet;
    WordDigits(a / 4, 16 * (a % 4) + b / 16, 4 * (b % 16) + c / 64, c % 64);
    assert a as int == 4 * (a / 4) + a % 4 && b as int == 16 * (b / 16) + b % 16 && c as int == 64 * (c / 64) + c % 64;
  }

  lemma QuadSextets(a: byte, b: byte, c: byte)
    ensures var q := Quad(a, b, c);
      && InAlphabet(q)
      && Sextet(q[0]) == a / 4 && Sextet(q[1]) == 16 * (a % 4) + b / 16
      && Sextet(q[2]) == 4 * (b % 16) + c / 64 && Sextet(q[3]) == c % 64
  {
    hide Sextet, Alphabet, Quad;
    QuadBytes(a, b, c);
    SextetOf(a / 4);
    SextetOf(16 * (a % 4) + b / 16);
    SextetOf(4 * (b % 16) + c / 64);
    SextetOf(c % 64);
  }

  lemma QuadInjective(a: byte, b: byte, c: byte, a': byte, b': byte, c': byte)
    requires Quad(a, b, c) == Quad(a', b', c')
    ensures a == a' && b == b' && c == c'
  {
    hide Quad, Sextet;
    QuadSextets(a, b, c);
    QuadSextets(a', b', c');
  }

  lemma {:induction false} QuadsInjective(b: seq<byte>, b': seq<byte>)
    requires |b| == |b'| && |b| % 3 == 0 && Quads(b) == Quads(b')
    ensures b == b'
    decreases |b|
  {
    hide Quad;
    if b != [] {
      var n := |b| - 3;
      var q, q' := Quad(b[n], b[n + 1], b[n + 2]), Quad(b'[n], b'[n + 1], b'[n + 2]);
      SameParts(Quads(b[..n]), q, Quads(b'[..n]), q');
      QuadsInjective(b[..n], b'[..n]);
      QuadInjective(b[n], b[n + 1], b[n + 2], b'[n], b'[n + 1], b'[n + 2]);
      LastThree(b);
      LastThree(b');
    }
  }

  lemma LastThree(b: seq<byte>)
    requires |b| >= 3
    ensures var n := |b| - 3; b == b[..n] + [b[n], b[n + 1], b[n + 2]]
  {
  }

  lemma SameParts(x: seq<cchar>, y: seq<cchar>, x': seq<cchar>, y': seq<cchar>)
    requires |x| == |x'| && x + y == x' + y'
    ensures x == x' && y == y'
  {
    assert (x + y)[..|x|] == x && (x' + y')[..|x'|] == x';
    assert (x + y)[|x|..] == y && (x' + y')[|x'|..] == y';
  }

  lemma {:induction false} QuadsInAlphabet(b: seq<byte>)
    requires |b| % 3 == 0
    ensures InAlphabet(Quads(b))
    decreases |b|
  {
    hide Quad, Sextet;
    if b != [] {
      var n := |b| - 3;
      QuadsInAlphabet(b[..n]);
      QuadSextets(b[n], b[n + 1], b[n + 2]);
    }
  }

  lemma QuadsSnoc(b: seq<byte>, x: byte, y: byte, z: byte)
    requires |b| % 3 == 0
    ensures Quads(b + [x, y, z]) == Quads(b) + Quad(x, y, z)
  {
    assert (b + [x, y, z])[..|b|] == b;
  }

  // ---------------------------------------------------------------- keys

  /** The form of the text of a key, said character by character. */
  ghost predicate KeyShape(t: seq<cchar>) {
    |t| == 44 && t[43] == '=' as int && InAlphabet(t[..43]) && Sextet(t[42]) % 4 == 0
  }

  lemma Base64OfKey(k: Key)
    ensures Base64(k) == Quads(k[..30]) + Quad(k[30], k[31], 0)[..3] + ['=' as int]
    ensures |Base64(k)| == 44
  {
  }

  /** The last group: the third character carries no bits beyond the two bytes. */
  lemma LastGroup(a: byte, b: byte)
    ensures var q := Quad(a, b, 0); InAlphabet(q[..3]) && Sextet(q[2]) % 4 == 0 && q[3] == 'A' as int
  {
    hide Sextet, Quad, Alphabet;
    QuadSextets(a, b, 0);
    QuadBytes(a, b, 0);
    AlphabetZero();
  }

  lemma AlphabetZero()
    ensures Alphabet(0) == 'A' as int
  {
  }

  lemma KeyHasShape(k: Key)
    ensures KeyShape(Base64(k))
  {
    hide Quads, Quad, Base64, Sextet;
    Base64OfKey(k);
    QuadsInAlphabet(k[..30]);
    LastGroup(k[30], k[31]);
    var t, q := Base64(k), Quad(k[30], k[31], 0);
    forall i | 0 <= i < 43
      ensures Sextet(t[i]) >= 0
    {
      if i >= 40 {
        assert t[i] == q[..3][i - 40];
      } else {
        assert t[i] == Quads(k[..30])[i];
      }
    }
    assert t[42] == q[2];
  }

  lemma Base64Injective(k: Key, k': Key)
    requires Base64(k) == Base64(k')
    ensures k == k'
  {
    hide Quads, Quad, Base64;
    Base64OfKey(k);
    Base64OfKey(k');
    var t := Base64(k);
    var q, q' := Quad(k[30], k[31], 0), Quad(k'[30], k'[31], 0);
    assert t[..40] == Quads(k[..30]) && t[..40] == Quads(k'[..30]);
    assert t[40..43] == q[..3] && t[40..43] == q'[..3];
    QuadsInjective(k[..30], k'[..30]);
    LastGroup(k[30], k[31]);
    LastGroup(k'[30], k'[31]);
    assert q == q[..3] + [q[3]] && q' == q'[..3] + [q'[3]];
    QuadInjective(k[30], k[31], 0, k'[30], k'[31], 0);
    assert k == k[..30] + [k[30], k[31]] && k' == k'[..30] + [k'[30], k'[31]];
  }

  function Triples(t: seq<cchar>): (b: seq<byte>)
    requires |t| % 4 == 0 && forall i :: 0 <= i < |t| ==> Sextet(t[i]) >= 0
    ensures |b| == |t| / 4 * 3
    decreases |t|
  {
    if t == [] then [] else
      var n := |t| - 4;
      var v := Word(t[n..]);
      Triples(t[..n]) + [v / 0x10000, v / 0x100 % 256, v % 256]
  }

  lemma {:induction false} QuadsTriples(t: seq<cchar>)
    requires |t| % 4 == 0 && InAlphabet(t)
    ensures Quads(Triples(t)) == t
    decreases |t|
  {
    hide Quad, Sextet, Word;
    if t != [] {
      var n := |t| - 4;
      QuadsTriples(t[..n]);
      var v := Word(t[n..]);
      QuadsSnoc(Triples(t[..n]), v / 0x10000, v / 0x100 % 256, v % 256);
      QuadOfWord(t[n..]);
      assert t == t[..n] + t[n..];
    }
  }

  ghost predicate IsKeyText(t: seq<cchar>) {
    exists k: Key :: Base64(k) == t
  }

  /** Exactly the texts of this form are the base64 of some key. */
  lemma KeyShapeExactly(t: seq<cchar>)
    ensures KeyShape(t) <==> IsKeyText(t)
  {
    if KeyShape(t) {
      var k := KeyOfShape(t);
    }
    if IsKeyText(t) {
      var k: Key :| Base64(k) == t;
      KeyHasShape(k);
    }
  }

  lemma KeyOfShape(t: seq<cchar>) returns (k: Key)
    requires KeyShape(t)
    ensures Base64(k) == t
  {
    hide Quads, Quad, Base64, Sextet, Word, Triples;
    var last := t[40..43] + ['A' as int];
    SextetOfA();
    assert forall i :: 0 <= i < 3 ==> last[i] == t[40 + i];
    assert forall i :: 0 <= i < 43 ==> t[..43][i] == t[i];
    QuadsTriples(t[..40]);
    var v := Word(last);
    k := Triples(t[..40]) + [v / 0x10000, v / 0x100 % 256];
    QuadOfWord(last);
    LowByteZero(last);
    Base64OfKey(k);
    assert k[..30] == Triples(t[..40]);
    assert t == t[..40] + last[..3] + ['=' as int];
  }

  lemma SextetOfA()
    ensures Sextet('A' as int) == 0
  {
  }

  lemma LowByteZero(t: seq<cchar>)
    requires |t| == 4 && InAlphabet(t) && Sextet(t[3]) == 0
    ensures Word(t) % 256 == 0 <==> Sextet(t[2]) % 4 == 0
  {
    hide Sextet;
    var c := Sextet(t[2]);
    var high := 0x400 * Sextet(t[0]) + 0x10 * Sextet(t[1]) + c / 4;
    assert Word(t) == 0x100 * high + 0x40 * (c % 4);
    DivModUnique(Word(t), 0x100, high, 0x40 * (c % 4));
  }

  // ---------------------------------------------------------------- masks

  /** lo < c < hi as an all-ones mask: the sign of both differences, shifted down. */
  function Between(lo: int, c: int, hi: int): int {
    And(lo - c, c - hi) / 256
  }

  lemma BetweenMask(lo: int, c: cchar, hi: int)
    requires 40 <= lo < hi <= 123
    ensures Between(lo, c, hi) == if lo < c < hi then -1 else 0
  {
    hide And;
    assert Pow2(8) == 256;
    AndSigns(lo - c, c - hi, 8);
  }

  /** The character formula of decode_base64. */
  function DecodeChar(c: cchar): int {
    -1
    + And(Between('A' as int - 1, c, 'Z' as int + 1), c - 64)
    + And(Between('a' as int - 1, c, 'z' as int + 1), c - 70)
    + And(Between('0' as int - 1, c, '9' as int + 1), (c as int) + 5)
    + And(Between('+' as int - 1, c, '+' as int + 1), 63)
    + And(Between('/' as int - 1, c, '/' as int + 1), 64)
  }

  /** The sum of masked terms is the table of the standard. */
  lemma DecodeCharExactly(c: cchar)
    ensures DecodeChar(c) == Sextet(c)
  {
    hide And, Between;
    BetweenMask('A' as int - 1, c, 'Z' as int + 1);
    BetweenMask('a' as int - 1, c, 'z' as int + 1);
    BetweenMask('0' as int - 1, c, '9' as int + 1);
    BetweenMask('+' as int - 1, c, '+' as int + 1);
    BetweenMask('/' as int - 1, c, '/' as int + 1);
    AndSelect(c - 64, Between('A' as int - 1, c, 'Z' as int + 1));
    AndSelect(c - 70, Between('a' as int - 1, c, 'z' as int + 1));
    AndSelect((c as int) + 5, Between('0' as int - 1, c, '9' as int + 1));
    AndSelect(63, Between('+' as int - 1, c, '+' as int + 1));
    AndSelect(64, Between('/' as int - 1, c, '/' as int + 1));
  }

  /** The character formula of encode_base64; each mask is the sign of a difference. */
  function EncodeChar(v: int): int {
    v + 'A' as int + And((25 - v) / 256, 6) - And((51 - v) / 256, 75) - And((61 - v) / 256, 15) + And((62 - v) / 256, 3)
  }

  lemma EncodeCharExactly(v: int)
    requires 0 <= v < 64
    ensures EncodeChar(v) == Alphabet(v)
  {
    hide And;
    AndSelect(6, (25 - v) / 256);
    AndSelect(75, (51 - v) / 256);
    AndSelect(15, (61 - v) / 256);
    AndSelect(3, (62 - v) / 256);
  }

  // ---------------------------------------------------------------- encoding

  /** The four six-bit inputs of encode_base64. */
  lemma SixBits(a: byte, b: byte, c: byte)
    ensures And(a / 4, 63) == a / 4
    ensures And(Or((a as int) * 16, b / 16), 63) == 16 * (a % 4) + b / 16
    ensures And(Or((b as int) * 4, c / 64), 63) == 4 * (b % 16) + c / 64
    ensures And(c, 63) == c % 64
  {
    hide And, Or;
    assert Pow2(6) == 64 && Pow2(4) == 16 && Pow2(2) == 4;
    AndLowMask(a / 4, 6);
    AndLowMask(c, 6);
    OrDisjoint(b / 16, a, 4);
    AndLowMask((a as int) * 16 + b / 16, 6);
    OrDisjoint(c / 64, b, 2);
    AndLowMask((b as int) * 4 + c / 64, 6);
  }

  method EncodeGroup(dest: array<cchar>, at: nat, a: byte, b: byte, c: byte)
    requires at + 4 <= dest.Length
    modifies dest
    ensures dest[..] == old(dest[..at]) + Quad(a, b, c) + old(dest[at + 4..])
  {
    hide And, Or, Quad, EncodeChar, Alphabet;
    SixBits(a, b, c);
    QuadBytes(a, b, c);
    var input := [And(a / 4, 63), And(Or((a as int) * 16, b / 16), 63), And(Or((b as int) * 4, c / 64), 63),
      And(c, 63)];
    for i := 0 to 4
      invariant forall k :: 0 <= k < i ==> dest[at + k] == Quad(a, b, c)[k]
      invariant dest[..at] == old(dest[..at]) && dest[at + 4..] == old(dest[at + 4..])
    {
      EncodeCharExactly(input[i]);
      dest[at + i] := EncodeChar(input[i]);
    }
    assert dest[at..at + 4] == Quad(a, b, c);
    assert dest[..] == dest[..at] + dest[at..at + 4] + dest[at + 4..];
  }

  method KeyToBase64(text: array<cchar>, key: Key)
    requires text.Length == 45
    modifies text
    ensures text[..44] == Base64(key) && text[44] == 0
  {
    hide Quads, Quad, Base64;
    QuadsEmpty();
    for i := 0 to 10
      invariant text[..4 * i] == Quads(key[..3 * i])
    {
      EncodeGroup(text, 4 * i, key[3 * i], key[3 * i + 1], key[3 * i + 2]);
      QuadsSnoc(key[..3 * i], key[3 * i], key[3 * i + 1], key[3 * i + 2]);
      assert key[..3 * (i + 1)] == key[..3 * i] + [key[3 * i], key[3 * i + 1], key[3 * i + 2]];
    }
    EncodeGroup(text, 40, key[30], key[31], 0);
    text[43] := '=' as int;
    text[44] := 0;
    Base64OfKey(key);
    assert text[40..43] == Quad(key[30], key[31], 0)[..3];
  }

  lemma QuadsEmpty()
    ensures Quads([]) == []
  {
  }

  // ---------------------------------------------------------------- decoding

  /** The weight of the i-th of four groups of six bits. */
  function Weight(i: nat): (w: nat)
    requires i <= 4
    ensures w > 0 && (i > 0 ==> Weight(i - 1) == 64 * w)
  {
    match i case 0 => 0x1000000 case 1 => 0x40000 case 2 => 0x1000 case 3 => 0x40 case _ => 1
  }

  lemma WeightIsShift(i: nat)
    requires i < 4
    ensures Weight(i + 1) == Pow2(18 - 6 * i) && Weight(i) == Pow2(24 - 6 * i)
  {
    assert Pow2(6) == 64;
    Pow2Split(6, 6);
    Pow2Split(12, 6);
    Pow2Split(18, 6);
  }

  lemma ShiftBound(d: int, i: nat)
    requires -1 <= d < 64 && i < 4
    ensures -0x1000000 <= d * Weight(i + 1) < 0x1000000 && (d * Weight(i + 1) < 0 <==> d < 0)
    ensures d * Weight(i + 1) < Weight(i)
  {
  }

  /** Or-ing one more group of six bits below the others, or a failure. */
  lemma OrSextet(c: int, d: int, i: nat)
    requires i < 4 && -1 <= d < 64 && 0 <= c * Weight(i) < 0x1000000
    ensures var r := Or(c * Weight(i), d * Pow2(18 - 6 * i));
      && -0x1000000 <= r < 0x1000000 && (r < 0 <==> d < 0)
      && (d >= 0 ==> r == c * Weight(i) + d * Weight(i + 1))
  {
    hide Or, Pow2, Weight;
    WeightIsShift(i);
    WeightIsShift(0);
    ShiftBound(d, i);
    FirstWeight();
    OrSigns(c * Weight(i), d * Weight(i + 1), 24);
    if d >= 0 {
      OrDisjoint(d * Weight(i + 1), c, 24 - 6 * i);
    }
  }

  lemma FirstWeight()
    ensures Weight(0) == 0x1000000
  {
  }

  /** A failure stays a failure. */
  lemma OrFailed(val: int, d: int, i: nat)
    requires i < 4 && -1 <= d < 64 && -0x1000000 <= val < 0
    ensures -0x1000000 <= Or(val, d * Pow2(18 - 6 * i)) < 0
  {
    hide Or, Pow2, Weight;
    WeightIsShift(i);
    WeightIsShift(0);
    ShiftBound(d, i);
    FirstWeight();
    OrSigns(val, d * Weight(i + 1), 24);
  }

  /** The groups of six bits before position i, as a number of `Weight(i)`. */
  function High(src: seq<cchar>, i: nat): int
    requires i <= |src|
  {
    if i == 0 then 0 else 64 * High(src, i - 1) + Sextet(src[i - 1])
  }

  lemma HighStep(src: seq<cchar>, i: nat)
    requires |src| == 4 && i < 4
    ensures High(src, i) * Weight(i) + Sextet(src[i]) * Weight(i + 1) == High(src, i + 1) * Weight(i + 1)
  {
    hide Sextet;
    var h, w := High(src, i), Weight(i + 1);
    assert h * (64 * w) == (64 * h) * w;
  }

  /** decode_base64: negative when some character is not of the alphabet. */
  method DecodeGroup(src: seq<cchar>) returns (val: int)
    requires |src| == 4
    ensures -0x1000000 <= val < 0x1000000
    ensures val >= 0 <==> InAlphabet(src)
    ensures val >= 0 ==> val == Word(src)
  {
    hide Or, Sextet, DecodeChar, Weight, High, Pow2;
    val := 0;
    HighZero(src);
    for i := 0 to 4
      invariant -0x1000000 <= val < 0x1000000
      invariant val >= 0 <==> forall k :: 0 <= k < i ==> Sextet(src[k]) >= 0
      invariant val >= 0 ==> val == High(src, i) * Weight(i)
    {
      DecodeCharExactly(src[i]);
      if val >= 0 {
        OrSextet(High(src, i), Sextet(src[i]), i);
        HighStep(src, i);
      } else {
        OrFailed(val, Sextet(src[i]), i);
      }
      val := Or(val, DecodeChar(src[i]) * Pow2(18 - 6 * i));
    }
    if val >= 0 {
      HighIsWord(src);
    }
  }

  lemma HighZero(src: seq<cchar>)
    ensures High(src, 0) * Weight(0) == 0
  {
  }

  lemma HighIsWord(src: seq<cchar>)
    requires |src| == 4 && InAlphabet(src)
    ensures High(src, 4) * Weight(4) == Word(src)
  {
    hide Sextet;
    assert High(src, 0) == 0;
    assert High(src, 2) == 64 * Sextet(src[0]) + Sextet(src[1]);
    assert High(src, 4) == 64 * (64 * High(src, 2) + Sextet(src[2])) + Sextet(src[3]);
  }

  /** The top bit of a 32-bit word. */
  function TopBit(val: int): int {
    val % 0x1_0000_0000 / 0x8000_0000
  }

  lemma TopBitIsSign(val: int)
    requires -0x1000000 <= val < 0x1000000
    ensures TopBit(val) == if val < 0 then 1 else 0
  {
  }

  /** A byte that collects failures is zero only when all were. */
  lemma Collect(ret: byte, more: int)
    requires 0 <= more < 256
    ensures 0 <= Or(ret, more) < 256 && (Or(ret, more) == 0 <==> ret == 0 && more == 0)
  {
    hide Or;
    assert Pow2(8) == 256;
    OrSigns(ret, more, 8);
  }

  /** `1 & ((ret - 1) >> 8)` */
  predicate IsZero(ret: byte) {
    And(1, (ret - 1) / 256) == 1
  }

  lemma IsZeroExactly(ret: byte)
    ensures IsZero(ret) <==> ret == 0
  {
    AndZero(1);
    AndOnes(1);
  }

  lemma LowByte(x: int)
    ensures And(x, 255) == x % 256
  {
    hide And;
    assert Pow2(8) == 256;
    AndLowMask(x, 8);
  }

  method PutWord(key: array<byte>, at: nat, val: int, n: nat)
    requires n <= 3 && at + n <= key.Length
    modifies key
    ensures key[..] == old(key[..at]) + [val / 0x10000 % 256, val / 0x100 % 256, val % 256][..n] + old(key[at + n..])
  {
    hide And;
    LowByte(val / 0x10000);
    LowByte(val / 0x100);
    LowByte(val);
    var b: seq<byte> := [And(val / 0x10000, 255), And(val / 0x100, 255), And(val, 255)];
    for i := 0 to n
      invariant key[..at] == old(key[..at]) && key[at + n..] == old(key[at + n..])
      invariant key[at..at + i] == b[..i]
    {
      key[at + i] := b[i];
      assert key[at..at + i + 1] == key[at..at + i] + [b[i]];
    }
    assert key[..] == key[..at] + key[at..at + n] + key[at + n..];
  }

  /** The first i groups have been decoded, unless some character was not of the alphabet. */
  ghost predicate Decoded(text: seq<cchar>, key: seq<byte>, i: nat, failed: byte) {
    && 4 * i <= |text| && 3 * i <= |key|
    && (failed == 0 <==> InAlphabet(text[..4 * i]))
    && (failed == 0 ==> Quads(key[..3 * i]) == text[..4 * i])
  }

  lemma DecodedStart(text: seq<cchar>, key: seq<byte>)
    ensures Decoded(text, key, 0, 0)
  {
    assert key[..0] == [] && text[..0] == [];
  }

  lemma DecodedNext(text: seq<cchar>, key: seq<byte>, now: seq<byte>, i: nat, failed: byte, val: int, ret: byte)
    requires Decoded(text, key, i, failed) && 4 * i + 4 <= |text| && 3 * i + 3 <= |key| && |now| == |key|
    requires var group := text[4 * i..4 * i + 4]; (val >= 0 <==> InAlphabet(group)) && (val >= 0 ==> val == Word(group))
    requires ret == 0 <==> failed == 0 && val >= 0
    requires now[..3 * i + 3] == key[..3 * i] + [val / 0x10000 % 256, val / 0x100 % 256, val % 256]
    ensures Decoded(text, now, i + 1, ret)
  {
    hide Quads, Quad, Sextet, Word;
    var group, done := text[4 * i..4 * i + 4], key[..3 * i];
    assert text[..4 * (i + 1)] == text[..4 * i] + group;
    InAlphabetConcat(text[..4 * i], group);
    if ret == 0 {
      QuadOfWord(group);
      QuadsSnoc(done, val / 0x10000, val / 0x100 % 256, val % 256);
      assert now[..3 * (i + 1)] == done + [val / 0x10000, val / 0x100 % 256, val % 256];
    }
  }

  /** Accepts exactly the base64 texts of keys, and gives the key back. */
  method KeyFromBase64(key: array<byte>, text: seq<cchar>) returns (ok: bool)
    requires key.Length == 32
    modifies key
    ensures ok <==> IsKeyText(text)
    ensures ok ==> Base64(key[..]) == text && forall k: Key :: Base64(k) == text ==> k == key[..]
    ensures |text| != 44 || text[43] != '=' as int ==> key[..] == old(key[..])
  {
    hide Base64, Or, Sextet, TopBit, Decoded, Word, IsKeyText;
    KeyShapeExactly(text);
    if |text| != 44 || text[43] != '=' as int {
      return false;
    }
    var ret: byte := 0;
    DecodedStart(text, key[..]);
    for i := 0 to 10
      invariant Decoded(text, key[..], i, ret)
    {
      var val := DecodeGroup(text[4 * i..4 * i + 4]);
      TopBitIsSign(val);
      Collect(ret, TopBit(val));
      ghost var was, before := key[..], ret;
      ret := Or(ret, TopBit(val));
      PutWord(key, 3 * i, val, 3);
      DecodedNext(text, was, key[..], i, before, val, ret);
    }
    DecodedGroups(text, key[..], ret);
    ok := LastFromBase64(key, text, ret);
  }

  lemma DecodedGroups(text: seq<cchar>, key: seq<byte>, failed: byte)
    requires Decoded(text, key, 10, failed)
    ensures 40 <= |text| && 30 <= |key| && (failed == 0 <==> InAlphabet(text[..40]))
    ensures failed == 0 ==> Quads(key[..30]) == text[..40]
  {
  }

  /** The last group, of two bytes, and the verdict. */
  method LastFromBase64(key: array<byte>, text: seq<cchar>, failed: byte) returns (ok: bool)
    requires key.Length == 32 && |text| == 44 && text[43] == '=' as int
    requires failed == 0 <==> InAlphabet(text[..40])
    requires failed == 0 ==> Quads(key[..][..30]) == text[..40]
    modifies key
    ensures ok <==> IsKeyText(text)
    ensures ok ==> Base64(key[..]) == text && forall k: Key :: Base64(k) == text ==> k == key[..]
  {
    hide Base64, Quads, Quad, Word, And, Or, Sextet, TopBit, IsZero;
    var group: seq<cchar> := [text[40], text[41], text[42], 'A' as int];
    var val := DecodeGroup(group);
    LowByte(val);
    TopBitIsSign(val);
    Collect(TopBit(val), And(val, 255));
    var last := Or(TopBit(val), And(val, 255));
    Collect(failed, last);
    var ret := Or(failed, last);
    IsZeroExactly(ret);
    ghost var done := key[..][..30];
    PutWord(key, 30, val, 2);
    ok := IsZero(ret);
    LastShape(text, group, val);
    KeyShapeExactly(text);
    if ok {
      ghost var k: Key := key[..];
      assert k[..30] == done && k[30] == val / 0x10000 && k[31] == val / 0x100 % 256;
      QuadOfWord(group);
      Base64OfKey(k);
      assert text == text[..40] + group[..3] + ['=' as int];
      forall k': Key | Base64(k') == text
        ensures k' == k
      {
        Base64Injective(k', k);
      }
    }
  }

  lemma InAlphabetConcat(a: seq<cchar>, b: seq<cchar>)
    ensures InAlphabet(a + b) <==> InAlphabet(a) && InAlphabet(b)
  {
    hide Sextet;
    var t := a + b;
    assert forall i :: 0 <= i < |a| ==> t[i] == a[i];
    assert forall i :: 0 <= i < |b| ==> t[|a| + i] == b[i];
  }

  lemma LastShape(text: seq<cchar>, group: seq<cchar>, val: int)
    requires |text| == 44 && text[43] == '=' as int && group == [text[40], text[41], text[42], 'A' as int]
    requires val >= 0 <==> InAlphabet(group)
    requires val >= 0 ==> val == Word(group)
    ensures KeyShape(text) <==> InAlphabet(text[..40]) && val >= 0 && val % 256 == 0
  {
    hide Sextet, Word;
    SextetOfA();
    InAlphabetConcat(group[..3], ['A' as int]);
    assert group == group[..3] + ['A' as int];
    InAlphabetConcat(text[..40], group[..3]);
    assert text[..43] == text[..40] + group[..3];
    if val >= 0 {
      LowByteZero(group);
    }
  }
}
