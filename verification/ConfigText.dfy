/**
 The texts of configuration files: cleaning a line, splitting a list, and numbers in
 decimal and hexadecimal as printf writes and strtoul reads them.
 */
module ConfigText {
  import opened Options
  import opened Ascii
  import opened HexCodec

  function Chars(s: string): (t: Text)
    ensures |t| == |s|
  {
    seq(|s|, i requires 0 <= i < |s| => (s[i] as int) % 256)
  }

  /** char_is_space */
  predicate IsSpace(c: cchar) { 9 <= c <= 13 || c == 32 }

  /** A line without its comment and its white space. */
  function Clean(t: Text): Text {
    if t == [] || t[0] == '#' as int then []
    else (if IsSpace(t[0]) then [] else [t[0]]) + Clean(t[1..])
  }

  /** Nothing in it that cleaning would take away. */
  ghost predicate Solid(t: Text) {
    forall i :: 0 <= i < |t| ==> !IsSpace(t[i]) && t[i] != '#' as int
  }

  lemma {:induction false} CleanSolid(t: Text)
    requires Solid(t)
    ensures Clean(t) == t
    decreases |t|
  {
    if t != [] {
      CleanSolid(t[1..]);
    }
  }

  lemma {:induction false} CleanConcat(a: Text, b: Text)
    requires '#' as int !in a
    ensures Clean(a + b) == Clean(a) + Clean(b)
    decreases |a|
  {
    if a == [] {
      assert a + b == b;
    } else {
      assert (a + b)[1..] == a[1..] + b;
      CleanConcat(a[1..], b);
    }
  }

  /** The position of a character, or the length when it does not occur. */
  function IndexOf(t: Text, c: cchar): (i: nat)
    ensures i <= |t|
    ensures forall k :: 0 <= k < i ==> t[k] != c
    ensures i < |t| ==> t[i] == c
  {
    if t == [] || t[0] == c then 0 else 1 + IndexOf(t[1..], c)
  }

  lemma IndexOfAfter(a: Text, c: cchar, b: Text)
    requires c !in a
    ensures IndexOf(a + [c] + b, c) == |a|
  {
    var t := a + [c] + b;
    assert t[|a|] == c;
    assert forall k :: 0 <= k < |a| ==> t[k] == a[k] && a[k] in a;
  }

  lemma IndexOfNone(a: Text, c: cchar)
    requires c !in a
    ensures IndexOf(a, c) == |a|
  {
    assert forall k :: 0 <= k < |a| ==> a[k] in a;
  }

  /** What strsep yields, one piece after the other. */
  function Split(t: Text, c: cchar): seq<Text>
    decreases |t|
  {
    var i := IndexOf(t, c);
    if i == |t| then [t] else [t[..i]] + Split(t[i + 1..], c)
  }

  function Join(pieces: seq<Text>, between: Text): Text {
    if pieces == [] then []
    else if |pieces| == 1 then pieces[0]
    else pieces[0] + between + Join(pieces[1..], between)
  }

  lemma {:induction false} SplitJoin(pieces: seq<Text>, c: cchar)
    requires pieces != [] && forall i :: 0 <= i < |pieces| ==> c !in pieces[i]
    ensures Split(Join(pieces, [c]), c) == pieces
    decreases |pieces|
  {
    if |pieces| == 1 {
      IndexOfNone(pieces[0], c);
    } else {
      var rest := Join(pieces[1..], [c]);
      var t := pieces[0] + [c] + rest;
      IndexOfAfter(pieces[0], c, rest);
      assert t[..|pieces[0]|] == pieces[0] && t[|pieces[0]| + 1..] == rest;
      SplitJoin(pieces[1..], c);
    }
  }

  lemma {:induction false} CleanJoin(pieces: seq<Text>)
    requires forall i :: 0 <= i < |pieces| ==> Solid(pieces[i])
    ensures Clean(Join(pieces, Chars(", "))) == Join(pieces, Chars(","))
    decreases |pieces|
  {
    hide Clean;
    if |pieces| == 1 {
      CleanSolid(pieces[0]);
    } else if pieces == [] {
      CleanSolid([]);
    } else {
      var rest := Join(pieces[1..], Chars(", "));
      CleanSolid(pieces[0]);
      assert '#' as int !in pieces[0];
      CleanConcat(pieces[0], Chars(", ") + rest);
      assert pieces[0] + Chars(", ") + rest == pieces[0] + (Chars(", ") + rest);
      CommaSpace();
      CleanConcat(Chars(", "), rest);
      CleanJoin(pieces[1..]);
      var done := Join(pieces[1..], Chars(","));
      assert pieces[0] + Chars(",") + done == pieces[0] + (Chars(",") + done);
    }
  }

  lemma CommaSpace()
    ensures Clean(Chars(", ")) == Chars(",") && '#' as int !in Chars(", ")
  {
    var t := Chars(", ");
    assert t[0] == ',' as int && t[1] == ' ' as int;
    assert t[1..][0] == ' ' as int && t[1..][1..] == [];
    assert Clean(t[1..]) == [];
    assert Clean(t) == [',' as int];
  }

  // ---------------------------------------------------------------- numbers

  /** A number in some base, as printf writes it. */
  function Number(n: nat, base: nat): (t: Text)
    requires 2 <= base <= 16
    ensures |t| > 0
    decreases n
  {
    if n < base then [HexChar(n)]
    else
      assert n / base < n;
      Number(n / base, base) + [HexChar(n % base)]
  }

  /** A text of digits only, as strtoul reads it to the end. */
  function Parse(t: Text, base: nat): (r: Option<nat>)
    requires 2 <= base <= 16
    ensures r.Some? <==> t != [] && forall i :: 0 <= i < |t| ==> 0 <= HexDigit(t[i]) < base
  {
    if t == [] then None
    else
      var d := HexDigit(t[|t| - 1]);
      if !(0 <= d < base) then None
      else if |t| == 1 then Some(d)
      else
        var r := Parse(t[..|t| - 1], base);
        if r.Some? then Some(r.value * base + d) else
          assert exists i :: 0 <= i < |t| - 1 && t[..|t| - 1][i] == t[i] && !(0 <= HexDigit(t[i]) < base);
          None
  }

  lemma HexDigitOfChar(v: nat)
    requires v < 16
    ensures HexDigit(HexChar(v)) == v && !IsSpace(HexChar(v)) && HexChar(v) != '#' as int
    ensures v < 10 ==> IsDecimal(HexChar(v))
  {
  }

  lemma ParseSnoc(t: Text, c: cchar, base: nat)
    requires 2 <= base <= 16 && Parse(t, base).Some? && 0 <= HexDigit(c) < base
    ensures Parse(t + [c], base) == Some(Parse(t, base).value * base + HexDigit(c))
  {
    hide HexDigit;
    var u := t + [c];
    assert u[..|u| - 1] == t && u[|u| - 1] == c;
  }

  lemma Quotient(n: nat, base: nat)
    requires 2 <= base <= n
    ensures 0 < n / base < n && n / base * base + n % base == n
  {
    var q, r := n / base, n % base;
    assert n == base * q + r;
    Twofold(base, q);
    assert q * base == base * q;
  }

  lemma Twofold(base: nat, q: int)
    requires base >= 2
    ensures q >= 0 ==> base * q >= 2 * q
    ensures q <= 0 ==> base * q <= 0
  {
  }

  lemma {:induction false} ParseNumber(n: nat, base: nat)
    requires 2 <= base <= 16
    ensures Parse(Number(n, base), base) == Some(n) && Solid(Number(n, base))
    ensures base == 10 ==> IsDecimal(Number(n, base)[0])
    decreases n
  {
    hide HexDigit, HexChar, Parse, IsSpace;
    if n < base {
      HexDigitOfChar(n);
      ParseOne(HexChar(n), base);
    } else {
      HexDigitOfChar(n % base);
      Quotient(n, base);
      ParseNumber(n / base, base);
      ParseSnoc(Number(n / base, base), HexChar(n % base), base);
    }
  }

  lemma ParseOne(c: cchar, base: nat)
    requires 2 <= base <= 16 && 0 <= HexDigit(c) < base
    ensures Parse([c], base) == Some(HexDigit(c))
  {
  }
}
