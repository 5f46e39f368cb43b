/**
 The order in which tunnels are listed: favourites first, then by name with digit runs
 compared as numbers.
 */
module TunnelComparator {
  import opened Options
  import opened SortedKeyedList

  datatype Token = Number(n: int) | Text(s: string)

  /**
   What differs between platforms: the lower-case mapping, which characters the regular
   expression takes for digits, and which texts are read as an integer.
   */
  datatype Platform = Platform(lower: string -> string, isDigit: char -> bool, toInt: string -> Option<int>)

  /** Space, tab, line feed, carriage return, vertical tab and form feed. */
  const WHITE := " \t\n\r\U{0B}\U{0C}"

  predicate IsSpace(c: char) { c in {' ', '\t', '\n', '\r', 0x0B as char, 0x0C as char} }

  /** Every white space character becomes a space. */
  function Spaces(s: string): string {
    seq(|s|, i requires 0 <= i < |s| => if IsSpace(s[i]) then ' ' else s[i])
  }

  /** A run is a number when it can be read as one. */
  function TokenOf(pf: Platform, run: string): Token {
    if pf.toInt(run).Some? then Number(pf.toInt(run).value) else Text(run)
  }

  /** The length of the longest prefix of only digits, or of only other characters. */
  function RunLength(pf: Platform, s: string): (n: nat)
    requires s != []
    ensures 0 < n <= |s|
    ensures forall i :: 0 <= i < n ==> pf.isDigit(s[i]) == pf.isDigit(s[0])
    ensures n < |s| ==> pf.isDigit(s[n]) != pf.isDigit(s[0])
  {
    if |s| == 1 || pf.isDigit(s[1]) != pf.isDigit(s[0]) then 1 else 1 + RunLength(pf, s[1..])
  }

  function Tokens(pf: Platform, s: string): seq<Token> {
    if s == [] then [] else [TokenOf(pf, s[..RunLength(pf, s)])] + Tokens(pf, s[RunLength(pf, s)..])
  }

  method Tokenize(pf: Platform, s: string) returns (tokens: seq<Token>)
    ensures tokens == Tokens(pf, s)
  {
    hide TokenOf, Tokens, RunLength;
    var at := 0;
    tokens := [];
    NoTokens(pf);
    assert s[0..] == s && s[|s|..] == [];
    while at < |s|
      invariant 0 <= at <= |s| && tokens + Tokens(pf, s[at..]) == Tokens(pf, s)
    {
      var end := at + 1;
      while end < |s| && pf.isDigit(s[end]) == pf.isDigit(s[at])
        invariant at < end <= |s| && forall i :: at <= i < end ==> pf.isDigit(s[i]) == pf.isDigit(s[at])
      {
        end := end + 1;
      }
      NextToken(pf, s[at..], end - at);
      assert s[at..][..end - at] == s[at..end] && s[at..][end - at..] == s[end..];
      assert (tokens + [TokenOf(pf, s[at..end])]) + Tokens(pf, s[end..])
        == tokens + ([TokenOf(pf, s[at..end])] + Tokens(pf, s[end..]));
      tokens := tokens + [TokenOf(pf, s[at..end])];
      at := end;
    }
  }

  lemma OneRun(pf: Platform, s: string, n: nat)
    requires 0 < n <= |s| && (forall i :: 0 <= i < n ==> pf.isDigit(s[i]) == pf.isDigit(s[0]))
    requires n < |s| ==> pf.isDigit(s[n]) != pf.isDigit(s[0])
    ensures RunLength(pf, s) == n
  {
    var m := RunLength(pf, s);
    assert m < |s| && pf.isDigit(s[m]) == pf.isDigit(s[0]) ==> m >= n;
  }

  lemma NextToken(pf: Platform, s: string, n: nat)
    requires 0 < n <= |s| && (forall i :: 0 <= i < n ==> pf.isDigit(s[i]) == pf.isDigit(s[0]))
    requires n < |s| ==> pf.isDigit(s[n]) != pf.isDigit(s[0])
    ensures Tokens(pf, s) == [TokenOf(pf, s[..n])] + Tokens(pf, s[n..])
  {
    hide TokenOf;
    OneRun(pf, s, n);
  }

  lemma NoTokens(pf: Platform)
    ensures Tokens(pf, []) == []
  {
  }

  ghost function Concatenated(runs: seq<string>): string {
    if runs == [] then [] else runs[0] + Concatenated(runs[1..])
  }

  /** Not empty, and only digits or only other characters. */
  ghost predicate Uniform(pf: Platform, run: string) {
    run != [] && forall i :: 0 <= i < |run| ==> pf.isDigit(run[i]) == pf.isDigit(run[0])
  }

  /** Digits are followed by other characters, or the other way round. */
  ghost predicate Turns(pf: Platform, run: string, next: string) {
    run != [] && next != [] && pf.isDigit(run[0]) != pf.isDigit(next[0])
  }

  /** One token for each piece: its number, or else its text. */
  ghost predicate Cut(pf: Platform, runs: seq<string>, tokens: seq<Token>) {
    && |runs| == |tokens|
    && (forall i :: 0 <= i < |runs| ==> Uniform(pf, runs[i]) && Gives(pf, runs[i], tokens[i]))
    && (forall i :: 0 < i < |runs| ==> Turns(pf, runs[i - 1], runs[i]))
  }

  ghost predicate Gives(pf: Platform, run: string, token: Token) {
    match pf.toInt(run)
    case Some(n) => token == Number(n)
    case None => token == Text(run)
  }

  /** The text is cut where digits and other characters meet, and nowhere else. */
  lemma {:induction false} TokensAreRuns(pf: Platform, s: string) returns (runs: seq<string>)
    ensures Concatenated(runs) == s && Cut(pf, runs, Tokens(pf, s))
    decreases |s|
  {
    hide Cut, Concatenated;
    if s == [] {
      runs := [];
      NoPieces(pf);
    } else {
      var n := RunLength(pf, s);
      var rest := TokensAreRuns(pf, s[n..]);
      runs := [s[..n]] + rest;
      OnePiece(pf, s[..n], rest, Tokens(pf, s[n..]), s[n..]);
      assert s == s[..n] + s[n..];
    }
  }

  lemma NoPieces(pf: Platform)
    ensures Concatenated([]) == [] && Cut(pf, [], [])
  {
  }

  lemma OnePiece(pf: Platform, run: string, rest: seq<string>, tokens: seq<Token>, s: string)
    requires Uniform(pf, run) && Cut(pf, rest, tokens) && Concatenated(rest) == s
    requires s != [] ==> pf.isDigit(s[0]) != pf.isDigit(run[0])
    ensures Concatenated([run] + rest) == run + s && Cut(pf, [run] + rest, [TokenOf(pf, run)] + tokens)
  {
    var runs := [run] + rest;
    assert runs[1..] == rest;
    if rest != [] {
      assert s[0] == rest[0][0];
      assert Turns(pf, run, rest[0]);
    }
    assert forall i :: 0 < i < |runs| ==> runs[i] == rest[i - 1];
  }

  // ---------------------------------------------------------------- comparing tokens

  /** String.compareTo */
  function CompareText(a: string, b: string): int {
    if a == [] || b == [] then |a| - |b|
    else if a[0] != b[0] then a[0] as int - b[0] as int
    else CompareText(a[1..], b[1..])
  }

  lemma {:induction false} TextOrder(a: string, b: string)
    ensures CompareText(a, b) == 0 <==> a == b
    ensures CompareText(a, b) < 0 <==> CompareText(b, a) > 0
    decreases |a|
  {
    if a != [] && b != [] && a[0] == b[0] {
      TextOrder(a[1..], b[1..]);
      assert a == [a[0]] + a[1..] && b == [b[0]] + b[1..];
    }
  }

  lemma {:induction false} TextTransitive(a: string, b: string, c: string)
    requires CompareText(a, b) < 0 && CompareText(b, c) < 0
    ensures CompareText(a, c) < 0
    decreases |a|
  {
    if a != [] && b != [] && c != [] && a[0] == b[0] && b[0] == c[0] {
      TextTransitive(a[1..], b[1..], c[1..]);
    }
  }

  /** The first different character decides; a proper prefix is first. */
  ghost predicate TextBefore(a: string, b: string) {
    exists n: nat :: DiffersAt(a, b, n) && (n == |a| || a[n] < b[n])
  }

  /** The two agree up to a position, where the second goes on and the first ends or is different. */
  ghost predicate DiffersAt(a: string, b: string, n: nat) {
    n <= |a| && n < |b| && (forall i :: 0 <= i < n ==> a[i] == b[i]) && (n < |a| ==> a[n] != b[n])
  }

  lemma {:induction false} TextBeforeExactly(a: string, b: string)
    ensures CompareText(a, b) < 0 <==> TextBefore(a, b)
    decreases |a|
  {
    if a == [] {
      assert b != [] ==> DiffersAt(a, b, 0);
    } else if b != [] && a[0] == b[0] {
      TextBeforeExactly(a[1..], b[1..]);
      if TextBefore(a[1..], b[1..]) {
        var n: nat :| DiffersAt(a[1..], b[1..], n) && (n == |a[1..]| || a[1..][n] < b[1..][n]);
        assert forall i :: 0 < i < n + 1 ==> a[i] == a[1..][i - 1] && b[i] == b[1..][i - 1];
        assert DiffersAt(a, b, n + 1);
      }
      if TextBefore(a, b) {
        var n: nat :| DiffersAt(a, b, n) && (n == |a| || a[n] < b[n]);
        assert DiffersAt(a[1..], b[1..], n - 1);
      }
    } else if b != [] {
      assert DiffersAt(a, b, 0);
    }
  }

  /** The smaller number, a number before a text, the earlier text. */
  ghost predicate Earlier(a: Token, b: Token) {
    if a.Text? then b.Text? && TextBefore(a.s, b.s) else b.Text? || a.n < b.n
  }

  lemma EarlierExactly(a: Token, b: Token)
    ensures CompareToken(a, b) < 0 <==> Earlier(a, b)
  {
    hide CompareText, TextBefore;
    if a.Text? && b.Text? {
      TextBeforeExactly(a.s, b.s);
    }
  }

  /** The first different token decides; a proper prefix is first. */
  ghost predicate Before(a: seq<Token>, b: seq<Token>) {
    exists n: nat :: n <= |a| && n < |b| && a[..n] == b[..n] && (n == |a| || Earlier(a[n], b[n]))
  }

  /** NaturalSortToken.compareTo: numbers before text. */
  function CompareToken(a: Token, b: Token): int {
    match a
    case Number(n) =>
      if b.Text? || n < b.n then -1 else if n > b.n then 1 else 0
    case Text(s) =>
      if b.Number? || CompareText(s, b.s) > 0 then 1 else if CompareText(s, b.s) < 0 then -1 else 0
  }

  lemma TokenOrder(a: Token, b: Token)
    ensures CompareToken(a, b) == 0 <==> a == b
    ensures CompareToken(a, b) < 0 <==> CompareToken(b, a) > 0
  {
    hide CompareText;
    if a.Text? && b.Text? {
      TextOrder(a.s, b.s);
      TextOrder(b.s, a.s);
    }
  }

  lemma TokenTransitive(a: Token, b: Token, c: Token)
    requires CompareToken(a, b) < 0 && CompareToken(b, c) < 0
    ensures CompareToken(a, c) < 0
  {
    hide CompareText;
    if a.Text? && b.Text? && c.Text? {
      TextTransitive(a.s, b.s, c.s);
    }
  }

  // ---------------------------------------------------------------- comparing names

  /** The comparison of two lists of tokens; never zero. */
  function CompareTokens(a: seq<Token>, b: seq<Token>): int {
    if b == [] then 1
    else if a == [] then -1
    else if CompareToken(a[0], b[0]) != 0 then CompareToken(a[0], b[0])
    else CompareTokens(a[1..], b[1..])
  }

  /** Different lists are ordered one way; equal lists are each after the other. */
  lemma {:induction false} TokensOrder(a: seq<Token>, b: seq<Token>)
    ensures CompareTokens(a, b) != 0
    ensures a == b ==> CompareTokens(a, b) > 0
    ensures a != b ==> (CompareTokens(a, b) < 0 <==> CompareTokens(b, a) > 0)
    decreases |a|
  {
    hide CompareToken;
    if a != [] && b != [] {
      TokenOrder(a[0], b[0]);
      TokenOrder(b[0], a[0]);
      TokensOrder(a[1..], b[1..]);
      assert a == [a[0]] + a[1..] && b == [b[0]] + b[1..];
    }
  }

  lemma {:induction false} TokensTransitive(a: seq<Token>, b: seq<Token>, c: seq<Token>)
    requires CompareTokens(a, b) < 0 && CompareTokens(b, c) < 0
    ensures CompareTokens(a, c) < 0
    decreases |a|
  {
    hide CompareToken;
    if a != [] {
      TokenOrder(a[0], b[0]);
      TokenOrder(b[0], c[0]);
      if CompareToken(a[0], b[0]) == 0 && CompareToken(b[0], c[0]) == 0 {
        TokensTransitive(a[1..], b[1..], c[1..]);
      } else if CompareToken(a[0], b[0]) < 0 && CompareToken(b[0], c[0]) < 0 {
        TokenTransitive(a[0], b[0], c[0]);
      }
    }
  }

  lemma {:induction false} BeforeExactly(a: seq<Token>, b: seq<Token>)
    ensures CompareTokens(a, b) < 0 <==> Before(a, b)
    decreases |a|
  {
    hide CompareToken, Earlier;
    if a == [] {
      assert a[..0] == b[..0];
    } else if b != [] {
      TokenOrder(a[0], b[0]);
      EarlierExactly(a[0], b[0]);
      BeforeExactly(a[1..], b[1..]);
      BeforeRest(a, b);
      assert a[..0] == b[..0];
    }
  }

  lemma BeforeRest(a: seq<Token>, b: seq<Token>)
    requires a != [] && b != []
    ensures Before(a, b) <==> Earlier(a[0], b[0]) || (a[0] == b[0] && Before(a[1..], b[1..]))
  {
    hide Earlier;
    if Before(a, b) {
      var n: nat :| n <= |a| && n < |b| && a[..n] == b[..n] && (n == |a| || Earlier(a[n], b[n]));
      if n > 0 {
        assert a[..n][0] == a[0] && b[..n][0] == b[0];
        assert a[1..][..n - 1] == a[..n][1..] && b[1..][..n - 1] == b[..n][1..];
      }
    }
    if Earlier(a[0], b[0]) {
      assert a[..0] == b[..0];
    }
    if a[0] == b[0] && Before(a[1..], b[1..]) {
      var n: nat :| n <= |a[1..]| && n < |b[1..]| && a[1..][..n] == b[1..][..n]
        && (n == |a[1..]| || Earlier(a[1..][n], b[1..][n]));
      assert a[..n + 1] == [a[0]] + a[1..][..n] && b[..n + 1] == [b[0]] + b[1..][..n];
    }
  }

  /** The comparator: its favourites, and the platform it runs on. */
  datatype Comparator = Comparator(favourites: set<string>, pf: Platform) {
    function NameTokens(name: string): seq<Token> {
      Tokens(pf, pf.lower(Spaces(name)))
    }

    function Order(a: string, b: string): int {
      if a == b then 0
      else if (a in favourites) != (b in favourites) then (if a in favourites then -1 else 1)
      else CompareTokens(NameTokens(a), NameTokens(b))
    }

    method Compare(a: string, b: string) returns (r: int)
      ensures r == Order(a, b)
      ensures r == 0 <==> a == b
      ensures a in favourites && b !in favourites ==> r < 0
      ensures a !in favourites && b in favourites ==> r > 0
      ensures a != b && (a in favourites <==> b in favourites) ==> (r < 0 <==> Before(NameTokens(a), NameTokens(b)))
    {
      hide Tokens, CompareToken, Spaces, Before;
      BeforeExactly(NameTokens(a), NameTokens(b));
      TokensOrder(NameTokens(a), NameTokens(b));
      if a == b {
        return 0;
      }
      var fa, fb := a in favourites, b in favourites;
      if fa != fb {
        return if fa then -1 else 1;
      }
      var na := Tokenize(pf, pf.lower(Spaces(a)));
      var nb := Tokenize(pf, pf.lower(Spaces(b)));
      for i := 0 to |nb|
        invariant i <= |na| && CompareTokens(na, nb) == CompareTokens(na[i..], nb[i..])
      {
        if i == |na| {
          return -1;
        }
        var c := CompareToken(na[i], nb[i]);
        if c != 0 {
          return c;
        }
        assert na[i..][1..] == na[i + 1..] && nb[i..][1..] == nb[i + 1..];
      }
      return 1;
    }

    /** White space characters are all alike. */
    lemma WhiteSpaceAlike(a: string, b: string)
      requires |a| == |b| && forall i :: 0 <= i < |a| ==> a[i] == b[i] || (a[i] in WHITE && b[i] in WHITE)
      ensures NameTokens(a) == NameTokens(b)
    {
      assert Spaces(a) == Spaces(b);
    }

    /** The names differ by more than their spelling of the same tokens. */
    ghost predicate Distinguished(a: string, b: string) {
      (a in favourites) != (b in favourites) || NameTokens(a) != NameTokens(b)
    }

    /** Two different names are compared consistently exactly when they are distinguished. */
    lemma ConsistentExactly(a: string, b: string)
      requires a != b
      ensures Distinguished(a, b) <==> (Order(a, b) < 0 <==> Order(b, a) > 0)
      ensures Order(a, b) != 0
    {
      hide Tokens, CompareTokens;
      TokensOrder(NameTokens(a), NameTokens(b));
      TokensOrder(NameTokens(b), NameTokens(a));
    }

    lemma OrderTransitive(a: string, b: string, c: string)
      requires Order(a, b) < 0 && Order(b, c) < 0 && a != c
      ensures Order(a, c) < 0
    {
      hide Tokens, CompareTokens;
      if (a in favourites) == (b in favourites) && (b in favourites) == (c in favourites) {
        TokensTransitive(NameTokens(a), NameTokens(b), NameTokens(c));
      }
    }

    lemma NotBothBelow(a: string, b: string)
      requires Order(a, b) < 0
      ensures Order(b, a) >= 0
    {
      hide Tokens, CompareTokens;
      TokensOrder(NameTokens(a), NameTokens(b));
      TokensOrder(NameTokens(b), NameTokens(a));
    }

    /** The comparator orders a set of names exactly when they are pairwise distinguished. */
    lemma OrdersExactly(names: iset<string>)
      ensures Orders((a, b) => Order(a, b), names) <==>
        forall a, b :: a in names && b in names && a != b ==> Distinguished(a, b)
    {
      hide Distinguished;
      var cmp := (a, b) => Order(a, b);
      if Orders(cmp, names) {
        forall a, b | a in names && b in names && a != b
          ensures Distinguished(a, b)
        {
          assert cmp(a, b) < 0 <==> cmp(b, a) > 0;
          ConsistentExactly(a, b);
        }
      }
      if forall a, b :: a in names && b in names && a != b ==> Distinguished(a, b) {
        Consistent(names, cmp);
      }
    }

    lemma Consistent(names: iset<string>, cmp: (string, string) -> int)
      requires forall a, b :: a in names && b in names && a != b ==> Distinguished(a, b)
      requires forall a, b :: cmp(a, b) == Order(a, b)
      ensures Orders(cmp, names)
    {
      hide Distinguished, NameTokens;
      forall a, b | a in names && b in names
        ensures cmp(a, b) == 0 <==> a == b
        ensures cmp(a, b) < 0 <==> cmp(b, a) > 0
      {
        if a != b {
          ConsistentExactly(a, b);
        }
      }
      forall a, b, c | a in names && b in names && c in names && cmp(a, b) < 0 && cmp(b, c) < 0
        ensures cmp(a, c) < 0
      {
        NotBothBelow(a, b);
        if a != c {
          OrderTransitive(a, b, c);
        }
      }
    }
  }

  // ---------------------------------------------------------------- names that are not distinguished

  const INT_MAX: nat := 0x7FFF_FFFF

  predicate IsAsciiDigit(c: char) { '0' <= c <= '9' }

  function Value(s: string): nat
    requires forall i :: 0 <= i < |s| ==> IsAsciiDigit(s[i])
  {
    if s == [] then 0
    else
      assert IsAsciiDigit(s[|s| - 1]);
      10 * Value(s[..|s| - 1]) + (s[|s| - 1] as int - '0' as int)
  }

  /** A platform that knows only the ASCII digits. */
  function AsciiToInt(s: string): Option<int> {
    if s != [] && (forall i :: 0 <= i < |s| ==> IsAsciiDigit(s[i])) && Value(s) <= INT_MAX then Some(Value(s)) else None
  }

  function AsciiPlatform(): Platform {
    Platform(s => s, IsAsciiDigit, AsciiToInt)
  }

  /** Numbers are compared as numbers: wg2 comes before wg10. */
  method Natural() returns (r: int, s: int)
    ensures r < 0 < s
  {
    var pf := AsciiPlatform();
    var c := Comparator({}, pf);
    TwoAndTen(pf);
    r := c.Compare("wg2", "wg10");
    s := c.Compare("wg10", "wg2");
    assert c.NameTokens("wg2") == [Text("wg"), Number(2)] && c.NameTokens("wg10") == [Text("wg"), Number(10)];
    assert [Text("wg"), Number(2)][..1] == [Text("wg"), Number(10)][..1];
    assert Before(c.NameTokens("wg2"), c.NameTokens("wg10"));
    c.NotBothBelow("wg2", "wg10");
  }

  lemma TwoAndTen(pf: Platform)
    requires pf == AsciiPlatform()
    ensures Tokens(pf, Spaces("wg2")) == [Text("wg"), Number(2)]
    ensures Tokens(pf, Spaces("wg10")) == [Text("wg"), Number(10)]
  {
    assert Spaces("wg2") == "wg2" && Spaces("wg10") == "wg10";
    OneRun(pf, "wg2", 2);
    OneRun(pf, "wg10", 2);
    assert "wg2"[..2] == "wg" && "wg10"[..2] == "wg" && "wg2"[2..] == "2" && "wg10"[2..] == "10";
    OneRun(pf, "2", 1);
    OneRun(pf, "10", 2);
    assert "2"[..1] == "2" && "10"[..2] == "10" && "2"[1..] == [] && "10"[2..] == [];
    assert Value("2") == 2 by {
      assert "2"[..0] == [];
    }
    assert Value("10") == 10 by {
      assert "10"[..1] == "1" && "1"[..0] == [];
      assert Value("1") == 1;
    }
    NoTokens(pf);
  }

  /** Leading zeros are lost: two such names are each after the other. */
  lemma LeadingZeros()
    ensures var c := Comparator({}, AsciiPlatform()); c.Order("1", "01") > 0 && c.Order("01", "1") > 0
  {
    var pf := AsciiPlatform();
    var c := Comparator({}, pf);
    assert Spaces("1") == "1" && Spaces("01") == "01";
    OneRun(pf, "1", 1);
    OneRun(pf, "01", 2);
    assert "1"[..1] == "1" && "01"[..2] == "01" && "1"[1..] == [] && "01"[2..] == [];
    assert Value("1") == 1 by {
      assert "1"[..0] == [];
    }
    assert Value("01") == 1 by {
      assert "01"[..1] == "0" && "0"[..0] == [];
      assert Value("0") == 0;
    }
    assert TokenOf(pf, "1") == Number(1) && TokenOf(pf, "01") == Number(1);
    NoTokens(pf);
    assert c.NameTokens("1") == [Number(1)] && c.NameTokens("01") == [Number(1)];
  }
}
