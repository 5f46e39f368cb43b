/**
 What the lines of a configuration mean, read off their characters: the signs, masks
 and addresses of allowed IPs, numbers with their limits, endpoints, and what is
 refused. Names of settings, limits, families and digits are written out here.
 */
module ConfigMeaning {
  import opened Options
  import opened Ascii
  import opened KeyCodec
  import opened ConfigText
  import opened WgDevice
  import opened Config
  import opened ShowConf

  // ---------------------------------------------------------------- cleaning

  /** Without tab, line feed, vertical tab, form feed, carriage return and space. */
  function Kept(t: Text): Text {
    if t == [] then []
    else
      var c := t[|t| - 1];
      Kept(t[..|t| - 1]) + (if c == 9 || c == 10 || c == 11 || c == 12 || c == 13 || c == 32 then [] else [c])
  }

  lemma {:induction false} CleanKeeps(t: Text)
    requires '#' as int !in t
    ensures Clean(t) == Kept(t)
    decreases |t|
  {
    if t != [] {
      var n := |t| - 1;
      CleanKeeps(t[..n]);
      assert t == t[..n] + [t[n]] && [t[n]][1..] == [];
      CleanConcat(t[..n], [t[n]]);
    }
  }

  /** A comment ends the line; of the rest, everything but white space is kept. */
  lemma CleanMeans(t: Text, comment: Text)
    requires '#' as int !in t
    ensures Clean(t) == Kept(t) && Clean(t + ['#' as int] + comment) == Kept(t)
  {
    CleanKeeps(t);
    var rest := ['#' as int] + comment;
    assert t + ['#' as int] + comment == t + rest && rest[0] == '#' as int;
    CleanConcat(t, rest);
  }

  // ---------------------------------------------------------------- numbers

  predicate Digits(t: Text) {
    t != [] && forall i :: 0 <= i < |t| ==> 48 <= t[i] <= 57
  }

  function Decimal(t: Text): nat
    requires t == [] || Digits(t)
  {
    if t == [] then 0
    else
      assert Digits(t);
      10 * Decimal(t[..|t| - 1]) + (t[|t| - 1] - 48)
  }

  /** A digit of base 16: 0 to 9, a to f, A to F. */
  predicate HexLetter(c: cchar) { 48 <= c <= 57 || 97 <= c <= 102 || 65 <= c <= 70 }

  predicate HexLetters(t: Text) {
    t != [] && forall i :: 0 <= i < |t| ==> HexLetter(t[i])
  }

  function HexLetterValue(c: cchar): nat
    requires HexLetter(c)
  {
    if c <= 57 then c - 48 else if c >= 97 then c - 97 + 10 else c - 65 + 10
  }

  function Hexadecimal(t: Text): nat
    requires t == [] || HexLetters(t)
  {
    if t == [] then 0
    else
      assert HexLetters(t);
      16 * Hexadecimal(t[..|t| - 1]) + HexLetterValue(t[|t| - 1])
  }

  lemma {:induction false} ParseDecimal(t: Text)
    ensures Parse(t, 10) == if Digits(t) then Some(Decimal(t)) else None
    decreases |t|
  {
    if |t| > 1 {
      var front := t[..|t| - 1];
      ParseDecimal(front);
      assert forall i :: 0 <= i < |front| ==> front[i] == t[i];
      assert Digits(t) <==> Digits(front) && 48 <= t[|t| - 1] <= 57;
    }
  }

  lemma {:induction false} ParseHexadecimal(t: Text)
    ensures Parse(t, 16) == if HexLetters(t) then Some(Hexadecimal(t)) else None
    decreases |t|
  {
    if |t| > 1 {
      var front := t[..|t| - 1];
      ParseHexadecimal(front);
      assert forall i :: 0 <= i < |front| ==> front[i] == t[i];
      assert HexLetters(t) <==> HexLetters(front) && HexLetter(t[|t| - 1]);
    }
  }

  /** "off" in any case. */
  predicate Off(t: Text) {
    |t| == 3 && (t[0] == 'o' as int || t[0] == 'O' as int) && (t[1] == 'f' as int || t[1] == 'F' as int)
    && (t[2] == 'f' as int || t[2] == 'F' as int)
  }

  lemma OffExactly(t: Text)
    ensures CaselessSame(t, "off") <==> Off(t)
  {
    var name := "off";
    assert name[0] == 'o' && name[1] == 'f' && name[2] == 'f';
  }

  // ---------------------------------------------------------------- one allowed IP

  ghost predicate Unsigned(t: Text) {
    t != [] && t[0] != '+' as int && t[0] != '-' as int && ',' as int !in t
  }

  /** The peer with one more allowed IP. */
  function With(p: Peer, replacing: bool, ip: AllowedIp): Peer {
    p.(replaceIps := replacing, ips := p.ips + [ip])
  }

  lemma OneEntry(pf: Platform, t: Text, p: Peer)
    requires t != [] && ',' as int !in t
    ensures ParseAllowedIps(pf, t, p) ==
      if ParseEntry(pf, t).None? then None else Some(With(p, !Incremental(t), ParseEntry(pf, t).value))
  {
    hide ParseEntry;
    IndexOfNone(t, ',' as int);
    var entries := Split(t, ',' as int);
    assert entries == [t] && entries[..0] == [];
    assert ParseEntries(pf, entries[..0], p.(replaceIps := true)) == Some(p.(replaceIps := true));
  }

  /** An address alone: 32 bits of an IPv4 address, 128 of an IPv6 address. */
  lemma WholeAddress(pf: Platform, t: Text, p: Peer)
    requires Unsigned(t) && '/' as int !in t
    ensures var r := ParseAllowedIps(pf, t, p);
      if ':' as int in t
      then r == if pf.pton6(t).None? then None else Some(With(p, true, AllowedIp(10, pf.pton6(t).value, 128, 0)))
      else r == if pf.pton4(t).None? then None else Some(With(p, true, AllowedIp(2, pf.pton4(t).value, 32, 0)))
  {
    OneEntry(pf, t, p);
    IndexOfNone(t, '/' as int);
    assert t[..|t|] == t;
  }

  /** An address, a slash and a mask: a decimal number, at most 32 or 128. */
  lemma MaskedAddress(pf: Platform, a: Text, m: Text, p: Peer)
    requires Unsigned(a + ['/' as int] + m) && '/' as int !in a
    ensures var r := ParseAllowedIps(pf, a + ['/' as int] + m, p);
      var six := ':' as int in a;
      var address := if six then pf.pton6(a) else pf.pton4(a);
      if address.Some? && Digits(m) && Decimal(m) <= (if six then 128 else 32)
      then r == Some(With(p, true, AllowedIp(if six then 10 else 2, address.value, Decimal(m), 0)))
      else r == None
  {
    hide Parse, Decimal;
    var t := a + ['/' as int] + m;
    OneEntry(pf, t, p);
    IndexOfAfter(a, '/' as int, m);
    assert t[..|a|] == a && t[|a| + 1..] == m;
    ParseDecimal(m);
  }

  /** A sign changes the flag and the replacing, nothing else: minus removes, plus and no sign add. */
  lemma Signs(pf: Platform, t: Text, p: Peer)
    requires Unsigned(t)
    ensures var plain := ParseAllowedIps(pf, t, p);
      var minus := ParseAllowedIps(pf, ['-' as int] + t, p);
      var plus := ParseAllowedIps(pf, ['+' as int] + t, p);
      if plain.None? then minus == None && plus == None
      else
        |plain.value.ips| == |p.ips| + 1 &&
        var ip := plain.value.ips[|p.ips|];
        ip.flags == 0 && plain == Some(With(p, true, ip)) && plus == Some(With(p, false, ip))
        && minus == Some(With(p, false, ip.(flags := 1)))
  {
    hide ParseEntry, ParseAllowedIps;
    OneEntry(pf, t, p);
    OneEntry(pf, ['-' as int] + t, p);
    OneEntry(pf, ['+' as int] + t, p);
    SignedEntry(pf, t, '-' as int);
    SignedEntry(pf, t, '+' as int);
  }

  lemma SignedEntry(pf: Platform, t: Text, sign: cchar)
    requires Unsigned(t) && (sign == '-' as int || sign == '+' as int)
    ensures ParseEntry(pf, t).Some? ==> ParseEntry(pf, t).value.flags == 0
    ensures ParseEntry(pf, [sign] + t) == if ParseEntry(pf, t).None? then None
      else Some(ParseEntry(pf, t).value.(flags := if sign == '-' as int then 1 else 0))
  {
    hide ParseCidr, ParseIp;
    assert ([sign] + t)[1..] == t;
  }

  // ---------------------------------------------------------------- a list

  /** A text that, read alone, adds this allowed IP. */
  ghost predicate Entry(pf: Platform, t: Text, ip: AllowedIp) {
    t != [] && ',' as int !in t
    && exists p: Peer, replacing: bool :: ParseAllowedIps(pf, t, p) == Some(With(p, replacing, ip))
  }

  ghost predicate Signed(t: Text) {
    t != [] && (t[0] == '+' as int || t[0] == '-' as int)
  }

  lemma EntryIs(pf: Platform, t: Text, ip: AllowedIp)
    requires t != [] && ',' as int !in t
    ensures Entry(pf, t, ip) <==> ParseEntry(pf, t) == Some(ip)
  {
    hide ParseEntry, ParseAllowedIps;
    if Entry(pf, t, ip) {
      var p: Peer, replacing: bool :| ParseAllowedIps(pf, t, p) == Some(With(p, replacing, ip));
      OneEntry(pf, t, p);
      assert With(p, replacing, ip).ips[|p.ips|] == ip;
    }
    if ParseEntry(pf, t) == Some(ip) {
      var p := NewSection().peer;
      OneEntry(pf, t, p);
      assert ParseAllowedIps(pf, t, p) == Some(With(p, !Incremental(t), ip));
    }
  }

  lemma {:induction false} EntriesAre(pf: Platform, entries: seq<Text>, ips: seq<AllowedIp>, p: Peer)
    requires |ips| == |entries| && forall i :: 0 <= i < |ips| ==> ParseEntry(pf, entries[i]) == Some(ips[i])
    ensures ParseEntries(pf, entries, p) ==
      Some(p.(replaceIps := p.replaceIps && (forall i :: 0 <= i < |entries| ==> !Signed(entries[i])),
              ips := p.ips + ips))
    decreases |entries|
  {
    hide ParseEntry;
    if entries == [] {
      assert p.ips + ips == p.ips;
    } else {
      var n := |entries| - 1;
      EntriesAre(pf, entries[..n], ips[..n], p);
      assert p.ips + ips == (p.ips + ips[..n]) + [ips[n]];
      assert forall i :: 0 <= i < n ==> entries[..n][i] == entries[i];
    }
  }

  /** A list is its entries in order; one sign anywhere makes the whole line incremental. */
  lemma List(pf: Platform, entries: seq<Text>, ips: seq<AllowedIp>, p: Peer)
    requires entries != [] && |ips| == |entries| && forall i :: 0 <= i < |entries| ==> Entry(pf, entries[i], ips[i])
    ensures ParseAllowedIps(pf, Join(entries, [',' as int]), p) ==
      Some(p.(replaceIps := forall i :: 0 <= i < |entries| ==> !Signed(entries[i]), ips := p.ips + ips))
  {
    hide ParseEntry, Split, ParseEntries;
    forall i | 0 <= i < |entries|
      ensures ParseEntry(pf, entries[i]) == Some(ips[i])
    {
      EntryIs(pf, entries[i], ips[i]);
    }
    SplitJoin(entries, ',' as int);
    EntriesAre(pf, entries, ips, p.(replaceIps := true));
    assert entries[0] != [];
    assert Join(entries, [',' as int])[0] == entries[0][0];
  }

  /** One entry that is refused alone makes the whole list refused. */
  lemma ListRefused(pf: Platform, entries: seq<Text>, n: nat, p: Peer)
    requires n < |entries| && (forall i :: 0 <= i < |entries| ==> ',' as int !in entries[i])
    requires entries[n] != [] && ParseAllowedIps(pf, entries[n], p) == None
    ensures ParseAllowedIps(pf, Join(entries, [',' as int]), p) == None
  {
    hide ParseEntry, Split;
    OneEntry(pf, entries[n], p);
    SplitJoin(entries, ',' as int);
    var start := p.(replaceIps := true);
    assert entries[..n + 1][..n] == entries[..n];
    EntriesFail(pf, entries, start, n + 1);
    JoinHolds(entries, n, ',' as int);
  }

  lemma {:induction false} JoinHolds(entries: seq<Text>, n: nat, c: cchar)
    requires n < |entries| && entries[n] != []
    ensures Join(entries, [c]) != []
    decreases |entries|
  {
  }

  // ---------------------------------------------------------------- a line of allowed IPs

  lemma AllowedIpsLine(pf: Platform, c: Context, s: Section, value: Text)
    requires InSection(c, s) && Solid(value) && value != []
    ensures var r := ParseAllowedIps(pf, value, s.peer);
      Step(pf, c, Chars("AllowedIPs = ") + value) ==
        if r.None? then None else Some(WithLast(c, s.(peer := r.value)))
  {
    hide Clean, GetValue, Step, Setting, Solid, ParseAllowedIps;
    SettingIs("AllowedIPs", "AllowedIPs = ", value);
    PeerStepExactly(pf, c, s, "AllowedIPs", value);
    assert "AllowedIPs" + "=" == "AllowedIPs=";
    OwnValue("AllowedIPs=", value);
    var line := Chars("AllowedIPs=") + value;
    assert line[0] == Chars("AllowedIPs=")[0];
    OtherName(line, "Endpoint=", 0);
    OtherName(line, "PublicKey=", 0);
  }

  lemma SettingIs(key: string, lead: string, value: Text)
    requires lead == key + " = "
    ensures Setting(key, value) == Chars(lead) + value
  {
    assert Chars(lead) == Chars(key) + Chars(" = ");
  }

  lemma PeerStepExactly(pf: Platform, c: Context, s: Section, key: string, value: Text)
    requires InSection(c, s) && Literal(key) && key != [] && key[0] != '[' && Solid(value)
    ensures var s' := PeerLine(pf, s, Chars(key + "=") + value);
      Step(pf, c, Setting(key, value)) == if s'.None? then None else Some(WithLast(c, s'.value))
  {
    hide Clean, CaselessSame, PeerLine, Setting, Solid, Literal;
    StepIsProcess(pf, c, key, value);
    assert Chars(key + "=") + Clean(value) != [];
  }

  /**
   A line with one entry t, with minus t and with plus t, in any section. They are accepted
   together, with one address and one prefix. In the kernel, minus takes the prefix from the
   peer, plus and no sign give it to the peer, and only the line without a sign gives up the
   others.
   */
  lemma SignedLines(pf: Platform, c: Context, s: Section, t: Text, k: Kernel)
    requires InSection(c, s) && Unsigned(t) && Solid(t) && !s.peer.removeMe
    ensures var plain := Step(pf, c, Chars("AllowedIPs = ") + t);
      var minus := Step(pf, c, Chars("AllowedIPs = -") + t);
      var plus := Step(pf, c, Chars("AllowedIPs = +") + t);
      if plain.None? then minus == None && plus == None
      else
        plain.value.sections != [] &&
        var ips := plain.value.sections[|c.sections| - 1].peer.ips;
        |ips| == |s.peer.ips| + 1 &&
        var ip := ips[|s.peer.ips|];
        var x := Prefix(ip.family, ip.addr, ip.cidr);
        && ip.flags == 0
        && plain == Some(WithLast(c, s.(peer := With(s.peer, true, ip))))
        && plus == Some(WithLast(c, s.(peer := With(s.peer, false, ip))))
        && minus == Some(WithLast(c, s.(peer := With(s.peer, false, ip.(flags := 1)))))
        && Owns(k, plain.value, s.peer.publicKey, x) && Owns(k, plus.value, s.peer.publicKey, x)
        && !Owns(k, minus.value, s.peer.publicKey, x)
  {
    hide ParseAllowedIps, Step, Solid, ApplyPeer, Owns;
    MinusLead(t);
    AllowedIpsLine(pf, c, s, t);
    AllowedIpsLine(pf, c, s, ['-' as int] + t);
    AllowedIpsLine(pf, c, s, ['+' as int] + t);
    Signs(pf, t, s.peer);
    var plain := ParseAllowedIps(pf, t, s.peer);
    if plain.Some? {
      var ip := plain.value.ips[|s.peer.ips|];
      LastDecides(k, c, s, s.peer.(replaceIps := true), ip);
      LastDecides(k, c, s, s.peer.(replaceIps := false), ip);
      LastDecides(k, c, s, s.peer.(replaceIps := false), ip.(flags := 1));
    }
  }

  lemma MinusLead(t: Text)
    requires Solid(t)
    ensures Chars("AllowedIPs = -") + t == Chars("AllowedIPs = ") + (['-' as int] + t)
    ensures Chars("AllowedIPs = +") + t == Chars("AllowedIPs = ") + (['+' as int] + t)
    ensures Solid(['-' as int] + t) && Solid(['+' as int] + t)
  {
    assert Chars("AllowedIPs = -") == Chars("AllowedIPs = ") + ['-' as int];
    assert Chars("AllowedIPs = +") == Chars("AllowedIPs = ") + ['+' as int];
  }

  /** After the last section is applied to a kernel, the prefix belongs to the key. */
  ghost predicate Owns(k: Kernel, c: Context, key: WgDevice.Key, x: Prefix) {
    c.sections != [] &&
    var routes := ApplyPeer(k, c.sections[|c.sections| - 1].peer).routes;
    x in routes && routes[x] == key
  }

  lemma LastDecides(k: Kernel, c: Context, s: Section, p: Peer, ip: AllowedIp)
    requires c.sections != [] && !p.removeMe && ip.flags < 2
    ensures Owns(k, WithLast(c, s.(peer := p.(ips := p.ips + [ip]))), p.publicKey, Prefix(ip.family, ip.addr, ip.cidr))
      <==> ip.flags == 0
  {
    hide ApplyIps;
    var q := p.(ips := p.ips + [ip]);
    var routes := if p.replaceIps then WithoutRoutesOf(k.routes, p.publicKey) else k.routes;
    ApplyIpsConcat(routes, p.publicKey, p.ips, [ip]);
    OneIp(ApplyIps(routes, p.publicKey, p.ips), p.publicKey, ip);
  }

  lemma OneIp(routes: map<Prefix, WgDevice.Key>, key: WgDevice.Key, ip: AllowedIp)
    ensures ApplyIps(routes, key, [ip]) == ApplyIp(routes, key, ip)
  {
    assert [ip][..0] == [];
  }

  // ---------------------------------------------------------------- numbers in lines

  /** The number of a mark: decimal, or hexadecimal after 0x. */
  ghost predicate Spells(value: Text, n: nat) {
    || (Digits(value) && n == Decimal(value))
    || (|value| > 2 && value[0] == '0' as int && value[1] == 'x' as int && HexLetters(value[2..])
        && n == Hexadecimal(value[2..]))
  }

  lemma MarkValue(pf: Platform, value: Text, n: nat)
    requires value != []
    ensures Off(value) ==> ParseFwmark(pf, value) == Some(0) && !Spells(value, n)
    ensures Spells(value, n) ==>
      ParseFwmark(pf, value) == if n < 0x1_0000_0000 then Some(n) else if pf.wideLong then None else Some(0xFFFF_FFFF)
    ensures ParseFwmark(pf, value).Some? ==> Off(value) || exists m :: Spells(value, m)
  {
    hide CaselessSame, Parse, Decimal, Hexadecimal, HexLetters;
    OffExactly(value);
    ParseDecimal(value);
    if |value| > 2 {
      ParseHexadecimal(value[2..]);
      if HexLetters(value[2..]) && value[0] == '0' as int && value[1] == 'x' as int {
        assert Spells(value, Hexadecimal(value[2..]));
      }
    }
    if Digits(value) {
      assert Spells(value, Decimal(value));
    }
  }

  /**
   A mark is off or a number that it spells; anything else is refused. A number of 2^32 or more is
   refused exactly where unsigned long has more than 32 bits; elsewhere it becomes the largest mark.
   */
  lemma MarkLine(pf: Platform, c: Context, value: Text, n: nat)
    requires c.inDevice && Solid(value) && value != []
    ensures var r := Step(pf, c, Chars("FwMark = ") + value);
      && (Off(value) ==> r == Some(c.(fwmark := Some(0))))
      && (Spells(value, n) && n < 0x1_0000_0000 ==> r == Some(c.(fwmark := Some(n))))
      && (Spells(value, n) && n >= 0x1_0000_0000 && pf.wideLong ==> r == None)
      && (Spells(value, n) && n >= 0x1_0000_0000 && !pf.wideLong ==> r == Some(c.(fwmark := Some(0xFFFF_FFFF))))
      && (r.Some? ==> Off(value) || exists m :: Spells(value, m))
  {
    hide Step, Solid, ParseFwmark, Off, Spells;
    MarkStepExactly(pf, c, value);
    MarkValue(pf, value, n);
  }

  /** The decimal digits of 2^32 on a platform with a 32-bit unsigned long. */
  lemma LargeMark(pf: Platform, c: Context)
    requires c.inDevice && !pf.wideLong
    ensures Step(pf, c, Chars("FwMark = ") + Number(0x1_0000_0000, 10)) == Some(c.(fwmark := Some(0xFFFF_FFFF)))
  {
    hide Step, Number, Parse, Decimal, Solid;
    var value := Number(0x1_0000_0000, 10);
    ParseNumber(0x1_0000_0000, 10);
    ParseDecimal(value);
    MarkLine(pf, c, value, 0x1_0000_0000);
  }

  lemma MarkStepExactly(pf: Platform, c: Context, value: Text)
    requires c.inDevice && Solid(value) && value != []
    ensures Step(pf, c, Chars("FwMark = ") + value) ==
      if ParseFwmark(pf, value).None? then None else Some(c.(fwmark := ParseFwmark(pf, value)))
  {
    hide Clean, CaselessSame, GetValue, Step, Solid, ParseFwmark, Setting;
    SettingIs("FwMark", "FwMark = ", value);
    StepIsProcess(pf, c, "FwMark", value);
    assert "FwMark" + "=" == "FwMark=";
    OwnValue("FwMark=", value);
    var line := Chars("FwMark=") + value;
    assert line[0] == Chars("FwMark=")[0];
    OtherName(line, "ListenPort=", 0);
  }

  /** A keepalive interval: off or a decimal number below 2^16; anything else is refused. */
  lemma KeepaliveLine(pf: Platform, c: Context, s: Section, value: Text)
    requires InSection(c, s) && Solid(value) && value != []
    ensures var r := Step(pf, c, Chars("PersistentKeepalive = ") + value);
      if Off(value) then r == Some(WithLast(c, s.(peer := s.peer.(keepalive := Some(0)))))
      else if Digits(value) && Decimal(value) < 0x1_0000
      then r == Some(WithLast(c, s.(peer := s.peer.(keepalive := Some(Decimal(value))))))
      else r == None
  {
    hide Step, Solid, Parse, CaselessSame, Off, Decimal;
    KeepaliveStepExactly(pf, c, s, value);
    OffExactly(value);
    ParseDecimal(value);
  }

  lemma KeepaliveStepExactly(pf: Platform, c: Context, s: Section, value: Text)
    requires InSection(c, s) && Solid(value) && value != []
    ensures var n := ParseKeepalive(value);
      Step(pf, c, Chars("PersistentKeepalive = ") + value) ==
        if n.None? then None else Some(WithLast(c, s.(peer := s.peer.(keepalive := n))))
  {
    hide Clean, CaselessSame, PeerLine, Step, Solid, ParseKeepalive, Setting;
    SettingIs("PersistentKeepalive", "PersistentKeepalive = ", value);
    PeerStepExactly(pf, c, s, "PersistentKeepalive", value);
    assert "PersistentKeepalive" + "=" == "PersistentKeepalive=";
    KeepalivePeerLine(pf, s, value);
  }

  lemma KeepalivePeerLine(pf: Platform, s: Section, value: Text)
    requires value != []
    ensures var n := ParseKeepalive(value);
      PeerLine(pf, s, Chars("PersistentKeepalive=") + value) ==
        if n.None? then None else Some(s.(peer := s.peer.(keepalive := n)))
  {
    hide CaselessSame, GetValue, ParseKeepalive, ParseEndpoint, ParseAllowedIps, KeyOfText;
    OwnValue("PersistentKeepalive=", value);
    var line := Chars("PersistentKeepalive=") + value;
    assert line[0] == Chars("PersistentKeepalive=")[0] && line[1] == Chars("PersistentKeepalive=")[1];
    OtherName(line, "Endpoint=", 0);
    OtherName(line, "PublicKey=", 1);
    OtherName(line, "AllowedIPs=", 0);
  }

  /** A port is whatever the platform makes of it. */
  lemma PortLine(pf: Platform, c: Context, value: Text)
    requires c.inDevice && Solid(value) && value != []
    ensures Step(pf, c, Chars("ListenPort = ") + value) ==
      if pf.service(value).None? then None else Some(c.(listenPort := pf.service(value)))
  {
    hide Clean, CaselessSame, GetValue, Step, Solid, Setting;
    SettingIs("ListenPort", "ListenPort = ", value);
    StepIsProcess(pf, c, "ListenPort", value);
    assert "ListenPort" + "=" == "ListenPort=";
    OwnValue("ListenPort=", value);
  }

  /** What is not the base64 of a key is refused wherever a key is due. */
  lemma NotAKey(pf: Platform, c: Context, s: Section, value: Text)
    requires Solid(value) && value != [] && forall k: WgDevice.Key :: Base64(k) != value
    ensures c.inDevice ==> Step(pf, c, Chars("PrivateKey = ") + value) == None
    ensures InSection(c, s) ==> Step(pf, c, Chars("PublicKey = ") + value) == None
    ensures InSection(c, s) ==> Step(pf, c, Chars("PresharedKey = ") + value) == None
  {
    hide Clean, CaselessSame, GetValue, Step, Solid, Setting, Base64, InSection;
    SettingIs("PrivateKey", "PrivateKey = ", value);
    SettingIs("PublicKey", "PublicKey = ", value);
    SettingIs("PresharedKey", "PresharedKey = ", value);
    NoKeyInDevice(pf, c, value);
    if InSection(c, s) {
      NoKeyInPeer(pf, s, value);
      PeerStepExactly(pf, c, s, "PublicKey", value);
      PeerStepExactly(pf, c, s, "PresharedKey", value);
      assert "PublicKey" + "=" == "PublicKey=" && "PresharedKey" + "=" == "PresharedKey=";
    }
  }

  lemma NoKeyInDevice(pf: Platform, c: Context, value: Text)
    requires Solid(value) && value != [] && forall k: WgDevice.Key :: Base64(k) != value
    ensures c.inDevice ==> Step(pf, c, Setting("PrivateKey", value)) == None
  {
    hide Clean, CaselessSame, GetValue, Step, Solid, Setting, Base64;
    StepIsProcess(pf, c, "PrivateKey", value);
    assert "PrivateKey" + "=" == "PrivateKey=";
    OwnValue("PrivateKey=", value);
    var line := Chars("PrivateKey=") + value;
    assert line[0] == Chars("PrivateKey=")[0];
    OtherName(line, "ListenPort=", 0);
    OtherName(line, "FwMark=", 0);
  }

  lemma NoKeyInPeer(pf: Platform, s: Section, value: Text)
    requires value != [] && forall k: WgDevice.Key :: Base64(k) != value
    ensures PeerLine(pf, s, Chars("PublicKey=") + value) == None
    ensures PeerLine(pf, s, Chars("PresharedKey=") + value) == None
  {
    hide CaselessSame, GetValue, Base64;
    OwnValue("PublicKey=", value);
    OwnValue("PresharedKey=", value);
    var public, preshared := Chars("PublicKey=") + value, Chars("PresharedKey=") + value;
    assert public[0] == Chars("PublicKey=")[0];
    assert preshared[0] == Chars("PresharedKey=")[0] && preshared[1] == Chars("PresharedKey=")[1];
    OtherName(public, "Endpoint=", 0);
    OtherName(preshared, "Endpoint=", 0);
    OtherName(preshared, "PublicKey=", 1);
    OtherName(preshared, "AllowedIPs=", 0);
    OtherName(preshared, "PersistentKeepalive=", 1);
  }

  // ---------------------------------------------------------------- endpoints

  /** A host in brackets may hold colons; otherwise the last colon ends the host. */
  lemma EndpointLine(pf: Platform, c: Context, s: Section, host: Text, service: Text)
    requires InSection(c, s) && Solid(host) && Solid(service) && service != []
    ensures ']' as int !in host ==>
      Step(pf, c, Chars("Endpoint = [") + host + Chars("]:") + service) == EndpointSet(pf, c, s, host, service)
    ensures host != [] && host[0] != '[' as int && ':' as int !in service ==>
      Step(pf, c, Chars("Endpoint = ") + host + Chars(":") + service) == EndpointSet(pf, c, s, host, service)
  {
    hide Clean, GetValue, Step, Setting, Solid, ParseEndpoint;
    assert Chars("[") == ['[' as int] && Chars(":") == [':' as int] && Chars("]:") == [']' as int, ':' as int];
    SolidChars("[");
    SolidChars(":");
    SolidChars("]:");
    if ']' as int !in host {
      Bracketed(pf, host, service);
      SolidConcat(Chars("["), host);
      SolidConcat(Chars("[") + host, Chars("]:"));
      SolidConcat(Chars("[") + host + Chars("]:"), service);
      EndpointValue(pf, c, s, Chars("[") + host + Chars("]:") + service);
      BracketLead(host, service);
    }
    if host != [] && host[0] != '[' as int && ':' as int !in service {
      Plain(pf, host, service);
      SolidConcat(host, Chars(":"));
      SolidConcat(host + Chars(":"), service);
      EndpointValue(pf, c, s, host + Chars(":") + service);
      assert Chars("Endpoint = ") + host + Chars(":") + service == Chars("Endpoint = ") + (host + Chars(":") + service);
    }
  }

  lemma BracketLead(host: Text, service: Text)
    ensures Chars("Endpoint = [") + host + Chars("]:") + service
         == Chars("Endpoint = ") + (Chars("[") + host + Chars("]:") + service)
  {
    assert Chars("Endpoint = [") == Chars("Endpoint = ") + Chars("[");
  }

  ghost function EndpointSet(pf: Platform, c: Context, s: Section, host: Text, service: Text): Option<Context>
    requires InSection(c, s)
  {
    var e := pf.resolve(host, service);
    if e.None? then None else Some(WithLast(c, s.(peer := s.peer.(endpoint := e))))
  }

  lemma EndpointValue(pf: Platform, c: Context, s: Section, value: Text)
    requires InSection(c, s) && Solid(value) && value != []
    ensures var e := ParseEndpoint(pf, value);
      Step(pf, c, Chars("Endpoint = ") + value) ==
        if e.None? then None else Some(WithLast(c, s.(peer := s.peer.(endpoint := e))))
  {
    hide Clean, GetValue, Step, Setting, Solid, ParseEndpoint;
    SettingIs("Endpoint", "Endpoint = ", value);
    PeerStepExactly(pf, c, s, "Endpoint", value);
    assert "Endpoint" + "=" == "Endpoint=";
    OwnValue("Endpoint=", value);
  }

  /** Without a colon, or without brackets and with nothing after the last colon, there is no endpoint. */
  lemma NoService(pf: Platform, c: Context, s: Section, value: Text)
    requires InSection(c, s) && Solid(value) && value != []
    requires ':' as int !in value || (value[0] != '[' as int && value[|value| - 1] == ':' as int)
    ensures Step(pf, c, Chars("Endpoint = ") + value) == None
  {
    hide Step, Solid;
    EndpointValue(pf, c, s, value);
  }

  // ---------------------------------------------------------------- what is refused

  /** In an interface section only three names are known; a setting without a value is refused too. */
  lemma UnknownInDevice(pf: Platform, c: Context, line: Text)
    requires c.inDevice && Solid(line) && line != [] && line[0] != '[' as int
    requires !Starts(line, "ListenPort=") && !Starts(line, "FwMark=") && !Starts(line, "PrivateKey=")
    ensures Step(pf, c, line) == None
  {
    hide Clean, CaselessSame;
    CleanSolid(line);
    NotHeader(line);
  }

  lemma UnknownInPeer(pf: Platform, c: Context, s: Section, line: Text)
    requires InSection(c, s) && Solid(line) && line != [] && line[0] != '[' as int
    requires !Starts(line, "PublicKey=") && !Starts(line, "AllowedIPs=") && !Starts(line, "Endpoint=")
    requires !Starts(line, "PersistentKeepalive=") && !Starts(line, "PresharedKey=")
    ensures Step(pf, c, line) == None
  {
    hide Clean, CaselessSame;
    CleanSolid(line);
    NotHeader(line);
  }

  lemma BeforeAnySection(pf: Platform, c: Context, line: Text)
    requires !c.inDevice && !c.inPeer && Solid(line) && line != [] && line[0] != '[' as int
    ensures Step(pf, c, line) == None
  {
    hide Clean, CaselessSame;
    CleanSolid(line);
    NotHeader(line);
  }

  /** A name in any case, and something after it. */
  ghost predicate Starts(line: Text, name: string) {
    |line| > |name| && CaselessSame(line[..|name|], name)
  }

  // ---------------------------------------------------------------- beginning and end

  /** Without any setting: a replacing configuration clears everything, an appended one changes nothing. */
  lemma NoLines(pf: Platform)
    ensures ReadAll(pf, Init(false), []).Some? && ReadAll(pf, Init(true), []).Some?
    ensures Finish(ReadAll(pf, Init(false), []).value) == Some(Device([], Some(ZeroKey()), Some(0), Some(0), true, []))
    ensures Finish(ReadAll(pf, Init(true), []).value) == Some(Device([], None, None, None, false, []))
    ensures forall i :: 0 <= i < 32 ==> ZeroKey()[i] == 0
  {
    var replacing, appended := Finish(Init(false)), Finish(Init(true));
    assert replacing.value.peers == [] && appended.value.peers == [];
  }

  /** A peer section in which no public key is read makes the whole configuration refused. */
  lemma NoPublicKey(pf: Platform, c: Context)
    ensures Step(pf, c, Chars("[Peer]")).Some? && Finish(Step(pf, c, Chars("[Peer]")).value) == None
  {
    hide Clean, CaselessSame;
    var line := Chars("[Peer]");
    assert line[0] == '[' as int && line[1] == 'P' as int;
    SolidPeer();
    CleanSolid(line);
    OtherName(line, "[Interface]", 1);
    var next := Step(pf, c, line).value;
    assert !next.sections[|next.sections| - 1].hasKey;
  }

  lemma SolidPeer()
    ensures Solid(Chars("[Peer]")) && CaselessSame(Chars("[Peer]"), "[Peer]")
  {
    SolidChars("[Peer]");
  }
}
