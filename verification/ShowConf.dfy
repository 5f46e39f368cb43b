/**
 Printing a running device as a configuration, and reading it back.
 */
module ShowConf {
  import opened Bits
  import opened Options
  import opened Ascii
  import opened KeyCodec
  import opened ConfigText
  import opened WgDevice
  import opened Config

  // ---------------------------------------------------------------- the printer

  function Setting(key: string, value: Text): Text {
    Chars(key) + Chars(" = ") + value
  }

  function IpText(pf: Platform, ip: AllowedIp): Text {
    (if ip.family == AF_INET then pf.ntop4(ip.addr) else pf.ntop6(ip.addr)) + Chars("/") + Number(ip.cidr, 10)
  }

  /** An address family that the printer knows. */
  predicate Known(ip: AllowedIp) { ip.family == AF_INET || ip.family == AF_INET6 }

  function KnownOf(ips: seq<AllowedIp>): seq<AllowedIp> {
    if ips == [] then [] else (if Known(ips[0]) then [ips[0]] else []) + KnownOf(ips[1..])
  }

  /** What the loop over the allowed IPs prints: an unknown family leaves no text, and no separator either. */
  function Listed(pf: Platform, ips: seq<AllowedIp>): Text {
    if ips == [] then []
    else
      (if Known(ips[0]) then IpText(pf, ips[0]) + (if |ips| > 1 then Chars(", ") else []) else [])
      + Listed(pf, ips[1..])
  }

  function IpTexts(pf: Platform, ips: seq<AllowedIp>): seq<Text> {
    seq(|ips|, i requires 0 <= i < |ips| => IpText(pf, ips[i]))
  }

  function EndpointText(pf: Platform, e: seq<byte>): Text {
    var host, service := pf.hostOf(e), pf.serviceOf(e);
    if |e| == 28 && ':' as int in host then Chars("[") + host + Chars("]:") + service
    else host + Chars(":") + service
  }

  function KeyLines(key: string, k: Option<WgDevice.Key>): seq<Text> {
    if k.Some? then [Setting(key, Base64(k.value))] else []
  }

  /** A number that is zero when it is not set. */
  function OrZeroed(n: Option<nat>): nat { if n.Some? then n.value else 0 }

  function DeviceLines(d: Device): seq<Text> {
    [Chars("[Interface]")]
    + (if OrZeroed(d.listenPort) != 0 then [Setting("ListenPort", Number(OrZeroed(d.listenPort), 10))] else [])
    + (if OrZeroed(d.fwmark) != 0 then [Setting("FwMark", Chars("0x") + Number(OrZeroed(d.fwmark), 16))] else [])
    + KeyLines("PrivateKey", d.privateKey)
    + [[]]
  }

  function IpLines(pf: Platform, p: Peer): seq<Text> {
    if p.ips == [] then [] else [Setting("AllowedIPs", Listed(pf, p.ips))]
  }

  function EndpointLines(pf: Platform, p: Peer): seq<Text> {
    if p.endpoint.None? then [] else [Setting("Endpoint", EndpointText(pf, p.endpoint.value))]
  }

  function KeepaliveLines(p: Peer): seq<Text> {
    if OrZeroed(p.keepalive) == 0 then [] else [Setting("PersistentKeepalive", Number(OrZeroed(p.keepalive), 10))]
  }

  function PeerLines(pf: Platform, p: Peer): seq<Text> {
    [Chars("[Peer]"), Setting("PublicKey", Base64(p.publicKey))]
    + KeyLines("PresharedKey", p.presharedKey)
    + IpLines(pf, p)
    + EndpointLines(pf, p)
    + KeepaliveLines(p)
  }

  function AllPeerLines(pf: Platform, ps: seq<Peer>): seq<Text> {
    if ps == [] then []
    else AllPeerLines(pf, ps[..|ps| - 1]) + (if |ps| == 1 then [] else [[]]) + PeerLines(pf, ps[|ps| - 1])
  }

  /** showconf: the lines it prints. */
  function Show(pf: Platform, d: Device): seq<Text> {
    DeviceLines(d) + AllPeerLines(pf, d.peers)
  }

  // ---------------------------------------------------------------- what is assumed

  /** Text of an address: nothing that means something else in a list of allowed IPs. */
  ghost predicate AddressText(t: Text) {
    t != [] && Solid(t) && ',' as int !in t && '/' as int !in t && !Incremental(t)
  }

  /** Printing and looking up are inverse on addresses and ports. */
  ghost predicate Faithful(pf: Platform) {
    && (forall a: seq<byte> :: |a| == 4 ==>
          AddressText(pf.ntop4(a)) && ':' as int !in pf.ntop4(a) && pf.pton4(pf.ntop4(a)) == Some(a))
    && (forall a: seq<byte> :: |a| == 16 ==>
          AddressText(pf.ntop6(a)) && ':' as int in pf.ntop6(a) && pf.pton6(pf.ntop6(a)) == Some(a))
    && (forall n: nat :: 0 < n < 0x10000 ==> pf.service(Number(n, 10)) == Some(n))
    && pf.pton4([]) == None
  }

  /** The same for the host and service names of an endpoint. */
  ghost predicate FaithfulEndpoint(pf: Platform, e: seq<byte>) {
    var host, service := pf.hostOf(e), pf.serviceOf(e);
    && Solid(host) && host != [] && host[0] != '[' as int && ']' as int !in host
    && Solid(service) && service != [] && ':' as int !in service
    && pf.resolve(host, service) == Some(e)
  }

  /** What the kernel reports: known addresses with prefixes that fit, and endpoints with names. */
  ghost predicate Reported(pf: Platform, d: Device) {
    && OrZeroed(d.listenPort) < 0x10000 && OrZeroed(d.fwmark) < 0x1_0000_0000
    && forall i :: 0 <= i < |d.peers| ==> ReportedPeer(pf, d.peers[i])
  }

  ghost predicate ReportedIp(ip: AllowedIp) {
    (ip.family == AF_INET && |ip.addr| == 4 && ip.cidr <= 32) ||
      (ip.family == AF_INET6 && |ip.addr| == 16 && ip.cidr <= 128)
  }

  ghost predicate ReportedPeer(pf: Platform, p: Peer) {
    && OrZeroed(p.keepalive) < 0x10000 && (p.endpoint.Some? ==> FaithfulEndpoint(pf, p.endpoint.value))
    && forall k :: 0 <= k < |p.ips| && Known(p.ips[k]) ==> ReportedIp(p.ips[k])
  }

  // ---------------------------------------------------------------- what is read back

  /** Private key, port and mark are always set in full; a missing one is cleared. */
  function Rebuilt(d: Device): Device {
    Device([], Some(if d.privateKey.Some? then d.privateKey.value else ZeroKey()), Some(OrZeroed(d.listenPort)),
           Some(OrZeroed(d.fwmark)), true, seq(|d.peers|, i requires 0 <= i < |d.peers| => RebuiltPeer(d.peers[i])))
  }

  function RebuiltIps(ips: seq<AllowedIp>): seq<AllowedIp> {
    seq(|ips|, i requires 0 <= i < |ips| => ips[i].(flags := 0))
  }

  function RebuiltPeer(p: Peer): Peer {
    Peer(p.publicKey, false, true, p.presharedKey, p.endpoint,
         if OrZeroed(p.keepalive) == 0 then None else Some(OrZeroed(p.keepalive)), RebuiltIps(KnownOf(p.ips)))
  }

  // ---------------------------------------------------------------- one line

  ghost predicate Literal(s: string) {
    forall i :: 0 <= i < |s| ==> 0 <= s[i] as int < 256 && !IsSpace(s[i] as int) && s[i] != '#'
  }

  lemma SolidChars(s: string)
    requires Literal(s)
    ensures Solid(Chars(s))
  {
  }

  /** A printed setting, cleaned: the name, an equals sign and the value. */
  lemma CleanSetting(key: string, value: Text)
    requires Literal(key)
    ensures Clean(Setting(key, value)) == Chars(key + "=") + Clean(value)
  {
    hide Clean;
    SolidChars(key);
    assert '#' as int !in Chars(key);
    CleanSolid(Chars(key));
    EqualsSign();
    CleanConcat(Chars(" = "), value);
    CleanConcat(Chars(key), Chars(" = ") + value);
    assert Setting(key, value) == Chars(key) + (Chars(" = ") + value);
    assert Chars(key) + (Chars("=") + Clean(value)) == Chars(key) + Chars("=") + Clean(value);
    assert Chars(key + "=") == Chars(key) + Chars("=");
  }

  lemma EqualsSign()
    ensures Clean(Chars(" = ")) == Chars("=") && '#' as int !in Chars(" = ")
  {
    var t := Chars(" = ");
    assert t[0] == ' ' as int && t[1] == '=' as int && t[2] == ' ' as int;
    assert t[1..][0] == '=' as int && t[1..][1..] == t[2..] && t[2..][0] == ' ' as int && t[2..][1..] == [];
    assert Clean(t[2..]) == [];
    assert Clean(t[1..]) == ['=' as int];
    assert Clean(t) == ['=' as int];
  }

  lemma OwnValue(key: string, value: Text)
    requires Literal(key) && value != []
    ensures GetValue(Chars(key) + value, key) == Some(value)
  {
    var line := Chars(key) + value;
    assert line[..|key|] == Chars(key) && line[|key|..] == value;
  }

  /** A line that differs from a name somewhere, not only in case. */
  lemma OtherName(line: Text, key: string, i: nat)
    requires i < |line| && i < |key| && 0 <= key[i] as int < 256 && Upper(line[i]) != Upper(key[i] as int)
    ensures GetValue(line, key) == None && !CaselessSame(line, key)
  {
    assert |key| < |line| ==> line[..|key|][i] == line[i];
  }

  /** A cleaned setting is not a section header. */
  lemma NotHeader(line: Text)
    requires line != [] && line[0] != '[' as int
    ensures !CaselessSame(line, "[Interface]") && !CaselessSame(line, "[Peer]")
  {
    OtherName(line, "[Interface]", 0);
    OtherName(line, "[Peer]", 0);
  }

  lemma StepIsProcess(pf: Platform, c: Context, key: string, value: Text)
    requires Literal(key) && key != [] && key[0] != '['
    ensures Solid(value) ==> Clean(value) == value
    ensures var line := Chars(key + "=") + Clean(value);
      && Clean(Setting(key, value)) == line && !CaselessSame(line, "[Interface]") && !CaselessSame(line, "[Peer]")
      && (c.inDevice ==> Step(pf, c, Setting(key, value)) == DeviceLine(pf, c, line))
  {
    hide Clean, CaselessSame, DeviceLine, PeerLine;
    CleanSetting(key, value);
    if Solid(value) {
      CleanSolid(value);
    }
    var line := Chars(key + "=") + Clean(value);
    assert line[0] == Chars(key + "=")[0] && (key + "=")[0] == key[0];
    NotHeader(line);
  }

  lemma PortStep(pf: Platform, c: Context, n: nat)
    requires Faithful(pf) && c.inDevice && 0 < n < 0x10000
    ensures Step(pf, c, Setting("ListenPort", Number(n, 10))) == Some(c.(listenPort := Some(n)))
  {
    hide Clean, CaselessSame, GetValue, Number, Step, Solid, Setting;
    ParseNumber(n, 10);
    StepIsProcess(pf, c, "ListenPort", Number(n, 10));
    assert "ListenPort" + "=" == "ListenPort=";
    OwnValue("ListenPort=", Number(n, 10));
  }

  lemma MarkStep(pf: Platform, c: Context, n: nat)
    requires c.inDevice && 0 < n < 0x1_0000_0000
    ensures Step(pf, c, Setting("FwMark", Chars("0x") + Number(n, 16))) == Some(c.(fwmark := Some(n)))
  {
    hide Clean, GetValue, Number, Step, Setting, Parse;
    ParseNumber(n, 16);
    var value := Chars("0x") + Number(n, 16);
    assert value[0] == '0' as int && value[1] == 'x' as int && value[2..] == Number(n, 16);
    StepIsProcess(pf, c, "FwMark", value);
    assert "FwMark" + "=" == "FwMark=";
    OwnValue("FwMark=", value);
    var line := Chars("FwMark=") + value;
    assert line[0] == Chars("FwMark=")[0];
    OtherName(line, "ListenPort=", 0);
    OtherName(value, "off", 0);
  }

  lemma KeyOfBase64(k: WgDevice.Key)
    ensures KeyOfText(Base64(k)) == Some(k) && Solid(Base64(k)) && Base64(k) != []
  {
    hide Base64;
    var k' := KeyOfText(Base64(k)).value;
    Base64Injective(k, k');
    KeyHasShape(k);
    var t := Base64(k);
    forall i | 0 <= i < |t|
      ensures !IsSpace(t[i]) && t[i] != '#' as int
    {
      assert i < 43 ==> t[..43][i] == t[i];
    }
  }

  lemma PrivateKeyStep(pf: Platform, c: Context, k: WgDevice.Key)
    requires c.inDevice
    ensures Step(pf, c, Setting("PrivateKey", Base64(k))) == Some(c.(privateKey := Some(k)))
  {
    hide Clean, GetValue, Step, Setting, Base64, KeyOfText, Solid;
    KeyOfBase64(k);
    var value := Base64(k);
    StepIsProcess(pf, c, "PrivateKey", value);
    assert "PrivateKey" + "=" == "PrivateKey=";
    OwnValue("PrivateKey=", value);
    var line := Chars("PrivateKey=") + value;
    assert line[0] == Chars("PrivateKey=")[0];
    OtherName(line, "ListenPort=", 0);
    OtherName(line, "FwMark=", 0);
  }

  // ---------------------------------------------------------------- lines of a peer

  /** The context with its last section replaced. */
  function WithLast(c: Context, s: Section): Context
    requires c.sections != []
  {
    c.(sections := c.sections[|c.sections| - 1 := s])
  }

  ghost predicate InSection(c: Context, s: Section) {
    c.inPeer && !c.inDevice && c.sections != [] && c.sections[|c.sections| - 1] == s
  }

  /** A setting inside a peer section. */
  lemma PeerStep(pf: Platform, c: Context, s: Section, key: string, value: Text, s': Section)
    requires InSection(c, s) && Literal(key) && key != [] && key[0] != '['
    requires PeerLine(pf, s, Chars(key + "=") + (if Solid(value) then value else Clean(value))) == Some(s')
    ensures Step(pf, c, Setting(key, value)) == Some(WithLast(c, s')) && InSection(WithLast(c, s'), s')
  {
    hide Clean, CaselessSame, PeerLine, Setting, Solid, Literal;
    StepIsProcess(pf, c, key, value);
    assert Chars(key + "=") + Clean(value) != [];
  }

  lemma PublicKeyStep(pf: Platform, c: Context, s: Section, k: WgDevice.Key)
    requires InSection(c, s)
    ensures var s' := Section(s.peer.(publicKey := k), true);
      Step(pf, c, Setting("PublicKey", Base64(k))) == Some(WithLast(c, s')) && InSection(WithLast(c, s'), s')
  {
    hide Clean, GetValue, Step, Setting, Base64, KeyOfText, Solid;
    KeyOfBase64(k);
    var value := Base64(k);
    assert "PublicKey" + "=" == "PublicKey=";
    OwnValue("PublicKey=", value);
    var line := Chars("PublicKey=") + value;
    assert line[0] == Chars("PublicKey=")[0];
    OtherName(line, "Endpoint=", 0);
    PeerStep(pf, c, s, "PublicKey", value, Section(s.peer.(publicKey := k), true));
  }

  lemma PresharedKeyStep(pf: Platform, c: Context, s: Section, k: WgDevice.Key)
    requires InSection(c, s)
    ensures var s' := s.(peer := s.peer.(presharedKey := Some(k)));
      Step(pf, c, Setting("PresharedKey", Base64(k))) == Some(WithLast(c, s')) && InSection(WithLast(c, s'), s')
  {
    hide Clean, GetValue, Step, Setting, Base64, KeyOfText, Solid;
    KeyOfBase64(k);
    var value := Base64(k);
    assert "PresharedKey" + "=" == "PresharedKey=";
    OwnValue("PresharedKey=", value);
    var line := Chars("PresharedKey=") + value;
    assert line[0] == Chars("PresharedKey=")[0] && line[1] == Chars("PresharedKey=")[1];
    OtherName(line, "Endpoint=", 0);
    OtherName(line, "PublicKey=", 1);
    OtherName(line, "AllowedIPs=", 0);
    OtherName(line, "PersistentKeepalive=", 1);
    PeerStep(pf, c, s, "PresharedKey", value, s.(peer := s.peer.(presharedKey := Some(k))));
  }

  lemma KeepaliveStep(pf: Platform, c: Context, s: Section, n: nat)
    requires InSection(c, s) && n < 0x10000
    ensures var s' := s.(peer := s.peer.(keepalive := Some(n)));
      Step(pf, c, Setting("PersistentKeepalive", Number(n, 10))) == Some(WithLast(c, s')) &&
        InSection(WithLast(c, s'), s')
  {
    hide Clean, GetValue, Step, Setting, Number, Solid, Parse;
    ParseNumber(n, 10);
    var value := Number(n, 10);
    assert "PersistentKeepalive" + "=" == "PersistentKeepalive=";
    OwnValue("PersistentKeepalive=", value);
    var line := Chars("PersistentKeepalive=") + value;
    assert line[0] == Chars("PersistentKeepalive=")[0] && line[1] == Chars("PersistentKeepalive=")[1];
    OtherName(line, "Endpoint=", 0);
    OtherName(line, "PublicKey=", 1);
    OtherName(line, "AllowedIPs=", 0);
    OtherName(value, "off", 0);
    PeerStep(pf, c, s, "PersistentKeepalive", value, s.(peer := s.peer.(keepalive := Some(n))));
  }

  lemma Bracketed(pf: Platform, host: Text, service: Text)
    requires ']' as int !in host && service != []
    ensures ParseEndpoint(pf, ['[' as int] + host + [']' as int, ':' as int] + service) == pf.resolve(host, service)
  {
    hide IndexOf, LastIndexOf;
    var open, rest := ['[' as int] + host, [':' as int] + service;
    var value := open + [']' as int, ':' as int] + service;
    assert value == open + [']' as int] + rest;
    IndexOfAfter(open, ']' as int, rest);
    assert value[1..|open|] == host && value[|open| + 2..] == service;
  }

  lemma Plain(pf: Platform, host: Text, service: Text)
    requires host != [] && host[0] != '[' as int && service != [] && ':' as int !in service
    ensures ParseEndpoint(pf, host + [':' as int] + service) == pf.resolve(host, service)
  {
    hide IndexOf;
    var value := host + [':' as int] + service;
    assert value[|host|] == ':' as int && value[0] == host[0];
    assert forall k :: |host| < k < |value| ==> value[k] == service[k - |host| - 1];
    assert LastIndexOf(value, ':' as int) == |host|;
    assert value[..|host|] == host && value[|host| + 1..] == service;
  }

  lemma SolidConcat(a: Text, b: Text)
    requires Solid(a) && Solid(b)
    ensures Solid(a + b)
  {
  }

  lemma EndpointBack(pf: Platform, e: seq<byte>)
    requires FaithfulEndpoint(pf, e)
    ensures var value := EndpointText(pf, e); Solid(value) && value != [] && ParseEndpoint(pf, value) == Some(e)
  {
    hide ParseEndpoint, Solid;
    var host, service := pf.hostOf(e), pf.serviceOf(e);
    assert Chars("[") == ['[' as int] && Chars(":") == [':' as int] && Chars("]:") == [']' as int, ':' as int];
    SolidChars("[");
    SolidChars(":");
    SolidChars("]:");
    if |e| == 28 && ':' as int in host {
      Bracketed(pf, host, service);
      SolidConcat(Chars("["), host);
      SolidConcat(Chars("[") + host, Chars("]:"));
      SolidConcat(Chars("[") + host + Chars("]:"), service);
    } else {
      Plain(pf, host, service);
      SolidConcat(host, Chars(":"));
      SolidConcat(host + Chars(":"), service);
    }
  }

  lemma EndpointStep(pf: Platform, c: Context, s: Section, e: seq<byte>)
    requires InSection(c, s) && FaithfulEndpoint(pf, e)
    ensures var s' := s.(peer := s.peer.(endpoint := Some(e)));
      Step(pf, c, Setting("Endpoint", EndpointText(pf, e))) == Some(WithLast(c, s')) && InSection(WithLast(c, s'), s')
  {
    hide Clean, GetValue, Step, Setting, Solid, EndpointText, ParseEndpoint, FaithfulEndpoint;
    EndpointBack(pf, e);
    var value := EndpointText(pf, e);
    assert "Endpoint" + "=" == "Endpoint=";
    OwnValue("Endpoint=", value);
    PeerStep(pf, c, s, "Endpoint", value, s.(peer := s.peer.(endpoint := Some(e))));
  }

  // ---------------------------------------------------------------- allowed IPs

  lemma NumberDecimal(n: nat)
    ensures Solid(Number(n, 10)) && Parse(Number(n, 10), 10) == Some(n) && IsDecimal(Number(n, 10)[0])
    ensures ',' as int !in Number(n, 10)
  {
    hide Number, Parse;
    ParseNumber(n, 10);
    forall c | c in Number(n, 10)
      ensures c != ',' as int
    {
      var i :| 0 <= i < |Number(n, 10)| && Number(n, 10)[i] == c;
    }
  }

  lemma IpBack(pf: Platform, ip: AllowedIp)
    requires Faithful(pf) && ReportedIp(ip)
    ensures var t := IpText(pf, ip);
      Solid(t) && ',' as int !in t && t != [] && !Incremental(t) && ParseEntry(pf, t) == Some(ip.(flags := 0))
  {
    hide Number, Parse, IndexOf, Solid, Chars;
    var addr := if ip.family == AF_INET then pf.ntop4(ip.addr) else pf.ntop6(ip.addr);
    assert AddressText(addr);
    var mask := Number(ip.cidr, 10);
    NumberDecimal(ip.cidr);
    SlashJoined(addr, mask);
  }

  /** An address, a slash and a mask. */
  lemma SlashJoined(addr: Text, mask: Text)
    requires AddressText(addr) && Solid(mask) && ',' as int !in mask
    ensures var t := addr + Chars("/") + mask;
      && Solid(t) && ',' as int !in t && t != [] && !Incremental(t) && t[0] == addr[0]
      && IndexOf(t, '/' as int) == |addr| < |t| && t[..|addr|] == addr && t[|addr| + 1..] == mask
  {
    hide IndexOf;
    assert Chars("/") == ['/' as int];
    IndexOfAfter(addr, '/' as int, mask);
  }

  lemma {:induction false} EntriesBack(pf: Platform, ips: seq<AllowedIp>, p: Peer)
    requires Faithful(pf) && forall k :: 0 <= k < |ips| ==> ReportedIp(ips[k])
    ensures ParseEntries(pf, IpTexts(pf, ips), p) == Some(p.(ips := p.ips + RebuiltIps(ips)))
    decreases |ips|
  {
    hide IpText, ParseEntry, Faithful, ReportedIp;
    if ips == [] {
      assert p.ips + RebuiltIps(ips) == p.ips;
    } else {
      var n := |ips| - 1;
      EntriesBack(pf, ips[..n], p);
      assert IpTexts(pf, ips)[..n] == IpTexts(pf, ips[..n]);
      IpBack(pf, ips[n]);
      assert RebuiltIps(ips) == RebuiltIps(ips[..n]) + [ips[n].(flags := 0)];
      assert p.ips + RebuiltIps(ips) == (p.ips + RebuiltIps(ips[..n])) + [ips[n].(flags := 0)];
    }
  }

  lemma ListBack(pf: Platform, ips: seq<AllowedIp>, p: Peer)
    requires Faithful(pf) && ips != [] && forall k :: 0 <= k < |ips| ==> ReportedIp(ips[k])
    ensures var value := Clean(Join(IpTexts(pf, ips), Chars(", ")));
      value != [] && ParseAllowedIps(pf, value, p) == Some(p.(replaceIps := true, ips := p.ips + RebuiltIps(ips)))
  {
    hide IpText, Clean, Split, ParseEntries, Faithful, ReportedIp, Solid;
    var texts := IpTexts(pf, ips);
    forall i | 0 <= i < |texts|
      ensures Solid(texts[i]) && ',' as int !in texts[i] && texts[i] != []
    {
      IpBack(pf, ips[i]);
    }
    CleanJoin(texts);
    assert Chars(",") == [',' as int];
    SplitJoin(texts, ',' as int);
    EntriesBack(pf, ips, p.(replaceIps := true));
  }

  lemma IpsStep(pf: Platform, c: Context, s: Section, ips: seq<AllowedIp>)
    requires InSection(c, s) && Faithful(pf) && ips != [] && forall k :: 0 <= k < |ips| ==> ReportedIp(ips[k])
    ensures var s' := s.(peer := s.peer.(replaceIps := true, ips := s.peer.ips + RebuiltIps(ips)));
      Step(pf, c, Setting("AllowedIPs", Join(IpTexts(pf, ips), Chars(", ")))) == Some(WithLast(c, s')) &&
        InSection(WithLast(c, s'), s')
  {
    hide Clean, GetValue, Step, Setting, Solid, Join, IpTexts, ParseAllowedIps, Faithful, ReportedIp, RebuiltIps;
    ListBack(pf, ips, s.peer);
    var printed := Join(IpTexts(pf, ips), Chars(", "));
    var value := Clean(printed);
    StepIsProcess(pf, c, "AllowedIPs", printed);
    assert "AllowedIPs" + "=" == "AllowedIPs=";
    OwnValue("AllowedIPs=", value);
    var line := Chars("AllowedIPs=") + value;
    assert line[0] == Chars("AllowedIPs=")[0];
    OtherName(line, "Endpoint=", 0);
    OtherName(line, "PublicKey=", 0);
    PeerStep(pf, c, s, "AllowedIPs", printed,
      s.(peer := s.peer.(replaceIps := true, ips := s.peer.ips + RebuiltIps(ips))));
  }

  /** With a known last family the printed list is that of the known ones, separated by commas. */
  lemma {:induction false} ListedJoined(pf: Platform, ips: seq<AllowedIp>)
    requires ips != [] && Known(ips[|ips| - 1])
    ensures KnownOf(ips) != [] && Listed(pf, ips) == Join(IpTexts(pf, KnownOf(ips)), Chars(", "))
    decreases |ips|
  {
    hide IpText;
    if |ips| == 1 {
      assert KnownOf(ips) == ips && ips[1..] == [];
      assert Listed(pf, ips) == IpText(pf, ips[0]);
    } else {
      ListedJoined(pf, ips[1..]);
      if Known(ips[0]) {
        var rest := KnownOf(ips[1..]);
        assert KnownOf(ips) == [ips[0]] + rest;
        assert IpTexts(pf, KnownOf(ips))[1..] == IpTexts(pf, rest);
      } else {
        assert KnownOf(ips) == KnownOf(ips[1..]);
        assert Listed(pf, ips) == Listed(pf, ips[1..]);
      }
    }
  }

  lemma {:induction false} KnownReported(ips: seq<AllowedIp>)
    requires forall k :: 0 <= k < |ips| && Known(ips[k]) ==> ReportedIp(ips[k])
    ensures forall k :: 0 <= k < |KnownOf(ips)| ==> ReportedIp(KnownOf(ips)[k])
    decreases |ips|
  {
    hide ReportedIp;
    if ips != [] {
      assert forall k :: 0 <= k < |ips[1..]| ==> ips[1..][k] == ips[k + 1];
      KnownReported(ips[1..]);
    }
  }

  /** With an unknown last family nothing is printed, or a comma is the last of it. */
  lemma {:induction false} ListedDangling(pf: Platform, ips: seq<AllowedIp>)
    requires Faithful(pf) && ips != [] && !Known(ips[|ips| - 1])
    requires forall k :: 0 <= k < |ips| && Known(ips[k]) ==> ReportedIp(ips[k])
    ensures var t := Clean(Listed(pf, ips)); t == [] || t[|t| - 1] == ',' as int
    decreases |ips|
  {
    hide IpText, Clean, Faithful, ReportedIp, Solid;
    if |ips| == 1 {
      assert ips[1..] == [] && Listed(pf, ips) == [];
      CleanNothing();
    } else {
      assert forall k :: 0 <= k < |ips[1..]| ==> ips[1..][k] == ips[k + 1];
      ListedDangling(pf, ips[1..]);
      if Known(ips[0]) {
        var text, rest := IpText(pf, ips[0]), Listed(pf, ips[1..]);
        IpBack(pf, ips[0]);
        SolidClean(text);
        CommaSpace();
        CleanConcat(Chars(", "), rest);
        CleanConcat(text, Chars(", ") + rest);
        assert text + Chars(", ") + rest == text + (Chars(", ") + rest);
        assert Clean(text + Chars(", ") + rest) == text + (Chars(",") + Clean(rest));
        assert Chars(",")[0] == ',' as int;
      } else {
        assert Listed(pf, ips) == Listed(pf, ips[1..]);
      }
    }
  }

  lemma CleanNothing()
    ensures Clean([]) == []
  {
  }

  lemma SolidClean(t: Text)
    requires Solid(t)
    ensures Clean(t) == t && '#' as int !in t
  {
    CleanSolid(t);
  }

  /** Splitting what ends with the separator ends with an empty piece. */
  lemma {:induction false} SplitDangling(t: Text, c: cchar)
    requires t != [] && t[|t| - 1] == c
    ensures var s := Split(t, c); s != [] && s[|s| - 1] == []
    decreases |t|
  {
    var i := IndexOf(t, c);
    var rest := t[i + 1..];
    if rest == [] {
      assert IndexOf(rest, c) == 0;
      assert Split(rest, c) == [rest];
    } else {
      SplitDangling(rest, c);
    }
  }

  lemma EmptyEntry(pf: Platform, entries: seq<Text>, p: Peer)
    requires Faithful(pf) && entries != [] && entries[|entries| - 1] == []
    ensures ParseEntries(pf, entries, p) == None
  {
    var none: Text := [];
    assert IndexOf(none, '/' as int) == 0 && none[..0] == none;
    assert ParseEntry(pf, none) == None;
  }

  /** Such a list is refused when it is read back. */
  lemma DanglingRefused(pf: Platform, c: Context, s: Section, ips: seq<AllowedIp>)
    requires InSection(c, s) && Faithful(pf) && ips != [] && !Known(ips[|ips| - 1])
    requires forall k :: 0 <= k < |ips| && Known(ips[k]) ==> ReportedIp(ips[k])
    ensures Step(pf, c, Setting("AllowedIPs", Listed(pf, ips))) == None
  {
    hide Clean, CaselessSame, GetValue, Setting, Listed, ParseEntries, Faithful, ReportedIp, Split;
    var printed := Listed(pf, ips);
    var value := Clean(printed);
    ListedDangling(pf, ips);
    StepIsProcess(pf, c, "AllowedIPs", printed);
    assert "AllowedIPs" + "=" == "AllowedIPs=";
    var line := Chars("AllowedIPs=") + value;
    OnlyAllowedIps(value);
    if value == [] {
      NoValue("AllowedIPs=");
      assert line == Chars("AllowedIPs=");
    } else {
      OwnValue("AllowedIPs=", value);
      SplitDangling(value, ',' as int);
      EmptyEntry(pf, Split(value, ',' as int), s.peer.(replaceIps := true));
    }
  }

  lemma OnlyAllowedIps(value: Text)
    ensures var line := Chars("AllowedIPs=") + value;
      && GetValue(line, "Endpoint=").None? && GetValue(line, "PublicKey=").None?
      && GetValue(line, "PersistentKeepalive=").None? && GetValue(line, "PresharedKey=").None?
  {
    hide CaselessSame, GetValue;
    var line := Chars("AllowedIPs=") + value;
    assert line[0] == Chars("AllowedIPs=")[0];
    OtherName(line, "Endpoint=", 0);
    OtherName(line, "PublicKey=", 0);
    OtherName(line, "PersistentKeepalive=", 0);
    OtherName(line, "PresharedKey=", 0);
  }

  lemma NoValue(key: string)
    ensures GetValue(Chars(key), key) == None
  {
  }

  // ---------------------------------------------------------------- whole sections

  lemma {:induction false} ReadOn(pf: Platform, c: Context, a: seq<Text>, b: seq<Text>)
    requires ReadAll(pf, c, a).Some?
    ensures ReadAll(pf, c, a + b) == ReadAll(pf, ReadAll(pf, c, a).value, b)
    decreases |a|
  {
    hide Step;
    if a == [] {
      assert a + b == b;
    } else {
      assert (a + b)[1..] == a[1..] + b;
      ReadOn(pf, Step(pf, c, a[0]).value, a[1..], b);
    }
  }

  lemma ReadOne(pf: Platform, c: Context, line: Text)
    ensures ReadAll(pf, c, [line]) == Step(pf, c, line)
    ensures ReadAll(pf, c, []) == Some(c)
  {
    hide Step;
    assert [line][1..] == [];
  }

  /** Reading these lines inside a section turns it into another. */
  ghost predicate Turns(pf: Platform, c: Context, lines: seq<Text>, s: Section, s': Section) {
    InSection(c, s) && ReadAll(pf, c, lines) == Some(WithLast(c, s')) && InSection(WithLast(c, s'), s')
  }

  lemma TurnsThen(pf: Platform, c: Context, a: seq<Text>, b: seq<Text>, s: Section, s1: Section, s2: Section)
    requires Turns(pf, c, a, s, s1) && Turns(pf, WithLast(c, s1), b, s1, s2)
    ensures Turns(pf, c, a + b, s, s2)
  {
    hide ReadAll;
    ReadOn(pf, c, a, b);
    assert WithLast(WithLast(c, s1), s2) == WithLast(c, s2);
  }

  lemma TurnsNothing(pf: Platform, c: Context, s: Section)
    requires InSection(c, s)
    ensures Turns(pf, c, [], s, s)
  {
    assert c.sections[|c.sections| - 1 := s] == c.sections;
  }

  lemma PresharedLines(pf: Platform, c: Context, s: Section, k: Option<WgDevice.Key>)
    requires InSection(c, s) && s.peer.presharedKey == None
    ensures Turns(pf, c, KeyLines("PresharedKey", k), s, s.(peer := s.peer.(presharedKey := k)))
  {
    hide Step, ReadAll, Setting, Base64;
    if k.Some? {
      PresharedKeyStep(pf, c, s, k.value);
      ReadOne(pf, c, Setting("PresharedKey", Base64(k.value)));
    } else {
      TurnsNothing(pf, c, s);
    }
  }

  lemma IpLinesBack(pf: Platform, c: Context, s: Section, p: Peer)
    requires InSection(c, s) && Faithful(pf) && ReportedPeer(pf, p) && s.peer.ips == [] && s.peer.replaceIps
    requires Readable(p)
    ensures Turns(pf, c, IpLines(pf, p), s, s.(peer := s.peer.(ips := RebuiltIps(KnownOf(p.ips)))))
  {
    hide Step, ReadAll, Setting, Faithful, Listed, ReportedIp;
    if p.ips == [] {
      TurnsNothing(pf, c, s);
    } else {
      var known := KnownOf(p.ips);
      KnownReported(p.ips);
      ListedJoined(pf, p.ips);
      IpsStep(pf, c, s, known);
      assert [] + RebuiltIps(known) == RebuiltIps(known);
      ReadOne(pf, c, Setting("AllowedIPs", Listed(pf, p.ips)));
    }
  }

  /** The printed allowed IPs of the peer do not end with one that cannot be printed. */
  predicate Readable(p: Peer) {
    p.ips == [] || Known(p.ips[|p.ips| - 1])
  }

  lemma EndpointLinesBack(pf: Platform, c: Context, s: Section, p: Peer)
    requires InSection(c, s) && Faithful(pf) && ReportedPeer(pf, p) && s.peer.endpoint == None
    ensures Turns(pf, c, EndpointLines(pf, p), s, s.(peer := s.peer.(endpoint := p.endpoint)))
  {
    hide Step, ReadAll, Setting, EndpointText, FaithfulEndpoint;
    if p.endpoint.None? {
      TurnsNothing(pf, c, s);
    } else {
      EndpointStep(pf, c, s, p.endpoint.value);
      ReadOne(pf, c, Setting("Endpoint", EndpointText(pf, p.endpoint.value)));
    }
  }

  lemma KeepaliveLinesBack(pf: Platform, c: Context, s: Section, p: Peer)
    requires InSection(c, s) && ReportedPeer(pf, p) && s.peer.keepalive == None
    ensures Turns(pf, c, KeepaliveLines(p), s, s.(peer := s.peer.(keepalive := RebuiltPeer(p).keepalive)))
  {
    hide Step, ReadAll, Setting, Number, RebuiltIps;
    var n := OrZeroed(p.keepalive);
    if n == 0 {
      TurnsNothing(pf, c, s);
    } else {
      KeepaliveStep(pf, c, s, n);
      ReadOne(pf, c, Setting("PersistentKeepalive", Number(n, 10)));
    }
  }

  function Opened(c: Context): Context {
    c.(sections := c.sections + [NewSection()], inPeer := true, inDevice := false)
  }

  lemma PeerHeader(pf: Platform, c: Context)
    ensures Step(pf, c, Chars("[Peer]")) == Some(Opened(c)) && InSection(Opened(c), NewSection())
  {
    hide Clean, DeviceLine, PeerLine;
    var line := Chars("[Peer]");
    SolidChars("[Peer]");
    CleanSolid(line);
    assert line[1] == 'P' as int;
    OtherName(line, "[Interface]", 1);
    assert CaselessSame(line, "[Peer]");
  }

  lemma InterfaceHeader(pf: Platform, c: Context)
    ensures Step(pf, c, Chars("[Interface]")) == Some(c.(inPeer := false, inDevice := true))
    ensures Step(pf, c, []) == Some(c)
  {
    hide Clean, DeviceLine, PeerLine, CaselessSame;
    SolidChars("[Interface]");
    CleanSolid(Chars("[Interface]"));
    SameAsItself("[Interface]");
    EmptyLine(pf, c);
  }

  lemma EmptyLine(pf: Platform, c: Context)
    ensures Step(pf, c, []) == Some(c)
  {
    hide DeviceLine, PeerLine, CaselessSame;
    CleanSolid([]);
  }

  lemma SameAsItself(s: string)
    requires Literal(s)
    ensures CaselessSame(Chars(s), s)
  {
    hide Upper;
  }

  /** After its header, the printed lines of a peer fill the section with that peer. */
  lemma SectionBack(pf: Platform, c: Context, p: Peer)
    requires Faithful(pf) && ReportedPeer(pf, p) && Readable(p) && InSection(c, NewSection())
    ensures Turns(pf, c, [Setting("PublicKey", Base64(p.publicKey))] + KeyLines("PresharedKey", p.presharedKey)
      + IpLines(pf, p) + EndpointLines(pf, p) + KeepaliveLines(p), NewSection(), Section(RebuiltPeer(p), true))
  {
    hide Step, ReadAll, Setting, Base64, Faithful, KeyLines, IpLines, EndpointLines, KeepaliveLines, RebuiltIps;
    hide ReportedPeer, InSection, KnownOf, Readable;
    var s0, r := NewSection(), RebuiltPeer(p);
    var s1 := Section(s0.peer.(publicKey := p.publicKey), true);
    var s2 := s1.(peer := s1.peer.(presharedKey := p.presharedKey));
    var s3 := s2.(peer := s2.peer.(ips := r.ips));
    var s4 := s3.(peer := s3.peer.(endpoint := p.endpoint));
    var s5 := s4.(peer := s4.peer.(keepalive := r.keepalive));
    SectionShape(c, s0);
    var l1 := [Setting("PublicKey", Base64(p.publicKey))];
    PublicKeyStep(pf, c, s0, p.publicKey);
    ReadOne(pf, c, Setting("PublicKey", Base64(p.publicKey)));
    PresharedLines(pf, WithLast(c, s1), s1, p.presharedKey);
    var l2 := l1 + KeyLines("PresharedKey", p.presharedKey);
    TurnsThen(pf, c, l1, KeyLines("PresharedKey", p.presharedKey), s0, s1, s2);
    IpLinesBack(pf, WithLast(c, s2), s2, p);
    var l3 := l2 + IpLines(pf, p);
    TurnsThen(pf, c, l2, IpLines(pf, p), s0, s2, s3);
    EndpointLinesBack(pf, WithLast(c, s3), s3, p);
    var l4 := l3 + EndpointLines(pf, p);
    TurnsThen(pf, c, l3, EndpointLines(pf, p), s0, s3, s4);
    KeepaliveLinesBack(pf, WithLast(c, s4), s4, p);
    TurnsThen(pf, c, l4, KeepaliveLines(p), s0, s4, s5);
    assert s5 == Section(r, true);
  }

  lemma SectionShape(c: Context, s: Section)
    requires InSection(c, s)
    ensures c.sections != []
  {
  }

  function RebuiltSections(ps: seq<Peer>): seq<Section> {
    seq(|ps|, i requires 0 <= i < |ps| => Section(RebuiltPeer(ps[i]), true))
  }

  /** The context after more sections, wherever the reader stands. */
  ghost predicate Adds(c: Context, more: seq<Section>, r: Option<Context>) {
    r.Some? && r.value.(inPeer := c.inPeer, inDevice := c.inDevice) == c.(sections := c.sections + more)
  }

  lemma PeerBack(pf: Platform, c: Context, p: Peer)
    requires Faithful(pf) && ReportedPeer(pf, p) && Readable(p)
    ensures Adds(c, [Section(RebuiltPeer(p), true)], ReadAll(pf, c, PeerLines(pf, p)))
  {
    hide Step, ReadAll, Setting, Base64, Faithful, KeyLines;
    hide IpLines, EndpointLines, KeepaliveLines, RebuiltPeer, ReportedPeer;
    PeerHeader(pf, c);
    ReadOne(pf, c, Chars("[Peer]"));
    SectionBack(pf, Opened(c), p);
    var rest := [Setting("PublicKey", Base64(p.publicKey))] + KeyLines("PresharedKey", p.presharedKey)
      + IpLines(pf, p) + EndpointLines(pf, p) + KeepaliveLines(p);
    ReadOn(pf, c, [Chars("[Peer]")], rest);
    HeaderFirst(Chars("[Peer]"), Setting("PublicKey", Base64(p.publicKey)), KeyLines("PresharedKey", p.presharedKey),
                IpLines(pf, p), EndpointLines(pf, p), KeepaliveLines(p));
    var s := Section(RebuiltPeer(p), true);
    assert WithLast(Opened(c), s).sections == c.sections + [s];
  }

  lemma HeaderFirst(header: Text, key: Text, a: seq<Text>, b: seq<Text>, c: seq<Text>, d: seq<Text>)
    ensures [header, key] + a + b + c + d == [header] + ([key] + a + b + c + d)
  {
  }

  lemma {:induction false} PeersBack(pf: Platform, c: Context, ps: seq<Peer>)
    requires Faithful(pf) && forall i :: 0 <= i < |ps| ==> ReportedPeer(pf, ps[i]) && Readable(ps[i])
    ensures Adds(c, RebuiltSections(ps), ReadAll(pf, c, AllPeerLines(pf, ps)))
    decreases |ps|
  {
    hide Step, Faithful, PeerLines, RebuiltPeer, ReportedPeer, ReadAll, Readable;
    ReadOne(pf, c, []);
    if ps == [] {
      assert c.sections + RebuiltSections(ps) == c.sections;
    } else {
      var n := |ps| - 1;
      PeersBack(pf, c, ps[..n]);
      var before, gap := AllPeerLines(pf, ps[..n]), if |ps| == 1 then [] else [[]];
      var c1 := ReadAll(pf, c, before).value;
      ReadOn(pf, c, before, gap);
      InterfaceHeader(pf, c1);
      ReadOne(pf, c1, []);
      PeerBack(pf, c1, ps[n]);
      ReadOn(pf, c, before + gap, PeerLines(pf, ps[n]));
      assert RebuiltSections(ps) == RebuiltSections(ps[..n]) + [Section(RebuiltPeer(ps[n]), true)];
      assert c.sections + RebuiltSections(ps) == (c.sections + RebuiltSections(ps[..n])) +
        [Section(RebuiltPeer(ps[n]), true)];
    }
  }

  /** Reading these lines in the device section gives another context in it. */
  ghost predicate Sets(pf: Platform, c: Context, lines: seq<Text>, c': Context) {
    c.inDevice && c'.inDevice && ReadAll(pf, c, lines) == Some(c')
  }

  lemma SetsThen(pf: Platform, c: Context, a: seq<Text>, b: seq<Text>, c1: Context, c2: Context)
    requires Sets(pf, c, a, c1) && Sets(pf, c1, b, c2)
    ensures Sets(pf, c, a + b, c2)
  {
    hide ReadAll;
    ReadOn(pf, c, a, b);
  }

  lemma DeviceSettings(pf: Platform, c: Context, d: Device)
    requires Faithful(pf) && Reported(pf, d) && c.inDevice && c.listenPort == Some(0) && c.fwmark == Some(0) &&
      c.privateKey == Some(ZeroKey())
    ensures var r := Rebuilt(d);
      && Sets(pf, c,
              if OrZeroed(d.listenPort) != 0 then [Setting("ListenPort", Number(OrZeroed(d.listenPort), 10))] else [],
              c.(listenPort := r.listenPort))
      && Sets(pf, c.(listenPort := r.listenPort),
              if OrZeroed(d.fwmark) != 0 then [Setting("FwMark", Chars("0x") + Number(OrZeroed(d.fwmark), 16))] else [],
              c.(listenPort := r.listenPort, fwmark := r.fwmark))
      && Sets(pf, c.(listenPort := r.listenPort, fwmark := r.fwmark), KeyLines("PrivateKey", d.privateKey),
              c.(listenPort := r.listenPort, fwmark := r.fwmark, privateKey := r.privateKey))
  {
    hide Step, ReadAll, Setting, Number, Base64, Faithful, RebuiltPeer, ReportedPeer;
    var r := Rebuilt(d);
    var port, mark := OrZeroed(d.listenPort), OrZeroed(d.fwmark);
    var c1, c2 := c.(listenPort := r.listenPort), c.(listenPort := r.listenPort, fwmark := r.fwmark);
    ReadOne(pf, c, Setting("ListenPort", Number(port, 10)));
    ReadOne(pf, c1, Setting("FwMark", Chars("0x") + Number(mark, 16)));
    if port != 0 {
      PortStep(pf, c, port);
    }
    if mark != 0 {
      MarkStep(pf, c1, mark);
    }
    if d.privateKey.Some? {
      PrivateKeyStep(pf, c2, d.privateKey.value);
      ReadOne(pf, c2, Setting("PrivateKey", Base64(d.privateKey.value)));
    } else {
      ReadOne(pf, c2, []);
    }
  }

  lemma DeviceBack(pf: Platform, d: Device)
    requires Faithful(pf) && Reported(pf, d)
    ensures var r := Rebuilt(d);
      ReadAll(pf, Init(false), DeviceLines(d)) ==
        Some(Context(r.privateKey, r.listenPort, r.fwmark, true, [], true, false))
  {
    hide Step, ReadAll, Setting, Number, Base64, Faithful, RebuiltPeer, ReportedPeer, KeyLines;
    var r := Rebuilt(d);
    var c := Init(false).(inDevice := true);
    InterfaceHeader(pf, Init(false));
    ReadOne(pf, Init(false), Chars("[Interface]"));
    DeviceSettings(pf, c, d);
    var port := if OrZeroed(d.listenPort) != 0 then [Setting("ListenPort", Number(OrZeroed(d.listenPort), 10))] else [];
    var mark :=
      if OrZeroed(d.fwmark) != 0 then [Setting("FwMark", Chars("0x") + Number(OrZeroed(d.fwmark), 16))] else [];
    var key := KeyLines("PrivateKey", d.privateKey);
    var c1, c2 := c.(listenPort := r.listenPort), c.(listenPort := r.listenPort, fwmark := r.fwmark);
    var c3 := c2.(privateKey := r.privateKey);
    SetsThen(pf, c, port, mark, c1, c2);
    SetsThen(pf, c, port + mark, key, c2, c3);
    InterfaceHeader(pf, c3);
    ReadOne(pf, c3, []);
    SetsThen(pf, c, port + mark + key, [[]], c3, c3);
    ReadOn(pf, Init(false), [Chars("[Interface]")], port + mark + key + [[]]);
    assert [Chars("[Interface]")] + port + mark + key + [[]] == [Chars("[Interface]")] + (port + mark + key + [[]]);
  }

  lemma {:induction false} ReadFails(pf: Platform, c: Context, a: seq<Text>, b: seq<Text>)
    requires ReadAll(pf, c, a) == None
    ensures ReadAll(pf, c, a + b) == None
    decreases |a|
  {
    hide Step;
    assert (a + b)[1..] == a[1..] + b;
    if Step(pf, c, a[0]).Some? {
      ReadFails(pf, Step(pf, c, a[0]).value, a[1..], b);
    }
  }

  /** A peer whose printed list ends with a comma stops the reader. */
  lemma PeerFails(pf: Platform, c: Context, p: Peer)
    requires Faithful(pf) && ReportedPeer(pf, p) && !Readable(p)
    ensures ReadAll(pf, c, PeerLines(pf, p)) == None
  {
    hide Step, ReadAll, Setting, Base64, Faithful, KeyLines, EndpointLines, KeepaliveLines, Listed, ReportedIp;
    PeerHeader(pf, c);
    ReadOne(pf, c, Chars("[Peer]"));
    var c0, s0 := Opened(c), NewSection();
    var key, psk := [Setting("PublicKey", Base64(p.publicKey))], KeyLines("PresharedKey", p.presharedKey);
    var s1 := Section(s0.peer.(publicKey := p.publicKey), true);
    var s2 := s1.(peer := s1.peer.(presharedKey := p.presharedKey));
    PublicKeyStep(pf, c0, s0, p.publicKey);
    ReadOne(pf, c0, Setting("PublicKey", Base64(p.publicKey)));
    PresharedLines(pf, WithLast(c0, s1), s1, p.presharedKey);
    TurnsThen(pf, c0, key, psk, s0, s1, s2);
    var c2 := WithLast(c0, s2);
    DanglingRefused(pf, c2, s2, p.ips);
    ReadOne(pf, c2, Setting("AllowedIPs", Listed(pf, p.ips)));
    ReadOn(pf, c0, key + psk, IpLines(pf, p));
    ReadFails(pf, c0, key + psk + IpLines(pf, p), EndpointLines(pf, p));
    ReadFails(pf, c0, key + psk + IpLines(pf, p) + EndpointLines(pf, p), KeepaliveLines(p));
    ReadOn(pf, c, [Chars("[Peer]")], key + psk + IpLines(pf, p) + EndpointLines(pf, p) + KeepaliveLines(p));
    HeaderFirst(Chars("[Peer]"), Setting("PublicKey", Base64(p.publicKey)), psk, IpLines(pf, p), EndpointLines(pf, p),
                KeepaliveLines(p));
  }

  lemma {:induction false} PeersFail(pf: Platform, c: Context, ps: seq<Peer>, k: nat)
    requires Faithful(pf) && k < |ps| && !Readable(ps[k]) && forall i :: 0 <= i < |ps| ==> ReportedPeer(pf, ps[i])
    ensures ReadAll(pf, c, AllPeerLines(pf, ps)) == None
    decreases |ps|
  {
    hide Step, Faithful, PeerLines, RebuiltPeer, ReportedPeer, ReadAll, Readable;
    var n := |ps| - 1;
    var before, gap := AllPeerLines(pf, ps[..n]), if |ps| == 1 then [] else [[]];
    if i :| 0 <= i < n && !Readable(ps[i]) {
      assert ps[..n][i] == ps[i];
      PeersFail(pf, c, ps[..n], i);
      ReadFails(pf, c, before, gap);
      ReadFails(pf, c, before + gap, PeerLines(pf, ps[n]));
    } else {
      assert forall i :: 0 <= i < n ==> ps[..n][i] == ps[i];
      PeersBack(pf, c, ps[..n]);
      var c1 := ReadAll(pf, c, before).value;
      ReadOn(pf, c, before, gap);
      InterfaceHeader(pf, c1);
      ReadOne(pf, c1, []);
      PeerFails(pf, c1, ps[n]);
      ReadOn(pf, c, before + gap, PeerLines(pf, ps[n]));
    }
  }

  ghost predicate AllReadable(d: Device) {
    forall i :: 0 <= i < |d.peers| ==> Readable(d.peers[i])
  }

  /**
   The theorem: what showconf prints reads back, line by line, as the device that was
   printed, exactly when no peer's list ends with an address that cannot be printed.
   */
  lemma RoundTrip(pf: Platform, d: Device)
    requires Faithful(pf) && Reported(pf, d)
    ensures var c := ReadAll(pf, Init(false), Show(pf, d));
      (c.Some? <==> AllReadable(d)) && (c.Some? ==> Finish(c.value) == Some(Rebuilt(d)))
  {
    hide Step, ReadAll, DeviceLines, AllPeerLines, Faithful, RebuiltPeer, ReportedPeer, Readable;
    DeviceBack(pf, d);
    var c := ReadAll(pf, Init(false), DeviceLines(d)).value;
    ReadOn(pf, Init(false), DeviceLines(d), AllPeerLines(pf, d.peers));
    if AllReadable(d) {
      PeersBack(pf, c, d.peers);
      assert [] + RebuiltSections(d.peers) == RebuiltSections(d.peers);
      var done := ReadAll(pf, c, AllPeerLines(pf, d.peers)).value;
      assert done.sections == RebuiltSections(d.peers);
      assert Finish(done).value.peers == Rebuilt(d).peers;
    } else {
      var k :| 0 <= k < |d.peers| && !Readable(d.peers[k]);
      PeersFail(pf, c, d.peers, k);
    }
  }

  /** A peer whose only allowed IP is of another family: its printed form cannot be read. */
  lemma UnknownFamily(pf: Platform, d: Device)
    requires Faithful(pf) && Reported(pf, d) && |d.peers| == 1 && d.peers[0].ips == [AllowedIp(0, [], 0, 0)]
    ensures ReadAll(pf, Init(false), Show(pf, d)) == None
  {
    hide ReadAll, Show, Faithful, Reported;
    RoundTrip(pf, d);
    assert !Readable(d.peers[0]);
  }

  /** The same with the reader itself. */
  method ReadShown(pf: Platform, d: Device) returns (read: Option<Device>)
    requires Faithful(pf) && Reported(pf, d)
    ensures read == if AllReadable(d) then Some(Rebuilt(d)) else None
  {
    hide Step, ReadAll, Show, Rebuilt, Faithful, Reported, Finish, AllReadable;
    var reader := new ConfigReader(pf, false);
    var lines := Show(pf, d);
    RoundTrip(pf, d);
    for i := 0 to |lines|
      invariant reader.Valid() && reader.pf == pf && fresh(reader)
      invariant ReadAll(pf, Init(false), lines) == ReadAll(pf, reader.context, lines[i..])
    {
      NextLine(pf, reader.context, lines[i..]);
      assert lines[i..][1..] == lines[i + 1..];
      var ok := reader.ReadLine(lines[i]);
      if !ok {
        return None;
      }
    }
    assert lines[|lines|..] == [];
    ReadOne(pf, reader.context, []);
    return Finish(reader.context);
  }

  lemma NextLine(pf: Platform, c: Context, lines: seq<Text>)
    requires lines != []
    ensures ReadAll(pf, c, lines) ==
      if Step(pf, c, lines[0]).Some? then ReadAll(pf, Step(pf, c, lines[0]).value, lines[1..]) else None
  {
    hide Step;
  }
}
