/**
 Reading a configuration line by line into a device. Address and name lookups belong
 to the platform and are parameters.
 */
module Config {
  import opened Bits
  import opened Options
  import opened Ascii
  import opened KeyCodec
  import opened ConfigText
  import opened WgDevice

  /**
   The lookups of the C library, and whether its unsigned long is wider than 32 bits. Endpoints are
   socket addresses: 16 bytes for IPv4, 28 for IPv6.
   */
  datatype Platform = Platform(
    pton4: Text -> Option<seq<byte>>,
    pton6: Text -> Option<seq<byte>>,
    ntop4: seq<byte> -> Text,
    ntop6: seq<byte> -> Text,
    service: Text -> Option<nat>,
    resolve: (Text, Text) -> Option<seq<byte>>,
    hostOf: seq<byte> -> Text,
    serviceOf: seq<byte> -> Text,
    wideLong: bool)

  /** A peer section; without a public key it is not complete. */
  datatype Section = Section(peer: Peer, hasKey: bool)

  datatype Context = Context(privateKey: Option<WgDevice.Key>, listenPort: Option<nat>, fwmark: Option<nat>,
                             replacePeers: bool,
                             sections: seq<Section>, inDevice: bool, inPeer: bool)

  /** config_read_init */
  function Init(append: bool): Context {
    if append then Context(None, None, None, false, [], false, false)
    else Context(Some(ZeroKey()), Some(0), Some(0), true, [], false, false)
  }

  function NewSection(): Section {
    Section(Peer(ZeroKey(), false, true, None, None, None, []), false)
  }

  function GetValue(line: Text, key: string): Option<Text> {
    if |key| >= |line| then None
    else if CaselessSame(line[..|key|], key) then Some(line[|key|..])
    else None
  }

  ghost function KeyOfText(t: Text): Option<WgDevice.Key> {
    if k: WgDevice.Key :| Base64(k) == t then Some(k) else None
  }

  function AtMost(n: Option<nat>, max: nat): Option<nat> {
    if n.Some? && n.value <= max then n else None
  }

  function ParsePort(pf: Platform, value: Text): Option<nat> {
    if value == [] then None else pf.service(value)
  }

  /** What strtoul yields, which is at most the largest unsigned long, and the test against UINT32_MAX. */
  function AtMostMark(pf: Platform, n: Option<nat>): Option<nat> {
    if n.Some? && n.value > 0xFFFF_FFFF && !pf.wideLong then Some(0xFFFF_FFFF) else AtMost(n, 0xFFFF_FFFF)
  }

  function ParseFwmark(pf: Platform, value: Text): Option<nat> {
    if CaselessSame(value, "off") then Some(0)
    else if value == [] || !IsDecimal(value[0]) then None
    else if |value| > 2 && value[0] == '0' as int && value[1] == 'x' as int
    then AtMostMark(pf, Parse(value[2..], 16))
    else AtMostMark(pf, Parse(value, 10))
  }

  function ParseKeepalive(value: Text): Option<nat> {
    if CaselessSame(value, "off") then Some(0)
    else if value == [] || !IsDecimal(value[0]) then None
    else AtMost(Parse(value, 10), 65535)
  }

  /** The position of the last occurrence, or -1. */
  function LastIndexOf(t: Text, c: cchar): (i: int)
    ensures -1 <= i < |t|
    ensures forall k :: i < k < |t| ==> t[k] != c
    ensures i >= 0 ==> t[i] == c
  {
    if t == [] then -1
    else if t[|t| - 1] == c then |t| - 1
    else LastIndexOf(t[..|t| - 1], c)
  }

  function ParseEndpoint(pf: Platform, value: Text): Option<seq<byte>> {
    if value == [] then None
    else if value[0] == '[' as int then
      var end := IndexOf(value, ']' as int);
      if end + 2 >= |value| || value[end + 1] != ':' as int then None
      else pf.resolve(value[1..end], value[end + 2..])
    else
      var end := LastIndexOf(value, ':' as int);
      if end < 0 || end + 1 == |value| then None
      else pf.resolve(value[..end], value[end + 1..])
  }

  /** parse_ip */
  function ParseIp(pf: Platform, text: Text): Option<(nat, seq<byte>)> {
    if ':' as int in text then
      var a := pf.pton6(text); if a.Some? then Some((AF_INET6, a.value)) else None
    else
      var a := pf.pton4(text); if a.Some? then Some((AF_INET, a.value)) else None
  }

  function ParseCidr(mask: Option<Text>, family: nat): Option<nat> {
    var max := if family == AF_INET then 32 else 128;
    if mask.None? then Some(max)
    else if mask.value == [] || !IsDecimal(mask.value[0]) then None
    else AtMost(Parse(mask.value, 10), max)
  }

  predicate Incremental(entry: Text) {
    entry != [] && (entry[0] == '-' as int || entry[0] == '+' as int)
  }

  /** One entry of a list of allowed IPs; a sign in front makes it an incremental change. */
  function ParseEntry(pf: Platform, entry: Text): Option<AllowedIp> {
    var flags := if entry != [] && entry[0] == '-' as int then 1 else 0;
    var rest := if Incremental(entry) then entry[1..] else entry;
    var slash := IndexOf(rest, '/' as int);
    var ip := ParseIp(pf, rest[..slash]);
    if ip.None? then None
    else
      var cidr := ParseCidr(if slash < |rest| then Some(rest[slash + 1..]) else None, ip.value.0);
      if cidr.None? then None else Some(AllowedIp(ip.value.0, ip.value.1, cidr.value, flags))
  }

  /** parse_allowedips on the pieces of its value, from a peer that already has some. */
  function ParseEntries(pf: Platform, entries: seq<Text>, p: Peer): Option<Peer> {
    if entries == [] then Some(p)
    else
      var before := ParseEntries(pf, entries[..|entries| - 1], p);
      var entry := entries[|entries| - 1];
      var ip := ParseEntry(pf, entry);
      if before.None? || ip.None? then None
      else Some(before.value.(replaceIps := before.value.replaceIps && !Incremental(entry),
                              ips := before.value.ips + [ip.value]))
  }

  function ParseAllowedIps(pf: Platform, value: Text, p: Peer): Option<Peer> {
    var replacing := p.(replaceIps := true);
    if value == [] then Some(replacing) else ParseEntries(pf, Split(value, ',' as int), replacing)
  }

  ghost function DeviceLine(pf: Platform, c: Context, line: Text): Option<Context> {
    var port, mark, key := GetValue(line, "ListenPort="), GetValue(line, "FwMark="), GetValue(line, "PrivateKey=");
    if port.Some? then
      var n := ParsePort(pf, port.value); if n.Some? then Some(c.(listenPort := n)) else None
    else if mark.Some? then
      var n := ParseFwmark(pf, mark.value); if n.Some? then Some(c.(fwmark := n)) else None
    else if key.Some? then
      var k := KeyOfText(key.value); if k.Some? then Some(c.(privateKey := k)) else None
    else None
  }

  ghost function PeerLine(pf: Platform, s: Section, line: Text): Option<Section> {
    var endpoint, public, ips := GetValue(line, "Endpoint="), GetValue(line, "PublicKey="),
      GetValue(line, "AllowedIPs=");
    var keepalive, preshared := GetValue(line, "PersistentKeepalive="), GetValue(line, "PresharedKey=");
    if endpoint.Some? then
      var e := ParseEndpoint(pf, endpoint.value); if e.Some? then Some(s.(peer := s.peer.(endpoint := e))) else None
    else if public.Some? then
      var k := KeyOfText(public.value); if k.Some? then Some(Section(s.peer.(publicKey := k.value), true)) else None
    else if ips.Some? then
      var p := ParseAllowedIps(pf, ips.value, s.peer); if p.Some? then Some(s.(peer := p.value)) else None
    else if keepalive.Some? then
      var n := ParseKeepalive(keepalive.value); if n.Some? then Some(s.(peer := s.peer.(keepalive := n))) else None
    else if preshared.Some? then
      var k := KeyOfText(preshared.value); if k.Some? then Some(s.(peer := s.peer.(presharedKey := k))) else None
    else None
  }

  /** process_line: the context after a cleaned line; None when the line is not understood. */
  ghost function Process(pf: Platform, c: Context, line: Text): Option<Context> {
    if CaselessSame(line, "[Interface]") then Some(c.(inPeer := false, inDevice := true))
    else if CaselessSame(line, "[Peer]")
    then Some(c.(sections := c.sections + [NewSection()], inPeer := true, inDevice := false))
    else if c.inDevice then DeviceLine(pf, c, line)
    else if c.inPeer && c.sections != [] then
      var last := |c.sections| - 1;
      var s := PeerLine(pf, c.sections[last], line);
      if s.Some? then Some(c.(sections := c.sections[last := s.value])) else None
    else None
  }

  /** config_read_line */
  ghost function Step(pf: Platform, c: Context, input: Text): Option<Context> {
    if Clean(input) == [] then Some(c) else Process(pf, c, Clean(input))
  }

  ghost function ReadAll(pf: Platform, c: Context, lines: seq<Text>): Option<Context>
    decreases |lines|
  {
    if lines == [] then Some(c)
    else
      var next := Step(pf, c, lines[0]);
      if next.None? then None else ReadAll(pf, next.value, lines[1..])
  }

  /** config_read_finish: every section must have its key. */
  function Finish(c: Context): Option<Device> {
    if forall i :: 0 <= i < |c.sections| ==> c.sections[i].hasKey then
      Some(Device([], c.privateKey, c.listenPort, c.fwmark, c.replacePeers,
                  seq(|c.sections|, i requires 0 <= i < |c.sections| => c.sections[i].peer)))
    else None
  }

  // ---------------------------------------------------------------- the reader

  class ConfigReader {
    const pf: Platform
    var context: Context

    ghost predicate Valid()
      reads this
    {
      context.inPeer ==> context.sections != []
    }

    constructor (pf: Platform, append: bool)
      ensures Valid() && this.pf == pf && context == Init(append)
    {
      this.pf := pf;
      context := Init(append);
    }

    method ParseKey(value: Text) returns (key: Option<WgDevice.Key>)
      ensures key == KeyOfText(value)
    {
      hide Base64;
      var buffer := new byte[32];
      var ok := KeyFromBase64(buffer, value);
      if ok {
        assert Base64(buffer[..]) == value;
        key := Some(buffer[..]);
      } else {
        key := None;
      }
    }

    /** The loop of parse_allowedips over the pieces that strsep yields. */
    method AllowedIps(value: Text, p: Peer) returns (r: Option<Peer>)
      ensures r == ParseAllowedIps(pf, value, p)
    {
      hide ParseEntry;
      var peer := p.(replaceIps := true);
      if value == [] {
        return Some(peer);
      }
      var entries := Split(value, ',' as int);
      ghost var start := peer;
      for n := 0 to |entries|
        invariant ParseEntries(pf, entries[..n], start) == Some(peer)
      {
        assert entries[..n + 1][..n] == entries[..n];
        var ip := ParseEntry(pf, entries[n]);
        if ip.None? {
          EntriesFail(pf, entries, start, n + 1);
          return None;
        }
        if Incremental(entries[n]) {
          peer := peer.(replaceIps := false);
        }
        peer := peer.(ips := peer.ips + [ip.value]);
      }
      assert entries[..|entries|] == entries;
      return Some(peer);
    }

    method CleanLine(input: Text) returns (line: Text)
      ensures line == Clean(input)
    {
      var len := IndexOf(input, '#' as int);
      line := [];
      CleanComment(input, len);
      for i := 0 to len
        invariant line + Clean(input[i..len]) == Clean(input)
      {
        assert input[i..len][1..] == input[i + 1..len];
        if !IsSpace(input[i]) {
          line := line + [input[i]];
        }
      }
      assert input[len..len] == [];
    }

    method ReadLine(input: Text) returns (ok: bool)
      requires Valid()
      modifies this
      ensures ok <==> Step(pf, old(context), input).Some?
      ensures ok ==> Valid() && context == Step(pf, old(context), input).value
    {
      hide Clean, DeviceLine, PeerLine;
      var line := CleanLine(input);
      if line == [] {
        return true;
      }
      if CaselessSame(line, "[Interface]") {
        context := context.(inPeer := false, inDevice := true);
        return true;
      }
      if CaselessSame(line, "[Peer]") {
        context := context.(sections := context.sections + [NewSection()], inPeer := true, inDevice := false);
        return true;
      }
      if context.inDevice {
        ok := ReadDeviceLine(line);
      } else if context.inPeer {
        ok := ReadPeerLine(line);
      } else {
        ok := false;
      }
    }

    method ReadDeviceLine(line: Text) returns (ok: bool)
      requires Valid()
      modifies this
      ensures ok <==> DeviceLine(pf, old(context), line).Some?
      ensures ok ==> Valid() && context == DeviceLine(pf, old(context), line).value
    {
      hide GetValue, ParsePort, ParseFwmark, KeyOfText;
      var port, mark, key := GetValue(line, "ListenPort="), GetValue(line, "FwMark="), GetValue(line, "PrivateKey=");
      if port.Some? {
        var n := ParsePort(pf, port.value);
        if n.Some? {
          context := context.(listenPort := n);
        }
        return n.Some?;
      } else if mark.Some? {
        var n := ParseFwmark(pf, mark.value);
        if n.Some? {
          context := context.(fwmark := n);
        }
        return n.Some?;
      } else if key.Some? {
        var k := ParseKey(key.value);
        if k.Some? {
          context := context.(privateKey := k);
        }
        return k.Some?;
      }
      return false;
    }

    method ReadPeerLine(line: Text) returns (ok: bool)
      requires Valid() && context.inPeer
      modifies this
      ensures var last := |old(context).sections| - 1;
        var s := PeerLine(pf, old(context).sections[last], line);
        (ok <==> s.Some?)
        && (ok ==> Valid() && context == old(context).(sections := old(context).sections[last := s.value]))
    {
      hide GetValue, ParseEndpoint, ParseAllowedIps, ParseKeepalive, KeyOfText;
      var endpoint, public, ips := GetValue(line, "Endpoint="), GetValue(line, "PublicKey="),
        GetValue(line, "AllowedIPs=");
      var keepalive, preshared := GetValue(line, "PersistentKeepalive="), GetValue(line, "PresharedKey=");
      var last := |context.sections| - 1;
      var s := context.sections[last];
      ok := false;
      if endpoint.Some? {
        var e := ParseEndpoint(pf, endpoint.value);
        s, ok := s.(peer := s.peer.(endpoint := if e.Some? then e else s.peer.endpoint)), e.Some?;
      } else if public.Some? {
        var k := ParseKey(public.value);
        s, ok := if k.Some? then Section(s.peer.(publicKey := k.value), true) else s, k.Some?;
      } else if ips.Some? {
        var p := AllowedIps(ips.value, s.peer);
        s, ok := if p.Some? then s.(peer := p.value) else s, p.Some?;
      } else if keepalive.Some? {
        var n := ParseKeepalive(keepalive.value);
        s, ok := s.(peer := s.peer.(keepalive := if n.Some? then n else s.peer.keepalive)), n.Some?;
      } else if preshared.Some? {
        var k := ParseKey(preshared.value);
        s, ok := s.(peer := s.peer.(presharedKey := if k.Some? then k else s.peer.presharedKey)), k.Some?;
      }
      context := context.(sections := context.sections[last := s]);
    }
  }

  lemma {:induction false} EntriesFail(pf: Platform, entries: seq<Text>, p: Peer, n: nat)
    requires n <= |entries| && ParseEntries(pf, entries[..n], p).None?
    ensures ParseEntries(pf, entries, p).None?
    decreases |entries|
  {
    hide ParseEntry;
    if n == |entries| {
      assert entries[..n] == entries;
    } else {
      assert entries[..|entries| - 1][..n] == entries[..n];
      EntriesFail(pf, entries[..|entries| - 1], p, n);
    }
  }

  lemma {:induction false} CleanComment(t: Text, len: nat)
    requires len == IndexOf(t, '#' as int)
    ensures Clean(t[..len]) == Clean(t) && t[0..len] == t[..len]
    decreases |t|
  {
    if t != [] && t[0] != '#' as int {
      CleanComment(t[1..], len - 1);
      assert t[..len][1..] == t[1..][..len - 1];
    }
  }
}
