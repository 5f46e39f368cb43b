/**
 The attribute trees of a set-device request, and how the receiver reads them back
 into a device value.
 */
module WgAttributes {
  import opened Bits
  import opened Options
  import opened Netlink
  import opened WgDevice

  const DEVICE_IFNAME: nat := 2
  const DEVICE_PRIVATE_KEY: nat := 3
  const DEVICE_FLAGS: nat := 5
  const DEVICE_LISTEN_PORT: nat := 6
  const DEVICE_FWMARK: nat := 7
  const DEVICE_PEERS: nat := 8

  const PEER_PUBLIC_KEY: nat := 1
  const PEER_PRESHARED_KEY: nat := 2
  const PEER_FLAGS: nat := 3
  const PEER_ENDPOINT: nat := 4
  const PEER_KEEPALIVE: nat := 5
  const PEER_ALLOWEDIPS: nat := 9

  const IP_FAMILY: nat := 1
  const IP_ADDR: nat := 2
  const IP_CIDR: nat := 3
  const IP_FLAGS: nat := 4

  function U32(n: nat): (b: seq<byte>)
    ensures |b| == 4
  {
    U16(n) + U16(n / 0x10000)
  }

  function GetU32(b: seq<byte>): nat
    requires |b| >= 4
  {
    GetU16(b) + 0x10000 * GetU16(b[2..])
  }

  lemma U32RoundTrip(n: nat)
    requires n < 0x1_0000_0000
    ensures GetU32(U32(n)) == n
  {
    U16RoundTrip(n / 0x10000);
    assert U32(n)[2..] == U16(n / 0x10000);
    assert n % 0x10000 == n % 256 + 256 * ((n / 256) % 256);
  }

  /** An attribute that is only written when there is a value. */
  function Opt(ty: nat, o: Option<seq<byte>>): seq<Attr> {
    if o.Some? then [Leaf(ty, o.value)] else []
  }

  function OptFlags(ty: nat, flags: nat): seq<Attr> {
    Opt(ty, if flags != 0 then Some(U32(flags)) else None)
  }

  function IpItems(ip: AllowedIp): seq<Attr> {
    Opt(IP_FAMILY, Some(U16(ip.family)))
    + Opt(IP_ADDR, if ip.family == AF_INET || ip.family == AF_INET6 then Some(ip.addr) else None)
    + Opt(IP_CIDR, Some([ip.cidr])) + OptFlags(IP_FLAGS, ip.flags)
  }

  function IpTree(ip: AllowedIp): Attr {
    Nest(0, IpItems(ip))
  }

  function IpTrees(ips: seq<AllowedIp>): (t: seq<Attr>)
    ensures |t| == |ips|
  {
    seq(|ips|, k requires 0 <= k < |ips| => IpTree(ips[k]))
  }

  function PeerFlags(p: Peer): nat {
    (if p.removeMe then 1 else 0) + if p.replaceIps then 2 else 0
  }

  function U16Option(o: Option<nat>): Option<seq<byte>> {
    if o.Some? then Some(U16(o.value)) else None
  }

  function U32Option(o: Option<nat>): Option<seq<byte>> {
    if o.Some? then Some(U32(o.value)) else None
  }

  function HeadItems(p: Peer): seq<Attr> {
    Opt(PEER_PUBLIC_KEY, Some(p.publicKey)) + Opt(PEER_PRESHARED_KEY, p.presharedKey) + Opt(PEER_ENDPOINT, p.endpoint)
    + Opt(PEER_KEEPALIVE, U16Option(p.keepalive)) + OptFlags(PEER_FLAGS, PeerFlags(p))
  }

  /** A peer attribute; a nest for its allowed IPs may be there even when it is empty. */
  ghost predicate IsPeerTree(a: Attr, p: Peer) {
    || (a == Nest(0, HeadItems(p)) && p.ips == [])
    || a == Nest(0, HeadItems(p) + [Nest(PEER_ALLOWEDIPS, IpTrees(p.ips))])
  }

  function DeviceItems(d: Device): seq<Attr> {
    Opt(DEVICE_IFNAME, Some(d.name + [0])) + Opt(DEVICE_PRIVATE_KEY, d.privateKey)
    + Opt(DEVICE_LISTEN_PORT, U16Option(d.listenPort)) + Opt(DEVICE_FWMARK, U32Option(d.fwmark))
    + OptFlags(DEVICE_FLAGS, if d.replacePeers then 1 else 0)
  }

  // ---------------------------------------------------------------- reading

  /** The payload of the last leaf of a type. */
  function Get(items: seq<Attr>, ty: nat): Option<seq<byte>> {
    if items == [] then None
    else
      var a := items[|items| - 1];
      if a.Leaf? && a.ty == ty then Some(a.data) else Get(items[..|items| - 1], ty)
  }

  function GetItems(items: seq<Attr>, ty: nat): seq<Attr> {
    if items == [] then []
    else
      var a := items[|items| - 1];
      if a.Nest? && a.ty == ty then a.items else GetItems(items[..|items| - 1], ty)
  }

  function GetFlags(items: seq<Attr>, ty: nat): nat {
    var f := Get(items, ty);
    if f.Some? && |f.value| == 4 then GetU32(f.value) else 0
  }

  function GetU16Option(o: Option<seq<byte>>): Option<nat> {
    if o.Some? && |o.value| >= 2 then Some(GetU16(o.value)) else None
  }

  function GetU32Option(o: Option<seq<byte>>): Option<nat> {
    if o.Some? && |o.value| >= 4 then Some(GetU32(o.value)) else None
  }

  function GetKey(o: Option<seq<byte>>): Option<Key> {
    if o.Some? && |o.value| == 32 then Some(o.value) else None
  }

  function ItemsOf(a: Attr): seq<Attr> {
    if a.Nest? then a.items else []
  }

  function ReadIp(a: Attr): AllowedIp {
    var items := ItemsOf(a);
    var family, addr, cidr := GetU16Option(Get(items, IP_FAMILY)), Get(items, IP_ADDR), Get(items, IP_CIDR);
    AllowedIp(if family.Some? then family.value else 0,
              if addr.Some? then addr.value else [],
              if cidr.Some? && |cidr.value| == 1 then cidr.value[0] else 0,
              GetFlags(items, IP_FLAGS))
  }

  function ReadIps(items: seq<Attr>): (r: seq<AllowedIp>)
    ensures |r| == |items|
  {
    seq(|items|, k requires 0 <= k < |items| => ReadIp(items[k]))
  }

  function ReadPeer(a: Attr): Peer {
    var items := ItemsOf(a);
    var key, flags := GetKey(Get(items, PEER_PUBLIC_KEY)), GetFlags(items, PEER_FLAGS);
    Peer(if key.Some? then key.value else ZeroKey(), flags % 2 == 1, (flags / 2) % 2 == 1,
         GetKey(Get(items, PEER_PRESHARED_KEY)), Get(items, PEER_ENDPOINT),
         GetU16Option(Get(items, PEER_KEEPALIVE)), ReadIps(GetItems(items, PEER_ALLOWEDIPS)))
  }

  function ReadPeers(items: seq<Attr>): (r: seq<Peer>)
    ensures |r| == |items|
  {
    seq(|items|, k requires 0 <= k < |items| => ReadPeer(items[k]))
  }

  function ReadDevice(items: seq<Attr>): Device {
    var name := Get(items, DEVICE_IFNAME);
    Device(if name.Some? && |name.value| > 0 then name.value[..|name.value| - 1] else [],
           GetKey(Get(items, DEVICE_PRIVATE_KEY)), GetU16Option(Get(items, DEVICE_LISTEN_PORT)),
           GetU32Option(Get(items, DEVICE_FWMARK)), GetFlags(items, DEVICE_FLAGS) % 2 == 1,
           ReadPeers(GetItems(items, DEVICE_PEERS)))
  }

  lemma {:induction false} GetConcat(a: seq<Attr>, b: seq<Attr>, ty: nat)
    ensures Get(a + b, ty) == if Get(b, ty).Some? then Get(b, ty) else Get(a, ty)
    ensures (forall k :: 0 <= k < |b| ==> b[k].Leaf?) ==> GetItems(a + b, ty) == GetItems(a, ty)
    decreases |b|
  {
    if b == [] {
      assert a + b == a;
    } else {
      var n := |b| - 1;
      assert (a + b)[..|a| + n] == a + b[..n];
      GetConcat(a, b[..n], ty);
    }
  }

  lemma GetOpt(ty: nat, o: Option<seq<byte>>, ty': nat)
    ensures Get(Opt(ty, o), ty') == if ty == ty' then o else None
    ensures GetItems(Opt(ty, o), ty') == []
  {
    assert Get([], ty') == None;
  }

  /** Reading through a list of optional attributes, one at a time from the end. */
  lemma GetSnocOpt(a: seq<Attr>, ty: nat, o: Option<seq<byte>>, ty': nat)
    ensures Get(a + Opt(ty, o), ty') == if ty == ty' && o.Some? then o else Get(a, ty')
    ensures GetItems(a + Opt(ty, o), ty') == GetItems(a, ty')
  {
    GetConcat(a, Opt(ty, o), ty');
    GetOpt(ty, o, ty');
  }

  lemma ReadIpTree(ip: AllowedIp)
    requires ip.Wf()
    ensures ReadIp(IpTree(ip)) == ip
  {
    hide Get, GetItems, Opt, GetU16, U16, GetU32, U32;
    var a := Opt(IP_FAMILY, Some(U16(ip.family)));
    var addr := if ip.family == AF_INET || ip.family == AF_INET6 then Some(ip.addr) else None;
    var flags := if ip.flags != 0 then Some(U32(ip.flags)) else None;
    var b := a + Opt(IP_ADDR, addr);
    var c := b + Opt(IP_CIDR, Some([ip.cidr]));
    forall ty | ty == IP_FAMILY || ty == IP_ADDR || ty == IP_CIDR || ty == IP_FLAGS
      ensures Get(IpItems(ip), ty) == if ty == IP_FLAGS then flags else if ty == IP_CIDR then Some([ip.cidr])
                                      else if ty == IP_ADDR then addr else Some(U16(ip.family))
    {
      GetOpt(IP_FAMILY, Some(U16(ip.family)), ty);
      GetSnocOpt(a, IP_ADDR, addr, ty);
      GetSnocOpt(b, IP_CIDR, Some([ip.cidr]), ty);
      GetSnocOpt(c, IP_FLAGS, flags, ty);
    }
    U16RoundTrip(ip.family);
    U32RoundTrip(ip.flags);
  }

  /** What can be read from the head of a peer, also with more nests behind it. */
  lemma ReadHead(p: Peer, ty: nat)
    ensures Get(HeadItems(p), ty) ==
      if ty == PEER_PUBLIC_KEY then Some(p.publicKey) else if ty == PEER_PRESHARED_KEY then p.presharedKey
      else if ty == PEER_ENDPOINT then p.endpoint else if ty == PEER_KEEPALIVE then U16Option(p.keepalive)
      else if ty == PEER_FLAGS && PeerFlags(p) != 0 then Some(U32(PeerFlags(p))) else None
    ensures GetItems(HeadItems(p), ty) == []
  {
    hide Get, GetItems, Opt, U32, U16;
    var a := Opt(PEER_PUBLIC_KEY, Some(p.publicKey));
    var b := a + Opt(PEER_PRESHARED_KEY, p.presharedKey);
    var c := b + Opt(PEER_ENDPOINT, p.endpoint);
    var d := c + Opt(PEER_KEEPALIVE, U16Option(p.keepalive));
    GetOpt(PEER_PUBLIC_KEY, Some(p.publicKey), ty);
    GetSnocOpt(a, PEER_PRESHARED_KEY, p.presharedKey, ty);
    GetSnocOpt(b, PEER_ENDPOINT, p.endpoint, ty);
    GetSnocOpt(c, PEER_KEEPALIVE, U16Option(p.keepalive), ty);
    GetSnocOpt(d, PEER_FLAGS, if PeerFlags(p) != 0 then Some(U32(PeerFlags(p))) else None, ty);
  }

  lemma GetSnocNest(a: seq<Attr>, ty: nat, items: seq<Attr>, ty': nat)
    ensures Get(a + [Nest(ty, items)], ty') == Get(a, ty')
    ensures GetItems(a + [Nest(ty, items)], ty') == if ty == ty' then items else GetItems(a, ty')
  {
    var s := a + [Nest(ty, items)];
    assert s[..|a|] == a;
  }

  lemma ReadIpsTrees(ips: seq<AllowedIp>)
    requires forall k :: 0 <= k < |ips| ==> ips[k].Wf()
    ensures ReadIps(IpTrees(ips)) == ips
  {
    hide ReadIp, IpTree;
    forall k | 0 <= k < |ips|
      ensures ReadIp(IpTree(ips[k])) == ips[k]
    {
      ReadIpTree(ips[k]);
    }
  }

  /** A peer attribute is read back as the peer it was written for. */
  lemma ReadPeerTree(a: Attr, p: Peer)
    requires p.Wf() && IsPeerTree(a, p)
    ensures ReadPeer(a) == p
  {
    hide Get, GetItems, HeadItems, ReadIps, IpTrees, U16, U32, GetU16, GetU32;
    forall ty {:trigger Get(HeadItems(p), ty)}
      ensures Get(a.items, ty) == Get(HeadItems(p), ty)
    {
      GetSnocNest(HeadItems(p), PEER_ALLOWEDIPS, IpTrees(p.ips), ty);
    }
    GetSnocNest(HeadItems(p), PEER_ALLOWEDIPS, IpTrees(p.ips), PEER_ALLOWEDIPS);
    ReadHead(p, PEER_ALLOWEDIPS);
    ReadHead(p, PEER_PUBLIC_KEY);
    ReadHead(p, PEER_PRESHARED_KEY);
    ReadHead(p, PEER_ENDPOINT);
    ReadHead(p, PEER_KEEPALIVE);
    ReadHead(p, PEER_FLAGS);
    ReadIpsTrees(p.ips);
    ReadIpsNil();
    if p.keepalive.Some? {
      U16RoundTrip(p.keepalive.value);
    }
    U32RoundTrip(PeerFlags(p));
  }

  lemma ReadIpsNil()
    ensures ReadIps([]) == []
  {
  }

  /** What can be read from the device attributes at the front of a message. */
  lemma ReadDeviceHead(d: Device, ty: nat)
    ensures Get(DeviceItems(d), ty) ==
      if ty == DEVICE_IFNAME then Some(d.name + [0]) else if ty == DEVICE_PRIVATE_KEY then d.privateKey
      else if ty == DEVICE_LISTEN_PORT then U16Option(d.listenPort) else if ty == DEVICE_FWMARK then U32Option(d.fwmark)
      else if ty == DEVICE_FLAGS && d.replacePeers then Some(U32(1)) else None
    ensures GetItems(DeviceItems(d), ty) == []
  {
    hide Get, GetItems, Opt, U32, U16;
    var a := Opt(DEVICE_IFNAME, Some(d.name + [0]));
    var b := a + Opt(DEVICE_PRIVATE_KEY, d.privateKey);
    var c := b + Opt(DEVICE_LISTEN_PORT, U16Option(d.listenPort));
    var e := c + Opt(DEVICE_FWMARK, U32Option(d.fwmark));
    GetOpt(DEVICE_IFNAME, Some(d.name + [0]), ty);
    GetSnocOpt(a, DEVICE_PRIVATE_KEY, d.privateKey, ty);
    GetSnocOpt(b, DEVICE_LISTEN_PORT, U16Option(d.listenPort), ty);
    GetSnocOpt(c, DEVICE_FWMARK, U32Option(d.fwmark), ty);
    GetSnocOpt(e, DEVICE_FLAGS, if d.replacePeers then Some(U32(1)) else None, ty);
  }

  /** The attribute lists of a message: device attributes, then possibly a nest with the peers. */
  ghost predicate IsMessage(items: seq<Attr>, d: Device) {
    || (items == DeviceItems(d) && d.peers == [])
    || exists trees ::
         && items == DeviceItems(d) + [Nest(DEVICE_PEERS, trees)]
         && ArePeerTrees(trees, d.peers)
  }

  ghost predicate ArePeerTrees(trees: seq<Attr>, peers: seq<Peer>) {
    |trees| == |peers| && forall k :: 0 <= k < |trees| ==> IsPeerTree(trees[k], peers[k])
  }

  lemma ReadMessage(items: seq<Attr>, d: Device)
    requires d.Wf() && IsMessage(items, d)
    ensures ReadDevice(items) == d
  {
    hide Get, GetItems, DeviceItems, ReadPeers, U16, U32, GetU16, GetU32, ArePeerTrees;
    ReadDeviceHead(d, DEVICE_PEERS);
    ReadDeviceHead(d, DEVICE_IFNAME);
    ReadDeviceHead(d, DEVICE_PRIVATE_KEY);
    ReadDeviceHead(d, DEVICE_LISTEN_PORT);
    ReadDeviceHead(d, DEVICE_FWMARK);
    ReadDeviceHead(d, DEVICE_FLAGS);
    U32RoundTrip(1);
    if d.listenPort.Some? {
      U16RoundTrip(d.listenPort.value);
    }
    if d.fwmark.Some? {
      U32RoundTrip(d.fwmark.value);
    }
    ReadPeersNil();
    if items != DeviceItems(d) {
      var trees :| items == DeviceItems(d) + [Nest(DEVICE_PEERS, trees)] && ArePeerTrees(trees, d.peers);
      ReadPeersTrees(trees, d.peers);
      forall ty {:trigger Get(DeviceItems(d), ty)}
        ensures Get(items, ty) == Get(DeviceItems(d), ty)
      {
        GetSnocNest(DeviceItems(d), DEVICE_PEERS, trees, ty);
      }
      GetSnocNest(DeviceItems(d), DEVICE_PEERS, trees, DEVICE_PEERS);
    }
  }

  lemma ReadPeersNil()
    ensures ReadPeers([]) == []
  {
  }

  lemma ReadPeersTrees(trees: seq<Attr>, peers: seq<Peer>)
    requires ArePeerTrees(trees, peers) && forall k :: 0 <= k < |peers| ==> peers[k].Wf()
    ensures ReadPeers(trees) == peers
  {
    hide ReadPeer, IsPeerTree;
    forall k | 0 <= k < |trees|
      ensures ReadPeer(trees[k]) == peers[k]
    {
      ReadPeerTree(trees[k], peers[k]);
    }
  }
}
