/**
 WireGuard devices, peers and allowed IPs, their attribute trees, and the effect of
 a set-device request on the kernel, as the interface header documents it.

 A request is itself a device value: the scalars it carries, the replace flag, and
 the peers it mentions. A fragment of a peer is a peer value with fewer scalars and
 fewer allowed IPs.
 */
module WgDevice {
  import opened Bits
  import opened Options

  type Key = k: seq<byte> | |k| == 32 witness seq(32, _ => 0)

  const AF_INET: nat := 2
  const AF_INET6: nat := 10

  datatype AllowedIp = AllowedIp(family: nat, addr: seq<byte>, cidr: byte, flags: nat) {
    predicate Wf() {
      && family < 0x10000 && flags < 0x1_0000_0000
      && |addr| == if family == AF_INET then 4 else if family == AF_INET6 then 16 else 0
    }
  }

  datatype Peer = Peer(publicKey: Key, removeMe: bool, replaceIps: bool, presharedKey: Option<Key>,
                       endpoint: Option<seq<byte>>, keepalive: Option<nat>, ips: seq<AllowedIp>) {
    predicate Wf() {
      && (endpoint.Some? ==> |endpoint.value| == 16 || |endpoint.value| == 28)
      && (keepalive.Some? ==> keepalive.value < 0x10000)
      && forall k :: 0 <= k < |ips| ==> ips[k].Wf()
    }
  }

  datatype Device = Device(name: seq<byte>, privateKey: Option<Key>, listenPort: Option<nat>, fwmark: Option<nat>,
                           replacePeers: bool, peers: seq<Peer>) {
    predicate Wf() {
      && |name| <= 15
      && (listenPort.Some? ==> listenPort.value < 0x10000)
      && (fwmark.Some? ==> fwmark.value < 0x1_0000_0000)
      && forall k :: 0 <= k < |peers| ==> peers[k].Wf()
    }
  }

  // ---------------------------------------------------------------- kernel state

  datatype KernelPeer = KernelPeer(presharedKey: Key, endpoint: Option<seq<byte>>, keepalive: nat)

  datatype Prefix = Prefix(family: nat, addr: seq<byte>, cidr: byte)

  /** One routing table for the whole device: an allowed IP belongs to at most one peer. */
  datatype Kernel = Kernel(privateKey: Key, listenPort: nat, fwmark: nat,
                           peers: map<Key, KernelPeer>, routes: map<Prefix, Key>)

  function ZeroKey(): Key { seq(32, _ => 0) }

  function PrefixOf(ip: AllowedIp): Prefix {
    Prefix(ip.family, ip.addr, ip.cidr)
  }

  function WithoutRoutesOf(routes: map<Prefix, Key>, key: Key): map<Prefix, Key> {
    map p | p in routes && routes[p] != key :: routes[p]
  }

  /** Adding moves a prefix here from whichever peer had it; removing only takes it from this peer. */
  function ApplyIp(routes: map<Prefix, Key>, key: Key, ip: AllowedIp): map<Prefix, Key> {
    var p := PrefixOf(ip);
    if ip.flags % 2 == 1 then
      if p in routes && routes[p] == key then routes - {p} else routes
    else routes[p := key]
  }

  function ApplyIps(routes: map<Prefix, Key>, key: Key, ips: seq<AllowedIp>): map<Prefix, Key> {
    if ips == [] then routes
    else ApplyIp(ApplyIps(routes, key, ips[..|ips| - 1]), key, ips[|ips| - 1])
  }

  function ApplyPeer(s: Kernel, p: Peer): Kernel {
    if p.removeMe then
      s.(peers := s.peers - {p.publicKey}, routes := WithoutRoutesOf(s.routes, p.publicKey))
    else
      var was := if p.publicKey in s.peers then s.peers[p.publicKey] else KernelPeer(ZeroKey(), None, 0);
      var now := KernelPeer(
        if p.presharedKey.Some? then p.presharedKey.value else was.presharedKey,
        if p.endpoint.Some? then p.endpoint else was.endpoint,
        if p.keepalive.Some? then p.keepalive.value else was.keepalive);
      var routes := if p.replaceIps then WithoutRoutesOf(s.routes, p.publicKey) else s.routes;
      s.(peers := s.peers[p.publicKey := now], routes := ApplyIps(routes, p.publicKey, p.ips))
  }

  function ApplyPeers(s: Kernel, ps: seq<Peer>): Kernel {
    if ps == [] then s else ApplyPeer(ApplyPeers(s, ps[..|ps| - 1]), ps[|ps| - 1])
  }

  function Apply(s: Kernel, d: Device): Kernel {
    var scalars := s.(privateKey := if d.privateKey.Some? then d.privateKey.value else s.privateKey,
                      listenPort := if d.listenPort.Some? then d.listenPort.value else s.listenPort,
                      fwmark := if d.fwmark.Some? then d.fwmark.value else s.fwmark);
    ApplyPeers(if d.replacePeers then scalars.(peers := map[], routes := map[]) else scalars, d.peers)
  }

  function ApplyAll(s: Kernel, ds: seq<Device>): Kernel {
    if ds == [] then s else Apply(ApplyAll(s, ds[..|ds| - 1]), ds[|ds| - 1])
  }

  lemma {:induction false} ApplyPeersConcat(s: Kernel, a: seq<Peer>, b: seq<Peer>)
    ensures ApplyPeers(s, a + b) == ApplyPeers(ApplyPeers(s, a), b)
    decreases |b|
  {
    hide ApplyPeer;
    if b == [] {
      assert a + b == a;
    } else {
      var n := |b| - 1;
      assert (a + b)[..|a| + n] == a + b[..n];
      ApplyPeersConcat(s, a, b[..n]);
    }
  }

  lemma {:induction false} ApplyIpsConcat(routes: map<Prefix, Key>, key: Key, a: seq<AllowedIp>, b: seq<AllowedIp>)
    ensures ApplyIps(routes, key, a + b) == ApplyIps(ApplyIps(routes, key, a), key, b)
    decreases |b|
  {
    hide ApplyIp;
    if b == [] {
      assert a + b == a;
    } else {
      var n := |b| - 1;
      assert (a + b)[..|a| + n] == a + b[..n];
      ApplyIpsConcat(routes, key, a, b[..n]);
    }
  }

  // ---------------------------------------------------------------- fragments

  /** What a continuation message repeats of a peer, with the allowed IPs from `from` up to `to`. */
  function Continuation(p: Peer, from: nat, to: nat): Peer
    requires from <= to <= |p.ips|
  {
    Peer(p.publicKey, p.removeMe, false, None, None, None, p.ips[from..to])
  }

  /** The first fragment of a peer: all scalars, the allowed IPs below `to`. */
  function FirstPart(p: Peer, to: nat): Peer
    requires to <= |p.ips|
  {
    p.(ips := p.ips[..to])
  }

  lemma RemoveTwice(peers: map<Key, KernelPeer>, routes: map<Prefix, Key>, key: Key)
    ensures peers - {key} - {key} == peers - {key}
    ensures WithoutRoutesOf(WithoutRoutesOf(routes, key), key) == WithoutRoutesOf(routes, key)
  {
  }

  lemma FirstPartThenRest(s: Kernel, p: Peer, to: nat)
    requires to <= |p.ips|
    ensures ApplyPeer(ApplyPeer(s, FirstPart(p, to)), Continuation(p, to, |p.ips|)) == ApplyPeer(s, p)
  {
    hide ApplyIps;
    var key := p.publicKey;
    RemoveTwice(s.peers, s.routes, key);
    var routes := if p.replaceIps then WithoutRoutesOf(s.routes, p.publicKey) else s.routes;
    ApplyIpsConcat(routes, p.publicKey, p.ips[..to], p.ips[to..]);
    assert p.ips[..to] + p.ips[to..] == p.ips;
    var whole := ApplyPeer(s, p);
    var parts := ApplyPeer(ApplyPeer(s, FirstPart(p, to)), Continuation(p, to, |p.ips|));
    assert p.ips[to..|p.ips|] == p.ips[to..];
    assert parts.peers == whole.peers && parts.routes == whole.routes;
  }

  /** A continuation creates the peer when it is missing, and otherwise only moves routes. */
  lemma ContinuationSplits(s: Kernel, p: Peer, from: nat, to: nat)
    requires from <= to <= |p.ips|
    ensures ApplyPeer(ApplyPeer(s, Continuation(p, from, to)), Continuation(p, to, |p.ips|))
            == ApplyPeer(s, Continuation(p, from, |p.ips|))
  {
    hide ApplyIps;
    RemoveTwice(s.peers, s.routes, p.publicKey);
    ApplyIpsConcat(s.routes, p.publicKey, p.ips[from..to], p.ips[to..]);
    assert p.ips[from..to] + p.ips[to..] == p.ips[from..];
    var whole := ApplyPeer(s, Continuation(p, from, |p.ips|));
    var parts := ApplyPeer(ApplyPeer(s, Continuation(p, from, to)), Continuation(p, to, |p.ips|));
    assert p.ips[to..|p.ips|] == p.ips[to..] && p.ips[from..|p.ips|] == p.ips[from..];
    assert parts.peers == whole.peers && parts.routes == whole.routes;
  }
}
