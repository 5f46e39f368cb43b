/**
 Saving and restoring: what showconf prints of a device, given to setconf, leaves the
 device as it was.
 */
module RestoreConf {
  import opened WgDevice
  import opened SyncConf
  import opened SyncEffect
  import opened Config
  import opened ShowConf

  /** The prefix is among the allowed IPs. */
  ghost predicate Lists(ips: seq<AllowedIp>, x: Prefix) {
    exists k :: 0 <= k < |ips| && PrefixOf(ips[k]) == x
  }

  /** The peer's values are those of the kernel, where zero stands for none. */
  ghost predicate SameValues(p: Peer, k: KernelPeer) {
    && k.presharedKey == (if p.presharedKey.Some? then p.presharedKey.value else ZeroKey())
    && k.endpoint == p.endpoint && k.keepalive == OrZeroed(p.keepalive)
  }

  /** The dump tells all of the kernel's state: each peer once, and its routes as its allowed IPs. */
  ghost predicate Dumps(d: Device, s: Kernel) {
    && s.privateKey == (if d.privateKey.Some? then d.privateKey.value else ZeroKey())
    && s.listenPort == OrZeroed(d.listenPort) && s.fwmark == OrZeroed(d.fwmark)
    && DistinctKeys(d.peers) && s.peers.Keys == Keys(d.peers)
    && (forall i :: 0 <= i < |d.peers| && d.peers[i].publicKey in s.peers ==>
          SameValues(d.peers[i], s.peers[d.peers[i].publicKey]))
    && (forall x :: x in s.routes ==> s.routes[x] in s.peers && x.family in {AF_INET, AF_INET6})
    && (forall i, x :: 0 <= i < |d.peers| ==>
          (Lists(d.peers[i].ips, x) <==> x in s.routes && s.routes[x] == d.peers[i].publicKey))
  }

  /** The kernel has no routes of other families, so every allowed IP of the dump is printed. */
  lemma DumpedKnown(s: Kernel, d: Device, n: nat)
    requires Dumps(d, s) && n < |d.peers|
    ensures KnownOf(d.peers[n].ips) == d.peers[n].ips && Readable(d.peers[n])
  {
    var ips := d.peers[n].ips;
    forall k | 0 <= k < |ips|
      ensures Known(ips[k])
    {
      assert Lists(ips, PrefixOf(ips[k]));
    }
    AllKnown(ips);
  }

  lemma {:induction false} AllKnown(ips: seq<AllowedIp>)
    requires forall k :: 0 <= k < |ips| ==> Known(ips[k])
    ensures KnownOf(ips) == ips
    decreases |ips|
  {
    if ips != [] {
      assert forall k :: 0 <= k < |ips[1..]| ==> ips[1..][k] == ips[k + 1];
      AllKnown(ips[1..]);
      assert [ips[0]] + ips[1..] == ips;
    }
  }

  /** Adding allowed IPs gives exactly their prefixes to the peer. */
  lemma {:induction false} AddedRoutes(routes: map<Prefix, WgDevice.Key>, key: WgDevice.Key, ips: seq<AllowedIp>,
                                      x: Prefix)
    requires forall k :: 0 <= k < |ips| ==> ips[k].flags % 2 == 0
    ensures var r := ApplyIps(routes, key, ips);
      && (x in r <==> x in routes || Lists(ips, x))
      && (x in r ==> r[x] == if Lists(ips, x) then key else routes[x])
    decreases |ips|
  {
    if ips != [] {
      var n := |ips| - 1;
      AddedRoutes(routes, key, ips[..n], x);
      ListsSnoc(ips, x);
    }
  }

  lemma ListsSnoc(ips: seq<AllowedIp>, x: Prefix)
    requires ips != []
    ensures Lists(ips, x) <==> Lists(ips[..|ips| - 1], x) || PrefixOf(ips[|ips| - 1]) == x
  {
    var n := |ips| - 1;
    if Lists(ips[..n], x) {
      var k :| 0 <= k < n && PrefixOf(ips[..n][k]) == x;
      assert PrefixOf(ips[k]) == x;
    }
    if Lists(ips, x) {
      var k :| 0 <= k < |ips| && PrefixOf(ips[k]) == x;
      assert k < n ==> PrefixOf(ips[..n][k]) == x;
    }
  }

  lemma RebuiltLists(ips: seq<AllowedIp>, x: Prefix)
    ensures Lists(RebuiltIps(ips), x) <==> Lists(ips, x)
  {
    var r := RebuiltIps(ips);
    assert forall k :: 0 <= k < |ips| ==> PrefixOf(r[k]) == PrefixOf(ips[k]);
  }

  /** The part of the kernel's state that belongs to some peers. */
  function Part(s: Kernel, keys: set<WgDevice.Key>): Kernel {
    s.(peers := map k | k in s.peers && k in keys :: s.peers[k],
       routes := map x | x in s.routes && s.routes[x] in keys :: s.routes[x])
  }

  lemma RestoreOne(s: Kernel, d: Device, n: nat)
    requires Dumps(d, s) && n < |d.peers|
    ensures ApplyPeer(Part(s, Keys(d.peers[..n])), RebuiltPeer(d.peers[n])) == Part(s, Keys(d.peers[..n + 1]))
  {
    hide Keys, ApplyIps, RebuiltIps, Lists, KnownOf, Readable;
    var p := d.peers[n];
    DumpedKnown(s, d, n);
    var key, before, after := p.publicKey, Part(s, Keys(d.peers[..n])), Part(s, Keys(d.peers[..n + 1]));
    KeysSplit(d.peers, n);
    PeerStored(s, d, n);
    var now := ApplyPeer(before, RebuiltPeer(p));
    assert now.peers == after.peers;
    assert WithoutRoutesOf(before.routes, key) == before.routes;
    forall x
      ensures x in now.routes <==> x in after.routes
      ensures x in now.routes ==> now.routes[x] == after.routes[x]
    {
      PlainRebuilt(p.ips);
      AddedRoutes(before.routes, key, RebuiltIps(p.ips), x);
      RebuiltLists(p.ips, x);
      assert Lists(d.peers[n].ips, x) <==> x in s.routes && s.routes[x] == key;
    }
    assert now.routes == after.routes;
  }

  lemma PlainRebuilt(ips: seq<AllowedIp>)
    ensures forall k :: 0 <= k < |RebuiltIps(ips)| ==> RebuiltIps(ips)[k].flags % 2 == 0
  {
  }

  lemma PeerStored(s: Kernel, d: Device, n: nat)
    requires Dumps(d, s) && n < |d.peers|
    ensures d.peers[n].publicKey in s.peers && SameValues(d.peers[n], s.peers[d.peers[n].publicKey])
  {
    hide Lists;
    assert d.peers[n].publicKey in Keys(d.peers);
  }

  lemma {:induction false} RestoreSome(s: Kernel, d: Device, n: nat)
    requires Dumps(d, s) && n <= |d.peers|
    ensures ApplyPeers(Part(s, {}), Rebuilt(d).peers[..n]) == Part(s, Keys(d.peers[..n]))
  {
    hide Dumps, ApplyPeer, RebuiltPeer, Part;
    if n == 0 {
      assert Keys(d.peers[..0]) == {};
    } else {
      RestoreSome(s, d, n - 1);
      RestoreOne(s, d, n - 1);
      assert Rebuilt(d).peers[..n][..n - 1] == Rebuilt(d).peers[..n - 1];
    }
  }

  /** The theorem: printing a device and reading the text back changes nothing. */
  lemma SaveRestore(pf: Platform, s: Kernel, d: Device)
    requires Faithful(pf) && Reported(pf, d) && Dumps(d, s)
    ensures var c := ReadAll(pf, Init(false), Show(pf, d));
      c.Some? && Finish(c.value).Some? && Apply(s, Finish(c.value).value) == s
  {
    hide ReadAll, Show, Finish, Faithful, Reported, RebuiltPeer, ApplyPeers, Keys, Readable, Dumps;
    forall n | 0 <= n < |d.peers|
      ensures Readable(d.peers[n])
    {
      DumpedKnown(s, d, n);
    }
    RoundTrip(pf, d);
    RestoreSome(s, d, |d.peers|);
    assert d.peers[..|d.peers|] == d.peers && Rebuilt(d).peers[..|d.peers|] == Rebuilt(d).peers;
    WholePart(s, d);
    assert Part(s, {}) == s.(peers := map[], routes := map[]);
  }

  lemma WholePart(s: Kernel, d: Device)
    requires Dumps(d, s)
    ensures Part(s, Keys(d.peers)) == s
    ensures s == s.(privateKey := if d.privateKey.Some? then d.privateKey.value else ZeroKey(),
                    listenPort := OrZeroed(d.listenPort), fwmark := OrZeroed(d.fwmark))
  {
    hide Keys, Lists, SameValues;
    assert Part(s, Keys(d.peers)).peers == s.peers && Part(s, Keys(d.peers)).routes == s.routes;
  }
}
