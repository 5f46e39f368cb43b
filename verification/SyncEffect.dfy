/**
 What a synchronised request does to the kernel, compared with replacing all peers
 by those of the file: the same, under a condition that is exact.
 */
module SyncEffect {
  import opened Bits
  import opened Options
  import opened WgDevice
  import opened SyncConf

  ghost function Keys(ps: seq<Peer>): set<Key> {
    set i | 0 <= i < |ps| :: ps[i].publicKey
  }

  function DropRoutes(routes: map<Prefix, Key>, keys: set<Key>): map<Prefix, Key> {
    map p | p in routes && routes[p] !in keys :: routes[p]
  }

  /** Sections of a configuration file update peers, none removes one. */
  ghost predicate Sections(ps: seq<Peer>) {
    forall i :: 0 <= i < |ps| ==> !ps[i].removeMe
  }

  ghost predicate SameAttributes(r: RuntimePeer, p: KernelPeer) {
    r.presharedKey == p.presharedKey && r.keepalive == p.keepalive
  }

  /** The list of running peers describes the kernel, and every route leads to a peer. */
  ghost predicate Reports(s: Kernel, rs: seq<RuntimePeer>) {
    && DistinctRuntime(rs)
    && (forall i :: 0 <= i < |rs| ==> rs[i].publicKey in s.peers)
    && (forall k :: k in s.peers ==> Lookup(rs, k).Some?)
    && (forall k :: k in s.peers && Lookup(rs, k).Some? ==> SameAttributes(Lookup(rs, k).value, s.peers[k]))
    && (forall p :: p in s.routes ==> s.routes[p] in s.peers)
  }

  // ---------------------------------------------------------------- removals

  lemma {:induction false} RemovalsEffect(s: Kernel, gone: seq<Peer>)
    requires forall a :: 0 <= a < |gone| ==> gone[a] == Removal(gone[a].publicKey)
    ensures ApplyPeers(s, gone) == s.(peers := s.peers - Keys(gone), routes := DropRoutes(s.routes, Keys(gone)))
    decreases |gone|
  {
    if gone == [] {
      assert s.peers - Keys(gone) == s.peers;
      assert DropRoutes(s.routes, {}) == s.routes;
    } else {
      var n := |gone| - 1;
      RemovalsEffect(s, gone[..n]);
      KeysSnoc(gone[..n], gone[n]);
      assert gone == gone[..n] + [gone[n]];
      var key := gone[n].publicKey;
      assert s.peers - Keys(gone[..n]) - {key} == s.peers - Keys(gone);
      assert WithoutRoutesOf(DropRoutes(s.routes, Keys(gone[..n])), key) == DropRoutes(s.routes, Keys(gone));
    }
  }

  lemma KeysSnoc(ps: seq<Peer>, p: Peer)
    ensures Keys(ps + [p]) == Keys(ps) + {p.publicKey}
  {
    var q := ps + [p];
    assert q[|ps|] == p;
    forall k | k in Keys(ps)
      ensures k in Keys(q)
    {
      var i :| 0 <= i < |ps| && ps[i].publicKey == k;
      assert q[i].publicKey == k;
    }
    assert q[|ps|].publicKey in Keys(q);
  }

  /** The removals that a synchronisation begins with. */
  ghost predicate Departing(gone: seq<Peer>, rs: seq<RuntimePeer>, ps: seq<Peer>) {
    && (forall a :: 0 <= a < |gone| ==> gone[a] == Removal(gone[a].publicKey))
    && (forall key :: Removal(key) in gone <==> Lookup(rs, key).Some? && !InFile(ps, key))
  }

  lemma DepartingKeys(s: Kernel, rs: seq<RuntimePeer>, ps: seq<Peer>, gone: seq<Peer>)
    requires Reports(s, rs) && Departing(gone, rs, ps)
    ensures Keys(gone) == s.peers.Keys - Keys(ps)
  {
    hide Lookup, Reports;
    forall key
      ensures key in Keys(gone) <==> key in s.peers.Keys - Keys(ps)
    {
      ReportedExactly(s, rs, key);
      if key in Keys(gone) {
        var i :| 0 <= i < |gone| && gone[i].publicKey == key;
        assert gone[i] == Removal(key);
      }
      if Removal(key) in gone {
        var i :| 0 <= i < |gone| && gone[i] == Removal(key);
        assert gone[i].publicKey == key;
      }
      assert InFile(ps, key) <==> key in Keys(ps);
    }
  }

  lemma DepartingUnnamed(gone: seq<Peer>, rs: seq<RuntimePeer>, ps: seq<Peer>, a: nat)
    requires Departing(gone, rs, ps) && a < |gone|
    ensures !InFile(ps, gone[a].publicKey)
  {
    hide Lookup, InFile;
    assert Removal(gone[a].publicKey) in gone;
  }

  lemma ReportedExactly(s: Kernel, rs: seq<RuntimePeer>, key: Key)
    requires Reports(s, rs)
    ensures Lookup(rs, key).Some? <==> key in s.peers
  {
  }

  // ---------------------------------------------------------------- attributes

  function PresharedKeyOf(p: Peer): Option<Key> { p.presharedKey }

  function EndpointOf(p: Peer): Option<seq<byte>> { p.endpoint }

  function KeepaliveOf(p: Peer): Option<nat> { p.keepalive }

  /** What the last section with the key that mentions an attribute says of it. */
  function Said<T>(f: Peer -> Option<T>, ps: seq<Peer>, key: Key): Option<T> {
    if ps == [] then None
    else
      var n := |ps| - 1;
      if ps[n].publicKey == key && f(ps[n]).Some? then f(ps[n]) else Said(f, ps[..n], key)
  }

  function OrElse<T>(o: Option<T>, other: T): T {
    if o.Some? then o.value else other
  }

  function PeerIn(s: Kernel, key: Key): Option<KernelPeer> {
    if key in s.peers then Some(s.peers[key]) else None
  }

  /** A peer after some sections. */
  function Resulting(ps: seq<Peer>, key: Key, was: Option<KernelPeer>): KernelPeer {
    var w := OrElse(was, KernelPeer(ZeroKey(), None, 0));
    var endpoint := Said(EndpointOf, ps, key);
    KernelPeer(OrElse(Said(PresharedKeyOf, ps, key), w.presharedKey), if endpoint.Some? then endpoint else w.endpoint,
               OrElse(Said(KeepaliveOf, ps, key), w.keepalive))
  }

  ghost predicate SameScalars(a: Kernel, b: Kernel) {
    a.privateKey == b.privateKey && a.listenPort == b.listenPort && a.fwmark == b.fwmark
  }

  lemma {:induction false} PeersAfter(s: Kernel, ps: seq<Peer>, key: Key)
    requires Sections(ps)
    ensures var r := ApplyPeers(s, ps);
      && SameScalars(r, s)
      && (key in r.peers <==> key in s.peers || key in Keys(ps))
      && (key in r.peers ==> r.peers[key] == Resulting(ps, key, PeerIn(s, key)))
    decreases |ps|
  {
    hide Keys, ApplyPeer, Resulting;
    if ps == [] {
      NoKeys();
      if key in s.peers {
        NothingChanged(key, PeerIn(s, key));
      }
    } else {
      var n := |ps| - 1;
      PeersAfter(s, ps[..n], key);
      SectionAlone(ApplyPeers(s, ps[..n]), ps[n], key);
      KeysSnoc(ps[..n], ps[n]);
      assert ps == ps[..n] + [ps[n]];
      SectionResult(ps, key, PeerIn(s, key));
      if key !in s.peers && key !in Keys(ps[..n]) {
        NothingSaid(ps[..n], key);
      }
    }
  }

  /** What one section does to a peer. */
  lemma SectionAlone(s: Kernel, p: Peer, key: Key)
    requires !p.removeMe
    ensures var r := ApplyPeer(s, p);
      && SameScalars(r, s)
      && (key in r.peers <==> key in s.peers || key == p.publicKey)
      && (key in r.peers ==> r.peers[key] == SectionOn(p, key, OrElse(PeerIn(s, key), KernelPeer(ZeroKey(), None, 0))))
  {
    hide ApplyIps;
  }

  function SectionOn(p: Peer, key: Key, was: KernelPeer): KernelPeer {
    if p.publicKey != key then was
    else KernelPeer(OrElse(p.presharedKey, was.presharedKey), if p.endpoint.Some? then p.endpoint else was.endpoint,
                    OrElse(p.keepalive, was.keepalive))
  }

  /** What the last section adds. */
  lemma SectionResult(ps: seq<Peer>, key: Key, was: Option<KernelPeer>)
    requires ps != []
    ensures var n := |ps| - 1; Resulting(ps, key, was) == SectionOn(ps[n], key, Resulting(ps[..n], key, was))
  {
  }

  /** A peer that is new begins with nothing set. */
  lemma NothingSaid(ps: seq<Peer>, key: Key)
    requires key !in Keys(ps)
    ensures Resulting(ps, key, None) == KernelPeer(ZeroKey(), None, 0)
  {
    Unmentioned(PresharedKeyOf, ps, key);
    Unmentioned(EndpointOf, ps, key);
    Unmentioned(KeepaliveOf, ps, key);
  }

  lemma {:induction false} Unmentioned<T>(f: Peer -> Option<T>, ps: seq<Peer>, key: Key)
    requires key !in Keys(ps)
    ensures Said(f, ps, key) == None
    decreases |ps|
  {
    if ps != [] {
      var n := |ps| - 1;
      KeysSnoc(ps[..n], ps[n]);
      assert ps == ps[..n] + [ps[n]];
      Unmentioned(f, ps[..n], key);
    }
  }

  lemma NothingChanged(key: Key, was: Option<KernelPeer>)
    requires was.Some?
    ensures Resulting([], key, was) == was.value
  {
  }

  lemma NoKeys()
    ensures Keys([]) == {}
  {
  }

  lemma {:induction false} SaidSplit<T>(f: Peer -> Option<T>, a: seq<Peer>, b: seq<Peer>, key: Key)
    ensures Said(f, a + b, key) == if Said(f, b, key).Some? then Said(f, b, key) else Said(f, a, key)
    decreases |b|
  {
    if b == [] {
      assert a + b == a;
    } else {
      var n := |b| - 1;
      assert (a + b)[..|a| + n] == a + b[..n];
      SaidSplit(f, a, b[..n], key);
    }
  }

  /** Two lists that say the same of a key. */
  ghost predicate SayTheSame<T>(f: Peer -> Option<T>, a: seq<Peer>, b: seq<Peer>, key: Key) {
    && |a| == |b|
    && forall i :: 0 <= i < |a| ==>
      a[i].publicKey == b[i].publicKey && (a[i].publicKey == key ==> f(a[i]) == f(b[i]))
  }

  lemma {:induction false} SaidSame<T>(f: Peer -> Option<T>, a: seq<Peer>, b: seq<Peer>, key: Key)
    requires SayTheSame(f, a, b, key)
    ensures Said(f, a, key) == Said(f, b, key)
    decreases |a|
  {
    if a != [] {
      var n := |a| - 1;
      assert forall i :: 0 <= i < n ==> a[..n][i] == a[i] && b[..n][i] == b[i];
      SaidSame(f, a[..n], b[..n], key);
    }
  }

  /** What was said of the attribute before section j is lost when the section is told to clear it. */
  predicate Loses<T(==)>(f: Peer -> Option<T>, zero: T, ps: seq<Peer>, j: nat)
    requires j < |ps|
  {
    var key := ps[j].publicKey;
    && f(ps[j]).None? && Said(f, ps[j + 1..], key).None?
    && Said(f, ps[..j], key).Some? && Said(f, ps[..j], key).value != zero
  }

  /** One attribute: section j is told to clear it if the running peer has it and the section does not mention it. */
  lemma AttributeKept<T>(f: Peer -> Option<T>, zero: T, was: T, ps: seq<Peer>, now: seq<Peer>, j: nat)
    requires |now| == |ps| && j < |ps| && now[j].publicKey == ps[j].publicKey
    requires f(now[j]) == if f(ps[j]).None? && was != zero then Some(zero) else f(ps[j])
    requires SayTheSame(f, now[..j], ps[..j], ps[j].publicKey)
    requires SayTheSame(f, now[j + 1..], ps[j + 1..], ps[j].publicKey)
    ensures var key := ps[j].publicKey;
      OrElse(Said(f, now, key), was) == OrElse(Said(f, ps, key), zero) <==> !(was != zero && Loses(f, zero, ps, j))
  {
    hide Said, SayTheSame;
    var key := ps[j].publicKey;
    SaidSame(f, now[..j], ps[..j], key);
    SaidSame(f, now[j + 1..], ps[j + 1..], key);
    SaidAround(f, ps, j, key);
    SaidAround(f, now, j, key);
  }

  lemma SaidAround<T>(f: Peer -> Option<T>, ps: seq<Peer>, j: nat, key: Key)
    requires j < |ps| && ps[j].publicKey == key
    ensures Said(f, ps, key) == if Said(f, ps[j + 1..], key).Some? then Said(f, ps[j + 1..], key)
      else if f(ps[j]).Some? then f(ps[j]) else Said(f, ps[..j], key)
  {
    assert ps == (ps[..j] + [ps[j]]) + ps[j + 1..];
    SaidSplit(f, ps[..j] + [ps[j]], ps[j + 1..], key);
    SaidSplit(f, ps[..j], [ps[j]], key);
    assert [ps[j]][..0] == [];
  }

  // ---------------------------------------------------------------- routes

  /** The peer that a prefix leads to. */
  function Owner(routes: map<Prefix, Key>, x: Prefix): Option<Key> {
    if x in routes then Some(routes[x]) else None
  }

  function OwnerAfterIp(o: Option<Key>, key: Key, ip: AllowedIp, x: Prefix): Option<Key> {
    if PrefixOf(ip) != x then o
    else if ip.flags % 2 == 0 then Some(key)
    else if o == Some(key) then None else o
  }

  function OwnerAfterIps(o: Option<Key>, key: Key, ips: seq<AllowedIp>, x: Prefix): Option<Key> {
    if ips == [] then o
    else OwnerAfterIp(OwnerAfterIps(o, key, ips[..|ips| - 1], x), key, ips[|ips| - 1], x)
  }

  function OwnerAfterSection(o: Option<Key>, p: Peer, x: Prefix): Option<Key> {
    OwnerAfterIps(if p.replaceIps && o == Some(p.publicKey) then None else o, p.publicKey, p.ips, x)
  }

  function OwnerAfter(o: Option<Key>, ps: seq<Peer>, x: Prefix): Option<Key> {
    if ps == [] then o else OwnerAfterSection(OwnerAfter(o, ps[..|ps| - 1], x), ps[|ps| - 1], x)
  }

  lemma {:induction false} IpsOwner(routes: map<Prefix, Key>, key: Key, ips: seq<AllowedIp>, x: Prefix)
    ensures Owner(ApplyIps(routes, key, ips), x) == OwnerAfterIps(Owner(routes, x), key, ips, x)
    decreases |ips|
  {
    if ips != [] {
      IpsOwner(routes, key, ips[..|ips| - 1], x);
    }
  }

  /** The routing table prefix by prefix. */
  lemma {:induction false} RoutesAfter(s: Kernel, ps: seq<Peer>, x: Prefix)
    requires Sections(ps)
    ensures Owner(ApplyPeers(s, ps).routes, x) == OwnerAfter(Owner(s.routes, x), ps, x)
    decreases |ps|
  {
    hide ApplyIps, OwnerAfterIps;
    if ps != [] {
      var n := |ps| - 1;
      RoutesAfter(s, ps[..n], x);
      var before := ApplyPeers(s, ps[..n]).routes;
      IpsOwner(if ps[n].replaceIps then WithoutRoutesOf(before, ps[n].publicKey) else before, ps[n].publicKey,
               ps[n].ips, x);
    }
  }

  /** The entry gives the prefix to someone, or takes it from this peer. */
  predicate TouchesIp(ip: AllowedIp, giver: Key, key: Key, x: Prefix) {
    PrefixOf(ip) == x && (ip.flags % 2 == 0 || giver == key)
  }

  predicate TouchesIps(ips: seq<AllowedIp>, giver: Key, key: Key, x: Prefix) {
    exists k :: 0 <= k < |ips| && TouchesIp(ips[k], giver, key, x)
  }

  /** The section replaces the allowed IPs of this peer, or mentions the prefix so that a route to it goes. */
  predicate Touches(p: Peer, key: Key, x: Prefix) {
    (p.replaceIps && p.publicKey == key) || TouchesIps(p.ips, p.publicKey, key, x)
  }

  predicate Touched(ps: seq<Peer>, key: Key, x: Prefix) {
    exists i :: 0 <= i < |ps| && Touches(ps[i], key, x)
  }

  /** A route to a peer that no entry touches stays, and one that is touched might as well not have been there. */
  lemma {:induction false} StaleIps(giver: Key, ips: seq<AllowedIp>, key: Key, x: Prefix)
    ensures OwnerAfterIps(Some(key), giver, ips, x) ==
      if TouchesIps(ips, giver, key, x) then OwnerAfterIps(None, giver, ips, x) else Some(key)
    ensures !TouchesIps(ips, giver, key, x) ==> OwnerAfterIps(None, giver, ips, x) == None
    decreases |ips|
  {
    if ips != [] {
      var n := |ips| - 1;
      StaleIps(giver, ips[..n], key, x);
      TouchesSnoc(ips, giver, key, x);
    }
  }

  lemma TouchesSnoc(ips: seq<AllowedIp>, giver: Key, key: Key, x: Prefix)
    requires ips != []
    ensures var n := |ips| - 1;
      TouchesIps(ips, giver, key, x) <==> TouchesIps(ips[..n], giver, key, x) || TouchesIp(ips[n], giver, key, x)
  {
    hide TouchesIp;
    var n := |ips| - 1;
    if TouchesIps(ips[..n], giver, key, x) {
      var k :| 0 <= k < n && TouchesIp(ips[..n][k], giver, key, x);
      assert TouchesIp(ips[k], giver, key, x);
    }
    if TouchesIps(ips, giver, key, x) {
      var k :| 0 <= k < |ips| && TouchesIp(ips[k], giver, key, x);
      assert k < n ==> TouchesIp(ips[..n][k], giver, key, x);
    }
  }

  lemma StaleSection(p: Peer, key: Key, x: Prefix)
    ensures OwnerAfterSection(Some(key), p, x) ==
      if Touches(p, key, x) then OwnerAfterSection(None, p, x) else Some(key)
    ensures !Touches(p, key, x) ==> OwnerAfterSection(None, p, x) == None
  {
    hide OwnerAfterIps, TouchesIps;
    StaleIps(p.publicKey, p.ips, key, x);
  }

  lemma {:induction false} StaleRoute(ps: seq<Peer>, key: Key, x: Prefix)
    ensures OwnerAfter(Some(key), ps, x) == if Touched(ps, key, x) then OwnerAfter(None, ps, x) else Some(key)
    ensures !Touched(ps, key, x) ==> OwnerAfter(None, ps, x) == None
    decreases |ps|
  {
    hide Touches, OwnerAfterSection;
    if ps != [] {
      var n := |ps| - 1;
      StaleRoute(ps[..n], key, x);
      StaleSection(ps[n], key, x);
      TouchedSnoc(ps, key, x);
    }
  }

  lemma TouchedSnoc(ps: seq<Peer>, key: Key, x: Prefix)
    requires ps != []
    ensures var n := |ps| - 1; Touched(ps, key, x) <==> Touched(ps[..n], key, x) || Touches(ps[n], key, x)
  {
    hide Touches;
    var n := |ps| - 1;
    if Touched(ps[..n], key, x) {
      var k :| 0 <= k < n && Touches(ps[..n][k], key, x);
      assert Touches(ps[k], key, x);
    }
    if Touched(ps, key, x) {
      var k :| 0 <= k < |ps| && Touches(ps[k], key, x);
      assert k < n ==> Touches(ps[..n][k], key, x);
    }
  }

  lemma {:induction false} SameSections(a: seq<Peer>, b: seq<Peer>, o: Option<Key>, x: Prefix)
    requires |a| == |b|
    requires forall i :: 0 <= i < |a| ==>
      a[i].publicKey == b[i].publicKey && a[i].replaceIps == b[i].replaceIps && a[i].ips == b[i].ips
    ensures OwnerAfter(o, a, x) == OwnerAfter(o, b, x)
    decreases |a|
  {
    if a != [] {
      var n := |a| - 1;
      assert forall i :: 0 <= i < n ==> a[..n][i] == a[i] && b[..n][i] == b[i];
      SameSections(a[..n], b[..n], o, x);
    }
  }

  // ---------------------------------------------------------------- the theorem

  /** The keys of a split list; with distinct keys the two parts have none in common. */
  lemma KeysSplit(ps: seq<Peer>, n: nat)
    requires n < |ps| && DistinctKeys(ps)
    ensures Keys(ps[..n + 1]) == Keys(ps[..n]) + {ps[n].publicKey}
    ensures Keys(ps[n..]) == Keys(ps[n + 1..]) + {ps[n].publicKey}
    ensures ps[n].publicKey !in Keys(ps[..n]) && ps[n].publicKey !in Keys(ps[n + 1..]) && ps[n].publicKey in Keys(ps)
  {
    assert ps[..n + 1] == ps[..n] + [ps[n]];
    KeysSnoc(ps[..n], ps[n]);
    KeysCons(ps[n], ps[n + 1..]);
    assert ps[n..] == [ps[n]] + ps[n + 1..];
  }

  lemma KeysCons(p: Peer, ps: seq<Peer>)
    ensures Keys([p] + ps) == {p.publicKey} + Keys(ps)
  {
    var q := [p] + ps;
    assert q[0].publicKey in Keys(q);
    forall k | k in Keys(ps)
      ensures k in Keys(q)
    {
      var i :| 0 <= i < |ps| && ps[i].publicKey == k;
      assert q[i + 1].publicKey == k;
    }
  }

  /** The two outcomes of a peer: equal but for an endpoint that the file leaves open. */
  ghost predicate SamePeer(s: Kernel, ps: seq<Peer>, key: Key, a: KernelPeer, b: KernelPeer) {
    && a.presharedKey == b.presharedKey && a.keepalive == b.keepalive
    && OpenEndpoint(s, ps, key, a, b)
  }

  ghost predicate OpenEndpoint(s: Kernel, ps: seq<Peer>, key: Key, a: KernelPeer, b: KernelPeer) {
    && b.endpoint == Said(EndpointOf, ps, key)
    && a.endpoint == if b.endpoint.Some? then b.endpoint else if key in s.peers then s.peers[key].endpoint else None
  }

  /** The two outcomes agree on everything but the endpoints that the file leaves open. */
  ghost predicate SameOutcome(s: Kernel, ps: seq<Peer>, synced: Kernel, replaced: Kernel) {
    && SameScalars(synced, replaced)
    && synced.routes == replaced.routes
    && synced.peers.Keys == replaced.peers.Keys == Keys(ps)
    && forall key :: key in Keys(ps) ==> SamePeer(s, ps, key, synced.peers[key], replaced.peers[key])
  }

  /** The section that a running peer meets is not told to clear what another section says. */
  ghost predicate KeepsSaid(rs: seq<RuntimePeer>, ps: seq<Peer>, j: nat)
    requires j < |ps|
  {
    var r := Lookup(rs, ps[j].publicKey);
    r.Some? ==>
      !(r.value.presharedKey != ZeroKey() && Loses(PresharedKeyOf, ZeroKey(), ps, j))
      && !(r.value.keepalive != 0 && Loses(KeepaliveOf, 0, ps, j))
  }

  /** The file takes every route of its peers back, or gives it away. */
  ghost predicate NoRouteStale(s: Kernel, ps: seq<Peer>) {
    forall x :: x in s.routes && s.routes[x] in Keys(ps) ==> Touched(ps, s.routes[x], x)
  }

  /** When synchronising has the effect of replacing, for an array sorted like this. */
  ghost predicate Preserves(s: Kernel, rs: seq<RuntimePeer>, ps: seq<Peer>, es: seq<Entry>) {
    (forall j :: 0 <= j < |ps| && Met(es, j) ==> KeepsSaid(rs, ps, j)) && NoRouteStale(s, ps)
  }

  /** Adjusting a section leaves its key, its endpoint and its allowed IPs alone. */
  lemma AdjustedShape(es: seq<Entry>, ps: seq<Peer>, rs: seq<RuntimePeer>)
    ensures var now := Adjustments(es, ps, rs);
      && (forall i :: 0 <= i < |ps| ==> now[i].publicKey == ps[i].publicKey && now[i].removeMe == ps[i].removeMe)
      && (forall i :: 0 <= i < |ps| ==> now[i].replaceIps == ps[i].replaceIps && now[i].ips == ps[i].ips)
      && (forall i :: 0 <= i < |ps| ==> now[i].endpoint == ps[i].endpoint)
      && (forall i :: 0 <= i < |ps| && !Met(es, i) ==> now[i] == ps[i])
  {
    hide Met, Lookup;
  }

  /** The attributes of a running peer, through the section that it meets. */
  lemma MetAttributes(s: Kernel, rs: seq<RuntimePeer>, ps: seq<Peer>, es: seq<Entry>, j: nat)
    requires Arranged(es, ps, rs) && Reports(s, rs) && j < |ps| && Met(es, j)
    ensures var key, now := ps[j].publicKey, Adjustments(es, ps, rs);
      var a, b := Resulting(now, key, PeerIn(s, key)), Resulting(ps, key, None);
      && (a.presharedKey == b.presharedKey && a.keepalive == b.keepalive <==> KeepsSaid(rs, ps, j))
      && OpenEndpoint(s, ps, key, a, b)
  {
    hide Arranged, Met, Said, Loses, Lookup, Adjustments;
    var key, now := ps[j].publicKey, Adjustments(es, ps, rs);
    MetOnce(es, ps, rs, j, j);
    ReportedExactly(s, rs, key);
    AdjustedShape(es, ps, rs);
    MetSection(es, ps, rs, j);
    OthersSame(es, ps, rs, j, PresharedKeyOf);
    OthersSame(es, ps, rs, j, KeepaliveOf);
    AttributeKept(PresharedKeyOf, ZeroKey(), s.peers[key].presharedKey, ps, now, j);
    AttributeKept(KeepaliveOf, 0, s.peers[key].keepalive, ps, now, j);
    SaidSame(EndpointOf, now, ps, key);
  }

  lemma MetSection(es: seq<Entry>, ps: seq<Peer>, rs: seq<RuntimePeer>, j: nat)
    requires j < |ps| && Met(es, j) && Lookup(rs, ps[j].publicKey).Some?
    ensures var r, p := Lookup(rs, ps[j].publicKey).value, Adjustments(es, ps, rs)[j];
      && p.presharedKey == (if ps[j].presharedKey.None? && r.presharedKey != ZeroKey() then Some(ZeroKey())
                            else ps[j].presharedKey)
      && p.keepalive == if ps[j].keepalive.None? && r.keepalive != 0 then Some(0) else ps[j].keepalive
  {
    hide Met, Lookup;
  }

  /** No other section of the peer is touched. */
  lemma OthersSame<T>(es: seq<Entry>, ps: seq<Peer>, rs: seq<RuntimePeer>, j: nat, f: Peer -> Option<T>)
    requires Arranged(es, ps, rs) && DistinctRuntime(rs) && j < |ps| && Met(es, j)
    ensures var now, key := Adjustments(es, ps, rs), ps[j].publicKey;
      SayTheSame(f, now[..j], ps[..j], key) && SayTheSame(f, now[j + 1..], ps[j + 1..], key)
  {
    hide Arranged, DistinctRuntime, Met, Lookup, Adjustments;
    var now, key := Adjustments(es, ps, rs), ps[j].publicKey;
    AdjustedShape(es, ps, rs);
    forall i | 0 <= i < |ps| && i != j && ps[i].publicKey == key
      ensures now[i] == ps[i]
    {
      if Met(es, i) {
        MetOnce(es, ps, rs, j, i);
      }
    }
    PartSame(f, now, ps, 0, j, key);
    PartSame(f, now, ps, j + 1, |ps|, key);
    assert now[0..j] == now[..j] && ps[0..j] == ps[..j];
    assert now[j + 1..|ps|] == now[j + 1..] && ps[j + 1..|ps|] == ps[j + 1..];
  }

  lemma PartSame<T>(f: Peer -> Option<T>, a: seq<Peer>, b: seq<Peer>, lo: nat, hi: nat, key: Key)
    requires |a| == |b| && lo <= hi <= |a|
    requires forall i :: lo <= i < hi ==>
      a[i].publicKey == b[i].publicKey && (a[i].publicKey == key ==> f(a[i]) == f(b[i]))
    ensures SayTheSame(f, a[lo..hi], b[lo..hi], key)
  {
    forall i | 0 <= i < hi - lo
      ensures a[lo..hi][i].publicKey == b[lo..hi][i].publicKey
      ensures a[lo..hi][i].publicKey == key ==> f(a[lo..hi][i]) == f(b[lo..hi][i])
    {
      assert a[lo..hi][i] == a[lo + i] && b[lo..hi][i] == b[lo + i];
    }
  }

  /** A peer of the file that does not run is set up as a replace sets it up. */
  lemma NewAttributes(s: Kernel, rs: seq<RuntimePeer>, ps: seq<Peer>, es: seq<Entry>, key: Key)
    requires Arranged(es, ps, rs) && Reports(s, rs) && key !in s.peers
    ensures var now := Adjustments(es, ps, rs);
      var a, b := Resulting(now, key, PeerIn(s, key)), Resulting(ps, key, None);
      a == b && OpenEndpoint(s, ps, key, a, b)
  {
    hide Arranged, Met, Said, Lookup, Adjustments;
    var now := Adjustments(es, ps, rs);
    ReportedExactly(s, rs, key);
    AdjustedShape(es, ps, rs);
    forall i | 0 <= i < |ps| && ps[i].publicKey == key
      ensures now[i] == ps[i]
    {
      if Met(es, i) {
        MetOnce(es, ps, rs, i, i);
      }
    }
    SaidSame(PresharedKeyOf, now, ps, key);
    SaidSame(KeepaliveOf, now, ps, key);
    SaidSame(EndpointOf, now, ps, key);
  }

  /** The device after its scalars are set. */
  function Started(s: Kernel, file: Device): Kernel {
    s.(privateKey := if file.privateKey.Some? then file.privateKey.value else s.privateKey,
       listenPort := if file.listenPort.Some? then file.listenPort.value else s.listenPort,
       fwmark := if file.fwmark.Some? then file.fwmark.value else s.fwmark)
  }

  /** The peers of both outcomes. */
  lemma PeersCompared(s: Kernel, start: Kernel, rs: seq<RuntimePeer>, ps: seq<Peer>, es: seq<Entry>, gone: seq<Peer>,
                      key: Key)
    requires Arranged(es, ps, rs) && Sections(ps) && Reports(s, rs) && Departing(gone, rs, ps)
    requires start.peers == s.peers
    ensures var a := ApplyPeers(start, gone + Adjustments(es, ps, rs));
      var b := ApplyPeers(start.(peers := map[], routes := map[]), ps);
      && SameScalars(a, b)
      && (key in a.peers <==> key in Keys(ps)) && (key in b.peers <==> key in Keys(ps))
      && (key in Keys(ps) ==>
            && a.peers[key] == Resulting(Adjustments(es, ps, rs), key, PeerIn(s, key))
            && b.peers[key] == Resulting(ps, key, None))
  {
    hide Arranged, Lookup, Reports, Departing, ApplyPeers, Resulting, Adjustments, Keys, Met;
    var now := Adjustments(es, ps, rs);
    AdjustedShape(es, ps, rs);
    ApplyPeersConcat(start, gone, now);
    DepartingRemovals(gone, rs, ps);
    RemovalsEffect(start, gone);
    DepartingKeys(s, rs, ps, gone);
    PeersAfter(ApplyPeers(start, gone), now, key);
    PeersAfter(start.(peers := map[], routes := map[]), ps, key);
    SameKeys(now, ps);
  }

  lemma DepartingRemovals(gone: seq<Peer>, rs: seq<RuntimePeer>, ps: seq<Peer>)
    requires Departing(gone, rs, ps)
    ensures forall a :: 0 <= a < |gone| ==> gone[a] == Removal(gone[a].publicKey)
  {
  }

  lemma SameKeys(a: seq<Peer>, b: seq<Peer>)
    requires |a| == |b| && forall i :: 0 <= i < |a| ==> a[i].publicKey == b[i].publicKey
    ensures Keys(a) == Keys(b)
  {
  }

  /** One prefix in both outcomes: a route of a peer of the file was there before the sections, or nothing. */
  lemma RoutesCompared(s: Kernel, start: Kernel, rs: seq<RuntimePeer>, ps: seq<Peer>, es: seq<Entry>, gone: seq<Peer>,
                       x: Prefix)
    requires Sections(ps) && Reports(s, rs) && Departing(gone, rs, ps)
    requires start.routes == s.routes
    ensures var a := ApplyPeers(start, gone + Adjustments(es, ps, rs));
      var b := ApplyPeers(start.(peers := map[], routes := map[]), ps);
      Owner(a.routes, x) == Owner(b.routes, x) <==>
        (x in s.routes && s.routes[x] in Keys(ps) ==> Touched(ps, s.routes[x], x))
  {
    hide Lookup, Departing, ApplyPeers, Adjustments, Keys, Met, OwnerAfter, Touched;
    var now := Adjustments(es, ps, rs);
    AdjustedShape(es, ps, rs);
    ApplyPeersConcat(start, gone, now);
    DepartingRemovals(gone, rs, ps);
    RemovalsEffect(start, gone);
    DepartingKeys(s, rs, ps, gone);
    RoutesAfter(ApplyPeers(start, gone), now, x);
    RoutesAfter(start.(peers := map[], routes := map[]), ps, x);
    SameSections(now, ps, Owner(ApplyPeers(start, gone).routes, x), x);
    if x in s.routes && s.routes[x] in Keys(ps) {
      StaleRoute(ps, s.routes[x], x);
    }
  }

  lemma SameRoutes(s: Kernel, ps: seq<Peer>, a: map<Prefix, Key>, b: map<Prefix, Key>)
    requires forall x :: Owner(a, x) == Owner(b, x) <==>
      (x in s.routes && s.routes[x] in Keys(ps) ==> Touched(ps, s.routes[x], x))
    ensures a == b <==> NoRouteStale(s, ps)
  {
    hide Touched, Keys;
    if NoRouteStale(s, ps) {
      forall x
        ensures x in a <==> x in b
        ensures x in a ==> a[x] == b[x]
      {
        assert Owner(a, x) == Owner(b, x);
      }
      assert a == b;
    }
    if a == b {
      forall x | x in s.routes && s.routes[x] in Keys(ps)
        ensures Touched(ps, s.routes[x], x)
      {
        assert Owner(a, x) == Owner(b, x);
      }
    }
  }

  /** Both ways of applying the peers, from a device whose scalars are already set. */
  lemma PeersEqualReplace(s: Kernel, start: Kernel, rs: seq<RuntimePeer>, ps: seq<Peer>, es: seq<Entry>,
                          gone: seq<Peer>)
    requires Arranged(es, ps, rs) && Sections(ps) && Reports(s, rs) && Departing(gone, rs, ps)
    requires start.peers == s.peers && start.routes == s.routes
    ensures var a := ApplyPeers(start, gone + Adjustments(es, ps, rs));
      var b := ApplyPeers(start.(peers := map[], routes := map[]), ps);
      SameOutcome(s, ps, a, b) <==> Preserves(s, rs, ps, es)
  {
    hide Arranged, Lookup, Reports, Departing, ApplyPeers, Resulting, Adjustments, Keys, Met, Owner, Touched;
    hide KeepsSaid, OpenEndpoint;
    var now := Adjustments(es, ps, rs);
    var a := ApplyPeers(start, gone + now);
    var b := ApplyPeers(start.(peers := map[], routes := map[]), ps);
    forall key
      ensures SameScalars(a, b) && (key in a.peers <==> key in Keys(ps)) && (key in b.peers <==> key in Keys(ps))
      ensures key in Keys(ps) ==> (SamePeer(s, ps, key, a.peers[key], b.peers[key]) <==> KeptFor(rs, ps, es, key))
    {
      PeersCompared(s, start, rs, ps, es, gone, key);
      if key in Keys(ps) {
        PeerCompared(s, rs, ps, es, key);
      }
    }
    forall x
      ensures Owner(a.routes, x) == Owner(b.routes, x) <==>
        (x in s.routes && s.routes[x] in Keys(ps) ==> Touched(ps, s.routes[x], x))
    {
      RoutesCompared(s, start, rs, ps, es, gone, x);
    }
    SameRoutes(s, ps, a.routes, b.routes);
    KeptForAll(rs, ps, es);
    hide SamePeer, KeptFor, NoRouteStale;
    assert SameScalars(a, b) by {
      PeersCompared(s, start, rs, ps, es, gone, ZeroKey());
    }
    assert a.peers.Keys == Keys(ps) && b.peers.Keys == Keys(ps);
    if SameOutcome(s, ps, a, b) {
      assert forall key :: key in Keys(ps) ==> SamePeer(s, ps, key, a.peers[key], b.peers[key]);
    }
  }

  /** The same condition, key by key. */
  ghost predicate KeptFor(rs: seq<RuntimePeer>, ps: seq<Peer>, es: seq<Entry>, key: Key) {
    forall j :: 0 <= j < |ps| && ps[j].publicKey == key && Met(es, j) ==> KeepsSaid(rs, ps, j)
  }

  lemma KeptForAll(rs: seq<RuntimePeer>, ps: seq<Peer>, es: seq<Entry>)
    ensures (forall key :: key in Keys(ps) ==> KeptFor(rs, ps, es, key)) <==>
      forall j :: 0 <= j < |ps| && Met(es, j) ==> KeepsSaid(rs, ps, j)
  {
    hide Met, KeepsSaid;
    if forall key :: key in Keys(ps) ==> KeptFor(rs, ps, es, key) {
      forall j | 0 <= j < |ps| && Met(es, j)
        ensures KeepsSaid(rs, ps, j)
      {
        assert ps[j].publicKey in Keys(ps);
        assert KeptFor(rs, ps, es, ps[j].publicKey);
      }
    }
  }

  lemma PeerCompared(s: Kernel, rs: seq<RuntimePeer>, ps: seq<Peer>, es: seq<Entry>, key: Key)
    requires Arranged(es, ps, rs) && Reports(s, rs) && key in Keys(ps)
    ensures SamePeer(s, ps, key, Resulting(Adjustments(es, ps, rs), key, PeerIn(s, key)), Resulting(ps, key, None)) <==>
      KeptFor(rs, ps, es, key)
  {
    hide Arranged, Lookup, Resulting, Adjustments, Met, KeepsSaid, OpenEndpoint;
    ReportedExactly(s, rs, key);
    if key in s.peers {
      assert InFile(ps, key);
      var j := SomeMet(es, ps, rs, key);
      MetAttributes(s, rs, ps, es, j);
      forall i | 0 <= i < |ps| && ps[i].publicKey == key && Met(es, i)
        ensures i == j
      {
        MetOnce(es, ps, rs, j, i);
      }
    } else {
      NewAttributes(s, rs, ps, es, key);
      forall i | 0 <= i < |ps| && ps[i].publicKey == key
        ensures !Met(es, i)
      {
        if Met(es, i) {
          MetOnce(es, ps, rs, i, i);
        }
      }
    }
  }

  /**
   The theorem, for any file and any order that the sorting may give to sections with one key: what
   sync_conf sends leaves the device as a full replace would, but for open endpoints, exactly when no
   section is told to clear what another says and no route of a peer of the file is left behind. No
   peer of the file is ever marked for removal.
   */
  lemma SyncEqualsReplace(s: Kernel, rs: seq<RuntimePeer>, file: Device, es: seq<Entry>, out: Device)
    requires Arranged(es, file.peers, rs) && Sections(file.peers) && file.replacePeers && Reports(s, rs)
    requires Synchronised(file, rs, es, out)
    ensures SameOutcome(s, file.peers, Apply(s, out), Apply(s, file)) <==> Preserves(s, rs, file.peers, es)
    ensures forall i :: 0 <= i < |out.peers| && InFile(file.peers, out.peers[i].publicKey) ==> !out.peers[i].removeMe
  {
    hide Arranged, Lookup, Reports, ApplyPeers, SameOutcome, InFile, Preserves, Adjustments, Met;
    var ps := file.peers;
    var now := Adjustments(es, ps, rs);
    var gone: seq<Peer> :|
      && out == file.(replacePeers := false, peers := gone + now)
      && (forall a :: 0 <= a < |gone| ==> gone[a] == Removal(gone[a].publicKey))
      && (forall key :: Removal(key) in gone <==> Lookup(rs, key).Some? && !InFile(ps, key));
    assert Departing(gone, rs, ps);
    PeersEqualReplace(s, Started(s, file), rs, ps, es, gone);
    AdjustedShape(es, ps, rs);
    forall a | 0 <= a < |gone|
      ensures !InFile(ps, gone[a].publicKey)
    {
      DepartingUnnamed(gone, rs, ps, a);
    }
  }

  /** A file whose sections all replace their allowed IPs, sorted in its own order, always meets the condition. */
  lemma InOrderPreserves(s: Kernel, rs: seq<RuntimePeer>, ps: seq<Peer>, es: seq<Entry>)
    requires Arranged(es, ps, rs) && DistinctRuntime(rs) && KeepsOrder(es)
    requires forall i :: 0 <= i < |ps| ==> ps[i].replaceIps
    ensures Preserves(s, rs, ps, es)
  {
    hide Arranged, DistinctRuntime, KeepsOrder, Lookup, Met, Said;
    forall j | 0 <= j < |ps| && Met(es, j)
      ensures KeepsSaid(rs, ps, j)
    {
      forall i | 0 <= i < j
        ensures ps[..j][i].publicKey != ps[j].publicKey
      {
        MetFirst(es, ps, rs, j, i);
      }
      assert ps[j].publicKey !in Keys(ps[..j]);
      Unmentioned(PresharedKeyOf, ps[..j], ps[j].publicKey);
      Unmentioned(KeepaliveOf, ps[..j], ps[j].publicKey);
    }
    forall x | x in s.routes && s.routes[x] in Keys(ps)
      ensures Touched(ps, s.routes[x], x)
    {
      var i :| 0 <= i < |ps| && ps[i].publicKey == s.routes[x];
      assert Touches(ps[i], s.routes[x], x);
    }
  }

  /** With distinct keys there is only one order. */
  lemma DistinctInOrder(es: seq<Entry>, ps: seq<Peer>, rs: seq<RuntimePeer>)
    requires Arranged(es, ps, rs) && DistinctKeys(ps)
    ensures KeepsOrder(es)
  {
    hide Arranged, DistinctKeys;
    if !KeepsOrder(es) {
      var i, j :| 0 <= i < j < |es| && es[i].fromFile && es[j].fromFile && es[i].key == es[j].key
        && es[i].index >= es[j].index;
      OneForKey(es, ps, rs, i, j);
      assert false;
    }
  }

  lemma OneForKey(es: seq<Entry>, ps: seq<Peer>, rs: seq<RuntimePeer>, i: nat, j: nat)
    requires Arranged(es, ps, rs) && DistinctKeys(ps)
    requires i < |es| && j < |es| && es[i].fromFile && es[j].fromFile && es[i].key == es[j].key
    ensures i == j
  {
    hide Sorted;
    assert Names(es[i], ps, rs) && Names(es[j], ps, rs);
    OneSection(es, ps, rs, i, j);
  }

  /** Reading the device, synchronising and applying, for every file and every kernel state. */
  method SyncDevice(file: Device, running: seq<RuntimePeer>, ghost s: Kernel)
    returns (out: Device, ghost es: seq<Entry>)
    requires Sections(file.peers) && file.replacePeers && Reports(s, running)
    ensures file.peers == [] ==> out == file
    ensures file.peers != [] && running == [] ==> SameOutcome(s, file.peers, Apply(s, out), Apply(s, file))
    ensures file.peers != [] && running != [] ==> Arranged(es, file.peers, running)
    ensures file.peers != [] && running != [] ==>
      (SameOutcome(s, file.peers, Apply(s, out), Apply(s, file)) <==> Preserves(s, running, file.peers, es))
  {
    hide Apply, SameOutcome, Synchronised, Arranged, Preserves, Sections;
    var ok;
    ok, out, es := Sync(file, Some(running));
    if file.peers != [] {
      if running == [] {
        NothingRunning(s, file);
      } else {
        SyncEqualsReplace(s, running, file, es, out);
      }
    }
  }

  /** With no running peers the file is sent as it is. */
  lemma NothingRunning(s: Kernel, file: Device)
    requires Sections(file.peers) && file.replacePeers && Reports(s, [])
    ensures SameOutcome(s, file.peers, Apply(s, file), Apply(s, file))
  {
    hide ApplyPeers, Resulting, Keys;
    var start := Started(s, file).(peers := map[], routes := map[]);
    var after := ApplyPeers(start, file.peers);
    forall key
      ensures key in after.peers <==> key in Keys(file.peers)
      ensures key in Keys(file.peers) ==>
        key !in s.peers && after.peers[key].endpoint == Said(EndpointOf, file.peers, key)
    {
      PeersAfter(start, file.peers, key);
      ReportedExactly(s, [], key);
      NewEndpoint(file.peers, key);
    }
  }

  lemma NewEndpoint(ps: seq<Peer>, key: Key)
    ensures Resulting(ps, key, None).endpoint == Said(EndpointOf, ps, key)
  {
  }

  // ---------------------------------------------------------------- where it fails

  function Repeated(b: byte): Key { seq(32, _ => b) }

  /** A kernel with one peer, and what it reports. */
  function OnePeer(presharedKey: Key, routes: map<Prefix, Key>): Kernel {
    Kernel(ZeroKey(), 0, 0, map[Repeated(1) := KernelPeer(presharedKey, None, 0)], routes)
  }

  function OneReport(presharedKey: Key): seq<RuntimePeer> { [RuntimePeer(Repeated(1), presharedKey, 0)] }

  lemma OneReported(presharedKey: Key, routes: map<Prefix, Key>)
    requires forall x :: x in routes ==> routes[x] == Repeated(1)
    ensures Reports(OnePeer(presharedKey, routes), OneReport(presharedKey))
    ensures Lookup(OneReport(presharedKey), Repeated(1)) == Some(RuntimePeer(Repeated(1), presharedKey, 0))
  {
    var rs := OneReport(presharedKey);
    assert rs[1..] == [];
  }

  function Bare(presharedKey: Option<Key>, replacing: bool): Peer {
    Peer(Repeated(1), false, replacing, presharedKey, None, None, [])
  }

  /** Two sections of one peer, and the array with the second before the first. */
  function TwoSections(): seq<Peer> { [Bare(Some(Repeated(2)), true), Bare(None, true)] }

  function Reversed(): seq<Entry> {
    [Entry(Repeated(1), false, 0), Entry(Repeated(1), true, 1), Entry(Repeated(1), true, 0)]
  }

  lemma ReversedArranged(presharedKey: Key)
    ensures Arranged(Reversed(), TwoSections(), OneReport(presharedKey)) && Met(Reversed(), 1)
  {
    hide Compare;
    var es, ps, rs := Reversed(), TwoSections(), OneReport(presharedKey);
    CompareZero(Repeated(1), Repeated(1));
    assert Entry(ps[0].publicKey, true, 0) == es[2] && Entry(ps[1].publicKey, true, 1) == es[1];
    assert Entry(rs[0].publicKey, false, 0) == es[0];
    assert Meeting(es, 0, 1);
  }

  /** The running peer's own preshared key makes the second section clear what the first one says. */
  lemma LaterSectionFirst()
    ensures var s, rs, ps, es := OnePeer(Repeated(3), map[]), OneReport(Repeated(3)), TwoSections(), Reversed();
      Arranged(es, ps, rs) && Reports(s, rs) && !Preserves(s, rs, ps, es)
  {
    hide Arranged, Reports, Met, Lookup, NoRouteStale;
    var s, rs, ps, es := OnePeer(Repeated(3), map[]), OneReport(Repeated(3)), TwoSections(), Reversed();
    ReversedArranged(Repeated(3));
    OneReported(Repeated(3), map[]);
    assert Repeated(2)[0] == 2 && Repeated(3)[0] == 3 && ZeroKey()[0] == 0;
    assert ps[2..] == [] && ps[..1] == [ps[0]] && [ps[0]][..0] == [];
    assert Loses(PresharedKeyOf, ZeroKey(), ps, 1);
    assert !KeepsSaid(rs, ps, 1);
  }

  /** A section that only adds to the allowed IPs of its peer leaves the old ones, which a replace drops. */
  lemma OldRouteStays(x: Prefix, es: seq<Entry>)
    ensures var s, rs, ps := OnePeer(ZeroKey(), map[x := Repeated(1)]), OneReport(ZeroKey()), [Bare(None, false)];
      Reports(s, rs) && !Preserves(s, rs, ps, es)
  {
    hide Reports;
    var s, ps := OnePeer(ZeroKey(), map[x := Repeated(1)]), [Bare(None, false)];
    OneReported(ZeroKey(), map[x := Repeated(1)]);
    assert ps[0].publicKey in Keys(ps);
    assert x in s.routes && s.routes[x] in Keys(ps) && !Touched(ps, s.routes[x], x);
  }
}
