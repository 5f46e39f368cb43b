/**
 The bytes of a set-device message, in the numbers of the interface header: a reader of its own
 for one level of attributes, and what each level must carry. Nothing here uses the constants or
 the layout functions of the writer; they are only proved to meet it.
 */
module WireFormat {
  import opened Bits
  import opened Options
  import opened Netlink
  import opened WgDevice
  import opened WgAttributes

  /** Type and payload of an attribute. */
  type Field = (nat, seq<byte>)

  /** The attributes of one level: a 16-bit length with its four header bytes, a 16-bit type, payload, padding to 4. */
  function Fields(b: seq<byte>): seq<Field>
    decreases |b|
  {
    if |b| < 4 then []
    else
      var n := (b[0] as int) + 256 * (b[1] as int);
      if n < 4 || n > |b| then []
      else
        var next := (n + 3) / 4 * 4;
        [((b[2] as int) + 256 * (b[3] as int), b[4..n])] + Fields(if next <= |b| then b[next..] else [])
  }

  /** The attribute of this type is there, once or repeated with one payload, exactly if there is a payload. */
  ghost predicate Carries(b: seq<byte>, ty: nat, payload: Option<seq<byte>>) {
    && (forall f :: f in Fields(b) && f.0 == ty ==> payload == Some(f.1))
    && (payload.Some? ==> (ty, payload.value) in Fields(b))
  }

  function Little16(n: nat): seq<byte> { [n % 256, n / 256 % 256] }

  function Little32(n: nat): seq<byte> { [n % 256, n / 256 % 256, n / 65536 % 256, n / 16777216 % 256] }

  /** The attributes of an allowed IP: 1 family, 2 address, 3 prefix length, 4 flags, of which bit 0 removes. */
  ghost predicate IpOnWire(b: seq<byte>, ip: AllowedIp) {
    && Carries(b, 1, Some(Little16(ip.family)))
    && Carries(b, 2, if ip.family == 2 || ip.family == 10 then Some(ip.addr) else None)
    && Carries(b, 3, Some([ip.cidr]))
    && Carries(b, 4, if ip.flags != 0 then Some(Little32(ip.flags)) else None)
  }

  /** The flags of a peer, attribute 3: bit 0 removes it, bit 1 replaces its allowed IPs; absent without either. */
  ghost predicate PeerFlagsOnWire(b: seq<byte>, p: Peer) {
    && (forall f :: f in Fields(b) && f.0 == 3 ==>
          |f.1| == 4 && f.1[1] == f.1[2] == f.1[3] == 0 && f.1[0] < 4
          && ((f.1[0] as int) % 2 == 1 <==> p.removeMe) && ((f.1[0] as int) / 2 % 2 == 1 <==> p.replaceIps))
    && ((exists f :: f in Fields(b) && f.0 == 3) <==> p.removeMe || p.replaceIps)
  }

  /** A nest of entries: attribute `ty` with the nested bit, one nested attribute of type 0 for each. */
  ghost predicate Entries(b: seq<byte>, ty: nat, count: nat) {
    && (count > 0 ==> exists f :: f in Fields(b) && f.0 == 0x8000 + ty)
    && forall f :: f in Fields(b) && f.0 == 0x8000 + ty ==>
      |Fields(f.1)| == count && forall k :: 0 <= k < count ==> Fields(f.1)[k].0 == 0x8000
  }

  /** The attributes of a peer: 1 public key, 2 preshared key, 3 flags, 4 endpoint, 5 keepalive, 9 allowed IPs. */
  ghost predicate PeerOnWire(b: seq<byte>, p: Peer) {
    && Carries(b, 1, Some(p.publicKey))
    && Carries(b, 2, p.presharedKey)
    && PeerFlagsOnWire(b, p)
    && Carries(b, 4, p.endpoint)
    && Carries(b, 5, if p.keepalive.Some? then Some(Little16(p.keepalive.value)) else None)
    && Entries(b, 9, |p.ips|)
    && forall f, k :: f in Fields(b) && f.0 == 0x8009 && 0 <= k < |p.ips| && k < |Fields(f.1)| ==>
      IpOnWire(Fields(f.1)[k].1, p.ips[k])
  }

  /** The attributes of a device: 2 name, 3 private key, 5 flags (bit 0 replaces all peers), 6 port, 7 mark, 8 peers. */
  ghost predicate DeviceOnWire(b: seq<byte>, d: Device) {
    && Carries(b, 2, Some(d.name + [0]))
    && Carries(b, 3, d.privateKey)
    && Carries(b, 5, if d.replacePeers then Some([1, 0, 0, 0]) else None)
    && Carries(b, 6, if d.listenPort.Some? then Some(Little16(d.listenPort.value)) else None)
    && Carries(b, 7, if d.fwmark.Some? then Some(Little32(d.fwmark.value)) else None)
    && Entries(b, 8, |d.peers|)
    && forall f, k :: f in Fields(b) && f.0 == 0x8008 && 0 <= k < |d.peers| && k < |Fields(f.1)| ==>
      PeerOnWire(Fields(f.1)[k].1, d.peers[k])
  }

  // ---------------------------------------------------------------- reading

  /** The two readers agree on any bytes. */
  lemma {:induction false} FieldsAreRaws(b: seq<byte>)
    ensures |Fields(b)| == |Walk(b)|
    ensures forall i :: 0 <= i < |Fields(b)| ==> Fields(b)[i] == (Walk(b)[i].rawType, Walk(b)[i].data)
    decreases |b|
  {
    hide Fields, Align, GetU16, AttrOk;
    AttrFields(b);
    if AttrOk(b) {
      var n := GetU16(b);
      FieldsAreRaws(if Align(n) <= |b| then b[Align(n)..] else []);
    }
  }

  /** One attribute as the walk takes it. */
  lemma AttrFields(b: seq<byte>)
    ensures !AttrOk(b) ==> Fields(b) == []
    ensures AttrOk(b) ==>
      |b| >= 4 && 4 <= GetU16(b) <= |b| && Align(GetU16(b)) > 0
      && Fields(b) == [(GetU16(b[2..]), b[4..GetU16(b)])]
        + Fields(if Align(GetU16(b)) <= |b| then b[Align(GetU16(b))..] else [])
  {
    hide Align;
    if AttrOk(b) {
      AlignUp(GetU16(b));
      FirstField(b, GetU16(b));
      assert b[2..][0] == b[2] && b[2..][1] == b[3];
    }
  }

  lemma FirstField(b: seq<byte>, n: nat)
    requires |b| >= 4 && n == (b[0] as int) + 256 * (b[1] as int) && 4 <= n <= |b|
    ensures var next := (n + 3) / 4 * 4;
      Fields(b) == [((b[2] as int) + 256 * (b[3] as int), b[4..n])] + Fields(if next <= |b| then b[next..] else [])
  {
  }

  lemma AlignUp(n: nat)
    ensures Align(n) == (n + 3) / 4 * 4
  {
    hide Align;
  }

  /** The pairs of a list of attributes. */
  function Pairs(s: seq<Attr>): seq<Field> {
    seq(|s|, i requires 0 <= i < |s| => (RawType(s[i]), Payload(s[i])))
  }

  lemma FieldsOf(s: seq<Attr>)
    requires WfAll(s)
    ensures Fields(EncodeAll(s)) == Pairs(s)
  {
    hide Fields, Walk, EncodeAll, Payload, RawType, Wf;
    FieldsAreRaws(EncodeAll(s));
    WalkEncodeAll(s);
  }

  // ---------------------------------------------------------------- optional attributes

  /** The pairs of optional attributes, in order. */
  function Present(os: seq<(nat, Option<seq<byte>>)>): seq<Field> {
    if os == [] then []
    else
      var o := os[|os| - 1];
      Present(os[..|os| - 1]) + if o.1.Some? then [(o.0, o.1.value)] else []
  }

  lemma {:induction false} PresentExactly(os: seq<(nat, Option<seq<byte>>)>, f: Field)
    ensures f in Present(os) <==> (f.0, Some(f.1)) in os
    decreases |os|
  {
    if os != [] {
      var n := |os| - 1;
      PresentExactly(os[..n], f);
      assert os == os[..n] + [os[n]];
    }
  }

  ghost predicate DistinctTypes(os: seq<(nat, Option<seq<byte>>)>) {
    forall i, j :: 0 <= i < j < |os| ==> os[i].0 != os[j].0
  }

  /** With distinct types each optional attribute is carried as it is, also before a nest. */
  lemma PresentCarried(b: seq<byte>, os: seq<(nat, Option<seq<byte>>)>, nests: seq<Field>, i: nat)
    requires Fields(b) == Present(os) + nests && DistinctTypes(os) && i < |os|
    requires forall k :: 0 <= k < |nests| ==> nests[k].0 >= 0x8000
    requires os[i].0 < 0x8000
    ensures Carries(b, os[i].0, os[i].1)
  {
    hide Fields, Present;
    forall f | f in Fields(b) && f.0 == os[i].0
      ensures os[i].1 == Some(f.1)
    {
      PresentExactly(os, f);
      var j :| 0 <= j < |os| && os[j] == (f.0, Some(f.1));
      assert i == j;
    }
    if os[i].1.Some? {
      PresentExactly(os, (os[i].0, os[i].1.value));
    }
  }

  lemma PresentSnoc(os: seq<(nat, Option<seq<byte>>)>, o: (nat, Option<seq<byte>>))
    ensures Present(os + [o]) == Present(os) + if o.1.Some? then [(o.0, o.1.value)] else []
  {
    assert (os + [o])[..|os|] == os;
  }

  lemma PairsSnoc(s: seq<Attr>, ty: nat, o: Option<seq<byte>>)
    ensures Pairs(s + Opt(ty, o)) == Pairs(s) + if o.Some? then [(ty, o.value)] else []
  {
  }

  lemma PairsNest(s: seq<Attr>, ty: nat, items: seq<Attr>)
    ensures Pairs(s + [Nest(ty, items)]) == Pairs(s) + [(ty + 0x8000, EncodeAll(items))]
  {
    hide EncodeAll;
  }

  // ---------------------------------------------------------------- allowed IPs

  function IpOptions(ip: AllowedIp): seq<(nat, Option<seq<byte>>)> {
    [(1, Some(Little16(ip.family))), (2, if ip.family == 2 || ip.family == 10 then Some(ip.addr) else None),
     (3, Some([ip.cidr])), (4, if ip.flags != 0 then Some(Little32(ip.flags)) else None)]
  }

  lemma LittleBytes(n: nat)
    ensures U16(n) == Little16(n) && U32(n) == Little32(n)
  {
    DivModUnique(n / 0x10000 / 256, 1, n / 16777216, 0);
  }

  lemma IpPairs(ip: AllowedIp)
    ensures Pairs(IpItems(ip)) == Present(IpOptions(ip))
  {
    hide Opt, U16, U32, Little16, Little32, Pairs, Present;
    LittleBytes(ip.family);
    LittleBytes(ip.flags);
    var os := IpOptions(ip);
    NoPairs();
    var a := [] + Opt(1, os[0].1);
    var b := a + Opt(2, os[1].1);
    var c := b + Opt(3, os[2].1);
    assert a == Opt(1, os[0].1);
    assert IpItems(ip) == c + Opt(4, os[3].1);
    PairsSnoc([], 1, os[0].1);
    PairsSnoc(a, 2, os[1].1);
    PairsSnoc(b, 3, os[2].1);
    PairsSnoc(c, 4, os[3].1);
    PresentSnoc([], os[0]);
    PresentSnoc([os[0]], os[1]);
    PresentSnoc([os[0], os[1]], os[2]);
    PresentSnoc([os[0], os[1], os[2]], os[3]);
    assert [] + [os[0]] == [os[0]] && [os[0]] + [os[1]] == [os[0], os[1]];
    assert [os[0], os[1]] + [os[2]] == [os[0], os[1], os[2]] && [os[0], os[1], os[2]] + [os[3]] == os;
  }

  lemma NoPairs()
    ensures Pairs([]) == [] && Present([]) == []
  {
  }

  lemma IpWire(ip: AllowedIp)
    requires WfAll(IpItems(ip))
    ensures IpOnWire(EncodeAll(IpItems(ip)), ip)
  {
    hide Fields, EncodeAll, Present, Pairs, Carries, Wf, IpItems, Little16, Little32;
    var b, os := EncodeAll(IpItems(ip)), IpOptions(ip);
    FieldsOf(IpItems(ip));
    IpPairs(ip);
    assert Present(os) + [] == Present(os);
    PresentCarried(b, os, [], 0);
    PresentCarried(b, os, [], 1);
    PresentCarried(b, os, [], 2);
    PresentCarried(b, os, [], 3);
  }

  // ---------------------------------------------------------------- peers

  function FlagByte(p: Peer): byte { (if p.removeMe then 1 else 0) + if p.replaceIps then 2 else 0 }

  function PeerOptions(p: Peer): seq<(nat, Option<seq<byte>>)> {
    [(1, Some(p.publicKey)), (2, p.presharedKey), (4, p.endpoint),
     (5, if p.keepalive.Some? then Some(Little16(p.keepalive.value)) else None),
     (3, if FlagByte(p) != 0 then Some([FlagByte(p), 0, 0, 0]) else None)]
  }

  lemma PeerPairs(p: Peer)
    ensures Pairs(HeadItems(p)) == Present(PeerOptions(p))
  {
    hide Opt, U16, U32, Little16, Little32, Pairs, Present;
    if p.keepalive.Some? {
      LittleBytes(p.keepalive.value);
    }
    SmallFlags(FlagByte(p));
    var os := PeerOptions(p);
    NoPairs();
    var a := [] + Opt(1, os[0].1);
    var b := a + Opt(2, os[1].1);
    var c := b + Opt(4, os[2].1);
    var d := c + Opt(5, os[3].1);
    assert a == Opt(1, os[0].1);
    assert HeadItems(p) == d + Opt(3, os[4].1);
    PairsSnoc([], 1, os[0].1);
    PairsSnoc(a, 2, os[1].1);
    PairsSnoc(b, 4, os[2].1);
    PairsSnoc(c, 5, os[3].1);
    PairsSnoc(d, 3, os[4].1);
    PresentFive(os);
  }

  lemma SmallFlags(n: byte)
    ensures U32(n) == [n, 0, 0, 0]
  {
  }

  lemma PresentFive(os: seq<(nat, Option<seq<byte>>)>)
    requires |os| == 5
    ensures Present(os) == Present([]) + Part(os[0]) + Part(os[1]) + Part(os[2]) + Part(os[3]) + Part(os[4])
  {
    hide Present;
    PresentSnoc([], os[0]);
    PresentSnoc([os[0]], os[1]);
    PresentSnoc([os[0], os[1]], os[2]);
    PresentSnoc([os[0], os[1], os[2]], os[3]);
    PresentSnoc([os[0], os[1], os[2], os[3]], os[4]);
    assert [] + [os[0]] == [os[0]] && [os[0]] + [os[1]] == [os[0], os[1]];
    assert [os[0], os[1]] + [os[2]] == [os[0], os[1], os[2]];
    assert [os[0], os[1], os[2]] + [os[3]] == [os[0], os[1], os[2], os[3]];
    assert [os[0], os[1], os[2], os[3]] + [os[4]] == os;
  }

  function Part(o: (nat, Option<seq<byte>>)): seq<Field> {
    if o.1.Some? then [(o.0, o.1.value)] else []
  }

  /** The attributes of one peer, whatever allowed IPs its nest holds. */
  lemma HeadWire(b: seq<byte>, p: Peer, nests: seq<Field>)
    requires Fields(b) == Present(PeerOptions(p)) + nests && forall k :: 0 <= k < |nests| ==> nests[k].0 >= 0x8000
    ensures Carries(b, 1, Some(p.publicKey)) && Carries(b, 2, p.presharedKey) && Carries(b, 4, p.endpoint)
    ensures Carries(b, 5, if p.keepalive.Some? then Some(Little16(p.keepalive.value)) else None)
    ensures PeerFlagsOnWire(b, p)
  {
    hide Fields, Present, Little16;
    var os := PeerOptions(p);
    PresentCarried(b, os, nests, 0);
    PresentCarried(b, os, nests, 1);
    PresentCarried(b, os, nests, 2);
    PresentCarried(b, os, nests, 3);
    PresentCarried(b, os, nests, 4);
    if FlagByte(p) != 0 {
      assert (3, [FlagByte(p), 0, 0, 0]) in Fields(b);
    }
  }

  /** A nest of trees with the nested bit, seen as fields. */
  lemma NestFields(trees: seq<Attr>)
    requires WfAll(trees) && forall k :: 0 <= k < |trees| ==> trees[k].Nest? && trees[k].ty == 0
    ensures |Fields(EncodeAll(trees))| == |trees|
    ensures forall k :: 0 <= k < |trees| ==> Fields(EncodeAll(trees))[k] == (0x8000, EncodeAll(trees[k].items))
  {
    hide Fields, EncodeAll, Wf;
    FieldsOf(trees);
  }

  lemma IpsWire(ips: seq<AllowedIp>)
    requires WfAll(IpTrees(ips))
    ensures var b := EncodeAll(IpTrees(ips));
      && |Fields(b)| == |ips|
      && forall k :: 0 <= k < |ips| ==> Fields(b)[k].0 == 0x8000 && IpOnWire(Fields(b)[k].1, ips[k])
  {
    hide Fields, EncodeAll, IpItems, IpOnWire;
    NestFields(IpTrees(ips));
    forall k | 0 <= k < |ips|
      ensures IpOnWire(EncodeAll(IpItems(ips[k])), ips[k])
    {
      assert Wf(IpTrees(ips)[k]);
      IpWire(ips[k]);
    }
  }

  lemma PeerWire(a: Attr, p: Peer)
    requires Wf(a) && IsPeerTree(a, p)
    ensures a.Nest? && a.ty == 0 && PeerOnWire(EncodeAll(a.items), p)
  {
    hide Fields, EncodeAll, HeadItems, Present, Pairs, PeerOptions, Carries, PeerFlagsOnWire, IpOnWire, IpTrees;
    var b := EncodeAll(a.items);
    FieldsOf(a.items);
    PeerPairs(p);
    PresentPlain(p);
    if a.items == HeadItems(p) {
      assert Present(PeerOptions(p)) + [] == Present(PeerOptions(p));
      HeadWire(b, p, []);
    } else {
      var q := EncodeAll(IpTrees(p.ips));
      PairsNest(HeadItems(p), 9, IpTrees(p.ips));
      HeadWire(b, p, [(0x8009, q)]);
      assert Wf(a.items[|a.items| - 1]);
      IpsWire(p.ips);
      OneNest(b, Present(PeerOptions(p)), 0x8009, q);
    }
  }

  lemma PresentPlain(p: Peer)
    ensures forall f :: f in Present(PeerOptions(p)) ==> f.0 < 0x8000
  {
    hide Present, Little16;
    forall f | f in Present(PeerOptions(p))
      ensures f.0 < 0x8000
    {
      PresentExactly(PeerOptions(p), f);
    }
  }

  /** Only the last field has the type of the nest. */
  lemma OneNest(b: seq<byte>, plain: seq<Field>, ty: nat, q: seq<byte>)
    requires Fields(b) == plain + [(ty, q)] && ty >= 0x8000 && forall f :: f in plain ==> f.0 < 0x8000
    ensures forall f :: f in Fields(b) && f.0 == ty ==> f.1 == q
    ensures (ty, q) in Fields(b)
  {
    hide Fields;
    assert (plain + [(ty, q)])[|plain|] == (ty, q);
  }

  // ---------------------------------------------------------------- devices

  function DeviceOptions(d: Device): seq<(nat, Option<seq<byte>>)> {
    [(2, Some(d.name + [0])), (3, d.privateKey),
     (6, if d.listenPort.Some? then Some(Little16(d.listenPort.value)) else None),
     (7, if d.fwmark.Some? then Some(Little32(d.fwmark.value)) else None),
     (5, if d.replacePeers then Some([1, 0, 0, 0]) else None)]
  }

  lemma DevicePairs(d: Device)
    ensures Pairs(DeviceItems(d)) == Present(DeviceOptions(d))
  {
    hide Opt, U16, U32, Little16, Little32, Pairs, Present;
    if d.listenPort.Some? {
      LittleBytes(d.listenPort.value);
    }
    if d.fwmark.Some? {
      LittleBytes(d.fwmark.value);
    }
    SmallFlags(1);
    var os := DeviceOptions(d);
    NoPairs();
    var a := [] + Opt(2, os[0].1);
    var b := a + Opt(3, os[1].1);
    var c := b + Opt(6, os[2].1);
    var e := c + Opt(7, os[3].1);
    assert a == Opt(2, os[0].1);
    assert DeviceItems(d) == e + Opt(5, os[4].1);
    PairsSnoc([], 2, os[0].1);
    PairsSnoc(a, 3, os[1].1);
    PairsSnoc(b, 6, os[2].1);
    PairsSnoc(c, 7, os[3].1);
    PairsSnoc(e, 5, os[4].1);
    PresentFive(os);
  }

  lemma DeviceHeadWire(b: seq<byte>, d: Device, nests: seq<Field>)
    requires Fields(b) == Present(DeviceOptions(d)) + nests && forall k :: 0 <= k < |nests| ==> nests[k].0 >= 0x8000
    ensures Carries(b, 2, Some(d.name + [0])) && Carries(b, 3, d.privateKey)
    ensures Carries(b, 5, if d.replacePeers then Some([1, 0, 0, 0]) else None)
    ensures Carries(b, 6, if d.listenPort.Some? then Some(Little16(d.listenPort.value)) else None)
    ensures Carries(b, 7, if d.fwmark.Some? then Some(Little32(d.fwmark.value)) else None)
    ensures forall f :: f in Present(DeviceOptions(d)) ==> f.0 < 0x8000
  {
    hide Fields, Present, Little16, Little32, Carries;
    var os := DeviceOptions(d);
    PresentCarried(b, os, nests, 0);
    PresentCarried(b, os, nests, 1);
    PresentCarried(b, os, nests, 2);
    PresentCarried(b, os, nests, 3);
    PresentCarried(b, os, nests, 4);
    forall f | f in Present(os)
      ensures f.0 < 0x8000
    {
      PresentExactly(os, f);
    }
  }

  lemma PeersWire(trees: seq<Attr>, peers: seq<Peer>)
    requires WfAll(trees) && ArePeerTrees(trees, peers)
    ensures var b := EncodeAll(trees);
      && |Fields(b)| == |peers|
      && forall k :: 0 <= k < |peers| ==> Fields(b)[k].0 == 0x8000 && PeerOnWire(Fields(b)[k].1, peers[k])
  {
    hide Fields, EncodeAll, IsPeerTree, PeerOnWire, Wf;
    forall k | 0 <= k < |trees|
      ensures trees[k].Nest? && trees[k].ty == 0 && PeerOnWire(EncodeAll(trees[k].items), peers[k])
    {
      PeerWire(trees[k], peers[k]);
    }
    NestFields(trees);
  }

  /** The theorem: the bytes of a message carry the device in the numbers of the header. */
  lemma MessageWire(items: seq<Attr>, d: Device)
    requires IsMessage(items, d) && WfAll(items)
    ensures DeviceOnWire(EncodeAll(items), d)
  {
    hide Fields, EncodeAll, DeviceItems, Present, Pairs, DeviceOptions, Carries, ArePeerTrees, PeerOnWire, Wf;
    var b := EncodeAll(items);
    FieldsOf(items);
    DevicePairs(d);
    var plain := Present(DeviceOptions(d));
    if items == DeviceItems(d) && d.peers == [] {
      assert plain + [] == plain;
      DeviceHeadWire(b, d, []);
    } else {
      var trees :| items == DeviceItems(d) + [Nest(DEVICE_PEERS, trees)] && ArePeerTrees(trees, d.peers);
      var q := EncodeAll(trees);
      PairsNest(DeviceItems(d), 8, trees);
      DeviceHeadWire(b, d, [(0x8008, q)]);
      NestWf(items, DEVICE_PEERS, trees);
      PeersWire(trees, d.peers);
      OneNest(b, plain, 0x8008, q);
    }
  }

  lemma NestWf(items: seq<Attr>, ty: nat, trees: seq<Attr>)
    requires WfAll(items) && items != [] && items[|items| - 1] == Nest(ty, trees)
    ensures WfAll(trees)
  {
    assert Wf(items[|items| - 1]);
  }

  // ---------------------------------------------------------------- examples

  /** Bytes of two attributes: type 2 with "wg0" and its terminator, type 6 with the port 51820. */
  lemma ReadExample()
    ensures Fields([8, 0, 2, 0, 119, 103, 48, 0, 6, 0, 6, 0, 108, 202, 0, 0])
            == [(2, [119, 103, 48, 0]), (6, [108, 202])]
  {
    hide Fields;
    var b: seq<byte> := [8, 0, 2, 0, 119, 103, 48, 0, 6, 0, 6, 0, 108, 202, 0, 0];
    FirstField(b, 8);
    assert b[4..8] == [119, 103, 48, 0];
    assert b[8..] == [6, 0, 6, 0, 108, 202, 0, 0];
    ReadPort();
  }

  lemma ReadPort()
    ensures Fields([6, 0, 6, 0, 108, 202, 0, 0]) == [(6, [108, 202])]
  {
    hide Fields;
    var b: seq<byte> := [6, 0, 6, 0, 108, 202, 0, 0];
    FirstField(b, 6);
    assert b[4..6] == [108, 202] && b[8..] == [];
    NoFields();
  }

  lemma NoFields()
    ensures Fields([]) == []
  {
  }
}
