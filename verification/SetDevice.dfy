/**
 Sending a device to the kernel: the request is cut into messages that fit the
 socket buffer, resuming at a peer and at an allowed IP of that peer.
 */
module SetDevice {
  import opened Bits
  import opened Options
  import opened Netlink
  import opened WgDevice
  import opened WgAttributes
  import WireFormat

  ghost function AppendAll(open: seq<Open>, items: seq<Attr>): seq<Open>
    requires open != []
  {
    var n := |open| - 1;
    open[n := Open(open[n].ty, open[n].items + items)]
  }

  lemma AppendAllNil(open: seq<Open>)
    requires open != []
    ensures AppendAll(open, []) == open
  {
    var n := |open| - 1;
    assert open[n].items + [] == open[n].items;
  }

  lemma AppendAllSnoc(open: seq<Open>, items: seq<Attr>, a: Attr)
    requires open != []
    ensures |AppendAll(open, items)| == |open|
    ensures Append(AppendAll(open, items), a) == AppendAll(open, items + [a])
  {
    var n := |open| - 1;
    ConcatAssoc(open[n].items, items, [a]);
  }

  lemma AppendAllShape(open: seq<Open>, items: seq<Attr>)
    requires open != []
    ensures var n := |open| - 1;
      |AppendAll(open, items)| == |open| && AppendAll(open, items)[..n] == open[..n]
  {
  }

  /** The buffer, with its nests below the innermost one as they were. */
  ghost predicate SameBelow(open: seq<Open>, was: seq<Open>) {
    |open| == |was| >= 1 && open[..|open| - 1] == was[..|was| - 1]
  }

  /** The first n bytes of the buffer have not changed. */
  ghost predicate Kept(was: seq<byte>, now: seq<byte>, n: nat) {
    n <= |was| == |now| && was[..n] == now[..n]
  }

  lemma KeptThen(a: seq<byte>, b: seq<byte>, c: seq<byte>, n: nat, m: nat)
    requires Kept(a, b, n) && Kept(b, c, m) && n <= m
    ensures Kept(a, c, n)
  {
    assert a[..n] == b[..m][..n] && c[..n] == c[..m][..n];
  }

  lemma IsKept(m: MsgBuffer, was: seq<byte>, n: nat)
    requires n <= |was| == m.buf.Length && m.buf[..n] == was[..n]
    ensures Kept(was, m.buf[..], n)
  {
    assert m.buf[..][..n] == m.buf[..n];
  }

  lemma KeptSlice(m: MsgBuffer, was: seq<byte>, n: nat)
    requires Kept(was, m.buf[..], n)
    ensures n <= |was| == m.buf.Length && m.buf[..n] == was[..n]
  {
    assert m.buf[..][..n] == m.buf[..n];
  }

  /** One optional attribute, added behind `done` at the innermost level. */
  method PutOpt(m: MsgBuffer, ty: nat, o: Option<seq<byte>>, ghost was: seq<Open>, ghost done: seq<Attr>,
                ghost start: nat, ghost bytes: seq<byte>) returns (ok: bool)
    requires m.Valid() && was != [] && m.open == AppendAll(was, done)
    requires start <= m.len && Kept(bytes, m.buf[..], start)
    modifies m, m.buf
    ensures m.Valid() && SameBelow(m.open, was)
    ensures ok ==> m.open == AppendAll(was, done + Opt(ty, o))
    ensures ok ==> m.len == old(m.len) + if o.Some? then HDRLEN + Align(|o.value|) else 0
    ensures !ok ==> o.Some? && old(m.len) + HDRLEN + Align(|o.value|) > m.buf.Length
    ensures start <= m.len && Kept(bytes, m.buf[..], start)
  {
    hide Flat, Size, Append, AppendAll, Align, Kept;
    ghost var before, len := m.buf[..], m.len;
    assert m.buf[..len] == before[..len];
    ok := true;
    AppendAllShape(was, done);
    if o.Some? {
      ok := m.PutCheck(ty, o.value);
      AppendAllSnoc(was, done, Leaf(ty, o.value));
      AppendAllShape(was, done + [Leaf(ty, o.value)]);
    } else {
      assert done + [] == done;
    }
    IsKept(m, before, len);
    KeptThen(bytes, before, m.buf[..], start, len);
  }

  /** The same without a check: the caller knows there is room. */
  method PutOptUnchecked(m: MsgBuffer, ty: nat, o: Option<seq<byte>>, ghost was: seq<Open>, ghost done: seq<Attr>)
    requires m.Valid() && was != [] && m.open == AppendAll(was, done)
    requires o.Some? ==> m.len + HDRLEN + Align(|o.value|) <= m.buf.Length
    modifies m, m.buf
    ensures m.Valid() && m.open == AppendAll(was, done + Opt(ty, o))
    ensures m.len == old(m.len) + if o.Some? then HDRLEN + Align(|o.value|) else 0
  {
    hide Flat, Size, Append, AppendAll, Align;
    if o.Some? {
      AppendAllSnoc(was, done, Leaf(ty, o.value));
      m.Put(ty, o.value);
    } else {
      assert done + [] == done;
    }
  }

  lemma Aligns()
    ensures Align(1) == 4 && Align(2) == 4 && Align(4) == 4 && Align(16) == 16 && Align(28) == 28 && Align(32) == 32
    ensures Align(0) == 0
  {
  }

  const HeadRoom: nat := 120
  const IpRoom: nat := 48

  /** Key, scalars and flags of one peer, in this order; stops at the first that does not fit. */
  method PutPeerHead(m: MsgBuffer, p: Peer) returns (ok: bool)
    requires m.Valid() && p.Wf()
    modifies m, m.buf
    ensures m.Valid() && SameBelow(m.open, old(m.open))
    ensures ok ==> m.open == AppendAll(old(m.open), HeadItems(p)) && m.len <= old(m.len) + HeadRoom
    ensures !ok ==> old(m.len) + HeadRoom > m.buf.Length
    ensures old(m.len) <= m.len && Kept(old(m.buf[..]), m.buf[..], old(m.len))
  {
    hide Flat, Size, AppendAll, Align, Opt, U16, U32, SameBelow, Kept;
    ghost var was := m.open;
    AppendAllNil(was);
    Aligns();
    AppendAllShape(was, []);
    IsKept(m, m.buf[..], m.len);
    ok := PutOpt(m, PEER_PUBLIC_KEY, Some(p.publicKey), was, [], old(m.len), old(m.buf[..]));
    if !ok { return; }
    ghost var a := [] + Opt(PEER_PUBLIC_KEY, Some(p.publicKey));
    assert a == Opt(PEER_PUBLIC_KEY, Some(p.publicKey));
    ok := PutOpt(m, PEER_PRESHARED_KEY, p.presharedKey, was, a, old(m.len), old(m.buf[..]));
    if !ok { return; }
    ghost var b := a + Opt(PEER_PRESHARED_KEY, p.presharedKey);
    ok := PutOpt(m, PEER_ENDPOINT, p.endpoint, was, b, old(m.len), old(m.buf[..]));
    if !ok { return; }
    ghost var c := b + Opt(PEER_ENDPOINT, p.endpoint);
    ok := PutOpt(m, PEER_KEEPALIVE, U16Option(p.keepalive), was, c, old(m.len), old(m.buf[..]));
    if !ok { return; }
    ghost var d := c + Opt(PEER_KEEPALIVE, U16Option(p.keepalive));
    var flags := if PeerFlags(p) != 0 then Some(U32(PeerFlags(p))) else None;
    ok := PutOpt(m, PEER_FLAGS, flags, was, d, old(m.len), old(m.buf[..]));
  }

  /** One allowed IP in a nest of its own; when it does not fit, the nest is cancelled. */
  method PutIp(m: MsgBuffer, ip: AllowedIp) returns (ok: bool)
    requires m.Valid() && ip.Wf()
    modifies m, m.buf
    ensures m.Valid()
    ensures ok ==> m.open == Append(old(m.open), IpTree(ip)) && m.len <= old(m.len) + IpRoom
    ensures !ok ==> m.open == old(m.open) && m.len == old(m.len) && old(m.len) + IpRoom > m.buf.Length
    ensures old(m.len) <= m.len && Kept(old(m.buf[..]), m.buf[..], old(m.len))
  {
    hide Flat, Size, AppendAll, Append, Align, Opt, U16, U32, Kept;
    ghost var below, bytes, len := m.open, m.buf[..], m.len;
    assert m.buf[..len] == bytes[..len];
    var nest := m.NestStartCheck(0);
    IsKept(m, bytes, len);
    if nest.None? {
      return false;
    }
    ghost var was, begun := m.open, m.buf[..];
    Aligns();
    AppendAllNil(was);
    ok := PutIpItems(m, ip, was);
    KeptThen(bytes, begun, m.buf[..], len, len + HDRLEN);
    KeptSlice(m, bytes, len);
    if !ok {
      m.NestCancel(nest.value);
    } else {
      AppendAllTop(below, 0, IpItems(ip));
      m.NestEnd(nest.value);
    }
    IsKept(m, bytes, len);
  }

  /** A nest just opened and filled: what is below it, and what it holds. */
  lemma AppendAllTop(below: seq<Open>, ty: nat, items: seq<Attr>)
    ensures var open := AppendAll(below + [Open(ty, [])], items);
      |open| == |below| + 1 && open[..|below|] == below && open[|below|] == Open(ty, items)
  {
    assert [] + items == items;
  }

  method PutIpItems(m: MsgBuffer, ip: AllowedIp, ghost was: seq<Open>) returns (ok: bool)
    requires m.Valid() && ip.Wf() && m.open == was && was != []
    modifies m, m.buf
    ensures m.Valid() && SameBelow(m.open, was)
    ensures ok ==> m.open == AppendAll(was, IpItems(ip)) && m.len <= old(m.len) + IpRoom - HDRLEN
    ensures !ok ==> old(m.len) + IpRoom - HDRLEN > m.buf.Length
    ensures old(m.len) <= m.len && Kept(old(m.buf[..]), m.buf[..], old(m.len))
  {
    hide Flat, Size, AppendAll, Align, Opt, U16, U32, SameBelow, Kept;
    AppendAllNil(was);
    Aligns();
    IsKept(m, m.buf[..], m.len);
    ok := PutOpt(m, IP_FAMILY, Some(U16(ip.family)), was, [], old(m.len), old(m.buf[..]));
    if !ok { return; }
    ghost var a := [] + Opt(IP_FAMILY, Some(U16(ip.family)));
    assert a == Opt(IP_FAMILY, Some(U16(ip.family)));
    var addr := if ip.family == AF_INET || ip.family == AF_INET6 then Some(ip.addr) else None;
    ok := PutOpt(m, IP_ADDR, addr, was, a, old(m.len), old(m.buf[..]));
    if !ok { return; }
    ghost var b := a + Opt(IP_ADDR, addr);
    ok := PutOpt(m, IP_CIDR, Some([ip.cidr]), was, b, old(m.len), old(m.buf[..]));
    if !ok { return; }
    ghost var c := b + Opt(IP_CIDR, Some([ip.cidr]));
    var flags := if ip.flags != 0 then Some(U32(ip.flags)) else None;
    ok := PutOpt(m, IP_FLAGS, flags, was, c, old(m.len), old(m.buf[..]));
  }

  /** Allowed IPs from `from` up, as many as fit. */
  method PutIps(m: MsgBuffer, ips: seq<AllowedIp>, from: nat) returns (to: nat)
    requires m.Valid() && from <= |ips| && forall k :: 0 <= k < |ips| ==> ips[k].Wf()
    modifies m, m.buf
    ensures m.Valid() && from <= to <= |ips|
    ensures m.open == AppendAll(old(m.open), IpTrees(ips[from..to]))
    ensures to < |ips| && to == from ==> old(m.len) + IpRoom > m.buf.Length
    ensures old(m.len) <= m.len && Kept(old(m.buf[..]), m.buf[..], old(m.len))
  {
    hide Flat, Size, AppendAll, Append, IpTrees, IpTree, Kept;
    ghost var was := m.open;
    IsKept(m, m.buf[..], m.len);
    AppendAllNil(was);
    to := from;
    assert ips[from..to] == [];
    IpTreesNil();
    while to < |ips|
      invariant m.Valid() && from <= to <= |ips|
      invariant m.open == AppendAll(was, IpTrees(ips[from..to]))
      invariant to == from ==> m.len == old(m.len)
      invariant old(m.len) <= m.len && Kept(old(m.buf[..]), m.buf[..], old(m.len))
    {
      ghost var before, len := m.buf[..], m.len;
      AppendAllSnoc(was, IpTrees(ips[from..to]), IpTree(ips[to]));
      IpTreesSnoc(ips[from..to], ips[to]);
      assert ips[from..to] + [ips[to]] == ips[from..to + 1];
      var ok := PutIp(m, ips[to]);
      KeptThen(old(m.buf[..]), before, m.buf[..], old(m.len), len);
      if !ok {
        return;
      }
      to := to + 1;
    }
  }

  lemma IpTreesNil()
    ensures IpTrees([]) == []
  {
  }

  lemma IpTreesSnoc(ips: seq<AllowedIp>, ip: AllowedIp)
    ensures IpTrees(ips + [ip]) == IpTrees(ips) + [IpTree(ip)]
  {
  }

  // ---------------------------------------------------------------- cursor

  /** Where sending stopped: a peer, and possibly an allowed IP of it that comes next. */
  datatype Cursor = Cursor(peer: nat, ip: Option<nat>)

  ghost predicate CursorOk(d: Device, c: Cursor) {
    && c.peer <= |d.peers|
    && (c.ip.Some? ==> c.peer < |d.peers| && c.ip.value < |d.peers[c.peer].ips|)
  }

  /** The peers that are still to be sent. */
  function Remaining(d: Device, c: Cursor): seq<Peer>
    requires CursorOk(d, c)
  {
    if c.ip.None? then d.peers[c.peer..]
    else
      var p := d.peers[c.peer];
      [Continuation(p, c.ip.value, |p.ips|)] + d.peers[c.peer + 1..]
  }

  /** What a message carries of the peer at the cursor, with allowed IPs up to `to`. */
  function Fragment(p: Peer, ip: Option<nat>, to: nat): Peer
    requires to <= |p.ips| && (ip.Some? ==> ip.value <= to)
  {
    if ip.None? then FirstPart(p, to) else Continuation(p, ip.value, to)
  }

  /** Two lists of peers with the same effect on every kernel state. */
  ghost predicate SameEffect(a: seq<Peer>, b: seq<Peer>) {
    forall s :: ApplyPeers(s, a) == ApplyPeers(s, b)
  }

  /** A fragment and what then remains do what remained before. */
  lemma CutFragment(d: Device, c: Cursor, to: nat)
    requires CursorOk(d, c) && c.peer < |d.peers|
    requires to <= |d.peers[c.peer].ips| && (c.ip.Some? ==> c.ip.value <= to)
    ensures var p := d.peers[c.peer];
      var next := if to < |p.ips| then Cursor(c.peer, Some(to)) else Cursor(c.peer + 1, None);
      SameEffect([Fragment(p, c.ip, to)] + Remaining(d, next), Remaining(d, c))
  {
    hide ApplyPeers, ApplyPeer;
    var p, tail := d.peers[c.peer], d.peers[c.peer + 1..];
    var f := Fragment(p, c.ip, to);
    if to < |p.ips| {
      var rest := Continuation(p, to, |p.ips|);
      var whole := if c.ip.None? then p else Continuation(p, c.ip.value, |p.ips|);
      assert Remaining(d, c) == [whole] + tail;
      assert [f] + ([rest] + tail) == [f, rest] + tail;
      forall s: Kernel
        ensures ApplyPeers(s, [f, rest] + tail) == ApplyPeers(s, [whole] + tail)
      {
        ApplyPeersConcat(s, [f, rest], tail);
        ApplyPeersConcat(s, [whole], tail);
        ApplyTwo(s, f, rest);
        ApplyOne(s, whole);
        if c.ip.None? {
          FirstPartThenRest(s, p, to);
        } else {
          ContinuationSplits(s, p, c.ip.value, to);
        }
      }
    } else {
      assert p.ips[..to] == p.ips;
      assert [f] + tail == Remaining(d, c);
    }
  }

  lemma ApplyOne(s: Kernel, a: Peer)
    ensures ApplyPeers(s, [a]) == ApplyPeer(s, a)
  {
    assert [a][..0] == [];
  }

  lemma ApplyTwo(s: Kernel, a: Peer, b: Peer)
    ensures ApplyPeers(s, [a, b]) == ApplyPeer(ApplyPeer(s, a), b)
  {
    assert [a, b][..1] == [a];
    ApplyOne(s, a);
  }

  /** The peers before the cursor, the last of them with the allowed IPs before it. */
  function Done(d: Device, c: Cursor): seq<Peer>
    requires CursorOk(d, c)
  {
    d.peers[..c.peer] + if c.ip.None? then [] else [FirstPart(d.peers[c.peer], c.ip.value)]
  }

  /** Sending `frags` does the work between the two cursors, and leaves what is behind the second. */
  ghost predicate Sent(d: Device, start: Cursor, frags: seq<Peer>, c: Cursor) {
    && CursorOk(d, start) && CursorOk(d, c)
    && SameEffect(frags + Remaining(d, c), Remaining(d, start))
    && SameEffect(Done(d, start) + frags, Done(d, c))
  }

  /** A fragment moves the cursor forward. */
  lemma DoneMore(d: Device, c: Cursor, to: nat)
    requires CursorOk(d, c) && c.peer < |d.peers|
    requires to <= |d.peers[c.peer].ips| && (c.ip.Some? ==> c.ip.value <= to)
    ensures var p := d.peers[c.peer];
      var next := if to < |p.ips| then Cursor(c.peer, Some(to)) else Cursor(c.peer + 1, None);
      CursorOk(d, next) && SameEffect(Done(d, c) + [Fragment(p, c.ip, to)], Done(d, next))
  {
    hide ApplyPeers, ApplyPeer;
    var p, head := d.peers[c.peer], d.peers[..c.peer];
    var next := if to < |p.ips| then Cursor(c.peer, Some(to)) else Cursor(c.peer + 1, None);
    var f := Fragment(p, c.ip, to);
    WholePart(p);
    assert d.peers[..c.peer + 1] == head + [p];
    assert Done(d, next) == head + [FirstPart(p, to)];
    if c.ip.Some? {
      var begun := FirstPart(p, c.ip.value);
      assert Done(d, c) + [f] == head + [begun, f];
      forall s: Kernel
        ensures ApplyPeers(s, head + [begun, f]) == ApplyPeers(s, head + [FirstPart(p, to)])
      {
        ApplyPeersConcat(s, head, [begun, f]);
        ApplyPeersConcat(s, head, [FirstPart(p, to)]);
        ApplyTwo(ApplyPeers(s, head), begun, f);
        ApplyOne(ApplyPeers(s, head), FirstPart(p, to));
        FirstPartGrows(ApplyPeers(s, head), p, c.ip.value, to);
      }
    } else {
      assert Done(d, c) + [f] == head + [FirstPart(p, to)];
    }
  }

  lemma WholePart(p: Peer)
    ensures FirstPart(p, |p.ips|) == p
  {
    assert p.ips[..|p.ips|] == p.ips;
  }

  lemma FirstPartGrows(s: Kernel, p: Peer, from: nat, to: nat)
    requires from <= to <= |p.ips|
    ensures ApplyPeer(ApplyPeer(s, FirstPart(p, from)), Continuation(p, from, to)) == ApplyPeer(s, FirstPart(p, to))
  {
    hide ApplyPeer;
    var part := FirstPart(p, to);
    assert FirstPart(part, from) == FirstPart(p, from) by {
      assert p.ips[..to][..from] == p.ips[..from];
    }
    assert Continuation(part, from, to) == Continuation(p, from, to) by {
      assert p.ips[..to][from..to] == p.ips[from..to];
    }
    FirstPartThenRest(s, part, from);
  }

  lemma SentStart(d: Device, c: Cursor)
    requires CursorOk(d, c)
    ensures Sent(d, c, [], c)
  {
    assert [] + Remaining(d, c) == Remaining(d, c);
    assert Done(d, c) + [] == Done(d, c);
  }

  /** Lists of the same effect have the same effect before the same rest. */
  lemma SameThen(a: seq<Peer>, b: seq<Peer>, rest: seq<Peer>)
    requires SameEffect(a, b)
    ensures SameEffect(a + rest, b + rest)
  {
    hide ApplyPeers;
    forall s: Kernel
      ensures ApplyPeers(s, a + rest) == ApplyPeers(s, b + rest)
    {
      ApplyPeersConcat(s, a, rest);
      ApplyPeersConcat(s, b, rest);
      assert ApplyPeers(s, a) == ApplyPeers(s, b);
    }
  }

  lemma SentMore(d: Device, start: Cursor, frags: seq<Peer>, c: Cursor, to: nat)
    requires Sent(d, start, frags, c) && c.peer < |d.peers|
    requires to <= |d.peers[c.peer].ips| && (c.ip.Some? ==> c.ip.value <= to)
    ensures var p := d.peers[c.peer];
      var next := if to < |p.ips| then Cursor(c.peer, Some(to)) else Cursor(c.peer + 1, None);
      Sent(d, start, frags + [Fragment(p, c.ip, to)], next)
  {
    hide ApplyPeers, Fragment, Remaining, Done;
    var p := d.peers[c.peer];
    var next := if to < |p.ips| then Cursor(c.peer, Some(to)) else Cursor(c.peer + 1, None);
    var f := Fragment(p, c.ip, to);
    CutFragment(d, c, to);
    var a, b := [f] + Remaining(d, next), Remaining(d, c);
    assert (frags + [f]) + Remaining(d, next) == frags + a;
    DoneMore(d, c, to);
    SameThen(Done(d, start) + frags, Done(d, c), [f]);
    assert Done(d, start) + (frags + [f]) == (Done(d, start) + frags) + [f];
    forall s: Kernel
      ensures ApplyPeers(s, frags + a) == ApplyPeers(s, Remaining(d, start))
    {
      ApplyPeersConcat(s, frags, a);
      ApplyPeersConcat(s, frags, b);
      assert ApplyPeers(s, frags + b) == ApplyPeers(s, Remaining(d, start));
    }
  }

  // ---------------------------------------------------------------- sending

  /** One peer in a nest of its own; without room for its head, the nest is cancelled. */
  method PutPeer(m: MsgBuffer, p: Peer, ip: Option<nat>) returns (sent: bool, to: nat, ghost tree: Attr)
    requires m.Valid() && p.Wf() && (ip.Some? ==> ip.value < |p.ips|)
    modifies m, m.buf
    ensures m.Valid() && to <= |p.ips| && (ip.Some? ==> ip.value <= to)
    ensures !sent ==> m.open == old(m.open) && m.len == old(m.len) && old(m.len) + HDRLEN + HeadRoom > m.buf.Length
    ensures sent ==> m.open == Append(old(m.open), tree) && IsPeerTree(tree, Fragment(p, ip, to))
    ensures sent && to < |p.ips| && to == (if ip.Some? then ip.value else 0) ==>
              old(m.len) + 2 * HDRLEN + HeadRoom + IpRoom > m.buf.Length
    ensures old(m.len) <= m.len && Kept(old(m.buf[..]), m.buf[..], old(m.len))
  {
    hide Flat, Size, AppendAll, Append, HeadItems, IpTrees, Kept, IsPeerTree;
    ghost var below, bytes, len := m.open, m.buf[..], m.len;
    var from := if ip.Some? then ip.value else 0;
    sent, to, tree := false, from, Leaf(0, []);
    assert m.buf[..len] == bytes[..len];
    var nest := m.NestStartCheck(0);
    IsKept(m, bytes, len);
    if nest.None? {
      return;
    }
    ghost var begun := m.buf[..];
    var head := Fragment(p, ip, from);
    var ok := PutPeerHead(m, head);
    KeptThen(bytes, begun, m.buf[..], len, len + HDRLEN);
    KeptSlice(m, bytes, len);
    if !ok {
      m.NestCancel(nest.value);
      IsKept(m, bytes, len);
      return;
    }
    sent := true;
    AppendAllTop(below, 0, HeadItems(head));
    to, tree := PutPeerIps(m, p, ip, from, below, len, bytes);
    KeptSlice(m, bytes, len);
    m.NestEnd(nest.value);
    IsKept(m, bytes, len);
  }

  /** Behind the head of a peer: the nest of its allowed IPs, if there are any and it can be opened. */
  method PutPeerIps(m: MsgBuffer, p: Peer, ip: Option<nat>, from: nat, ghost below: seq<Open>, ghost start: nat,
                    ghost bytes: seq<byte>)
    returns (to: nat, ghost tree: Attr)
    requires m.Valid() && p.Wf() && from <= |p.ips| && from == (if ip.Some? then ip.value else 0)
    requires m.open == AppendAll(below + [Open(0, [])], HeadItems(Fragment(p, ip, from)))
    requires start <= m.len && Kept(bytes, m.buf[..], start)
    modifies m, m.buf
    ensures m.Valid() && from <= to <= |p.ips| && tree.Nest? && tree.ty == 0 && IsPeerTree(tree, Fragment(p, ip, to))
    ensures |m.open| == |below| + 1 && m.open[..|below|] == below && m.open[|below|] == Open(0, tree.items)
    ensures to < |p.ips| && to == from ==> old(m.len) + HDRLEN + IpRoom > m.buf.Length
    ensures start <= m.len && Kept(bytes, m.buf[..], start)
  {
    hide Flat, Size, AppendAll, Append, HeadItems, IpTrees, Kept;
    ghost var before, len, outer := m.buf[..], m.len, m.open;
    ghost var items := HeadItems(Fragment(p, ip, from));
    AppendAllTop(below, 0, items);
    HeadOnly(p, ip, from);
    to, tree := from, Nest(0, items);
    if |p.ips| == 0 {
      return;
    }
    assert m.buf[..len] == before[..len];
    var inner := m.NestStartCheck(PEER_ALLOWEDIPS);
    IsKept(m, before, len);
    if inner.Some? {
      ghost var begun := m.buf[..];
      to := PutIps(m, p.ips, from);
      KeptThen(before, begun, m.buf[..], len, len + HDRLEN);
      KeptSlice(m, before, len);
      AppendAllTop(outer, PEER_ALLOWEDIPS, IpTrees(p.ips[from..to]));
      m.NestEnd(inner.value);
      IsKept(m, before, len);
      HeadOnly(p, ip, to);
      NestInside(below, items, Nest(PEER_ALLOWEDIPS, IpTrees(p.ips[from..to])));
      tree := Nest(0, items + [Nest(PEER_ALLOWEDIPS, IpTrees(p.ips[from..to]))]);
    }
    KeptThen(bytes, before, m.buf[..], start, len);
  }

  /** The head of a fragment does not depend on how many allowed IPs it carries. */
  lemma HeadOnly(p: Peer, ip: Option<nat>, to: nat)
    requires to <= |p.ips| && (ip.Some? ==> ip.value <= to)
    ensures var from := if ip.Some? then ip.value else 0;
      && HeadItems(Fragment(p, ip, to)) == HeadItems(Fragment(p, ip, from))
      && Fragment(p, ip, to).ips == p.ips[from..to]
  {
  }

  lemma NestInside(below: seq<Open>, items: seq<Attr>, a: Attr)
    ensures var open := Append(AppendAll(below + [Open(0, [])], items), a);
      |open| == |below| + 1 && open[..|below|] == below && open[|below|] == Open(0, items + [a])
  {
    AppendAllTop(below, 0, items);
  }

  /** What is left of a peer at the cursor; a peer not begun counts one more than its allowed IPs. */
  ghost function IpsLeft(d: Device, c: Cursor): nat
    requires CursorOk(d, c)
  {
    if c.peer == |d.peers| then 0
    else if c.ip.None? then |d.peers[c.peer].ips| + 1
    else |d.peers[c.peer].ips| - c.ip.value
  }

  ghost predicate Advanced(d: Device, start: Cursor, c: Cursor)
    requires CursorOk(d, start) && CursorOk(d, c)
  {
    c.peer > start.peer || (c.peer == start.peer && IpsLeft(d, c) < IpsLeft(d, start))
  }

  lemma FragmentWf(p: Peer, ip: Option<nat>, to: nat)
    requires p.Wf() && to <= |p.ips| && (ip.Some? ==> ip.value <= to)
    ensures Fragment(p, ip, to).Wf()
  {
  }

  /** Fills the open peers nest of one message from the cursor on. */
  method FillPeers(m: MsgBuffer, d: Device, start: Cursor)
    returns (c: Cursor, ghost frags: seq<Peer>, ghost trees: seq<Attr>)
    requires m.Valid() && d.Wf() && CursorOk(d, start)
    requires |m.open| == 2 && m.open[1] == Open(DEVICE_PEERS, [])
    modifies m, m.buf
    ensures m.Valid() && Sent(d, start, frags, c) && ArePeerTrees(trees, frags)
    ensures m.open == AppendAll(old(m.open), trees)
    ensures forall k :: 0 <= k < |frags| ==> frags[k].Wf()
    ensures c == start || Advanced(d, start, c)
    ensures c == start && c.peer < |d.peers| ==> old(m.len) + 2 * HDRLEN + HeadRoom + IpRoom > m.buf.Length
  {
    hide Flat, Size, AppendAll, Append, IsPeerTree, SameEffect, Remaining, Done, Fragment;
    ghost var was := m.open;
    c, frags, trees := start, [], [];
    SentStart(d, start);
    AppendAllNil(was);
    while c.peer < |d.peers|
      invariant m.Valid() && Sent(d, start, frags, c) && ArePeerTrees(trees, frags)
      invariant m.open == AppendAll(was, trees)
      invariant forall k :: 0 <= k < |frags| ==> frags[k].Wf()
      invariant c == start || Advanced(d, start, c)
      invariant c == start ==> m.len == old(m.len)
      decreases |d.peers| - c.peer
    {
      ghost var before := c;
      var p := d.peers[c.peer];
      var sent, to, tree := PutPeer(m, p, c.ip);
      if !sent {
        return;
      }
      SentMore(d, start, frags, c, to);
      FragmentWf(p, c.ip, to);
      AppendAllSnoc(was, trees, tree);
      frags, trees := frags + [Fragment(p, c.ip, to)], trees + [tree];
      if to < |p.ips| {
        c := Cursor(c.peer, Some(to));
        return;
      }
      c := Cursor(c.peer + 1, None);
    }
  }

  /** The part of the device that a message carries besides peers: everything at first, then only the name. */
  function MessageHead(d: Device, first: bool): Device {
    if first then d.(peers := []) else Device(d.name, None, None, None, false, [])
  }

  /** The device attributes; these are put without a check. */
  method PutDeviceHead(m: MsgBuffer, d: Device)
    requires m.Valid() && m.open == [Open(0, [])] && d.Wf() && m.len == HEAD
    requires HEAD + HDRLEN + Align(|d.name| + 1) + 60 <= m.buf.Length
    modifies m, m.buf
    ensures m.Valid() && m.open == [Open(0, DeviceItems(d))]
    ensures m.len <= HEAD + HDRLEN + Align(|d.name| + 1) + if d == MessageHead(d, false) then 0 else 60
  {
    hide Flat, Size, AppendAll, Align, Opt, U16, U32;
    Aligns();
    ghost var was := m.open;
    AppendAllNil(was);
    ghost var a := [] + Opt(DEVICE_IFNAME, Some(d.name + [0]));
    assert a == Opt(DEVICE_IFNAME, Some(d.name + [0]));
    PutOptUnchecked(m, DEVICE_IFNAME, Some(d.name + [0]), was, []);
    PutOptUnchecked(m, DEVICE_PRIVATE_KEY, d.privateKey, was, a);
    ghost var b := a + Opt(DEVICE_PRIVATE_KEY, d.privateKey);
    PutOptUnchecked(m, DEVICE_LISTEN_PORT, U16Option(d.listenPort), was, b);
    ghost var c := b + Opt(DEVICE_LISTEN_PORT, U16Option(d.listenPort));
    PutOptUnchecked(m, DEVICE_FWMARK, U32Option(d.fwmark), was, c);
    ghost var e := c + Opt(DEVICE_FWMARK, U32Option(d.fwmark));
    PutOptUnchecked(m, DEVICE_FLAGS, if d.replacePeers then Some(U32(1)) else None, was, e);
    RootItems(DeviceItems(d));
  }

  lemma RootItems(items: seq<Attr>)
    ensures AppendAll([Open(0, [])], items) == [Open(0, items)]
  {
    assert [] + items == items;
  }

  /** A buffer that holds a later message with one whole peer head and one allowed IP. */
  predicate BufferFits(d: Device, size: nat) {
    && HEAD + HDRLEN + Align(|d.name| + 1) + 3 * HDRLEN + HeadRoom + IpRoom <= size < 0x10000
  }

  /** The buffer in use, a page but at most 8 KiB, is always large enough. */
  lemma IdealBufferFits(d: Device, page: nat)
    requires d.Wf() && page >= 4096
    ensures BufferFits(d, if page > 8192 then 8192 else page)
  {
  }

  /** One message: the head, and from the cursor on as many peers and allowed IPs as fit. */
  method BuildMessage(m: MsgBuffer, d: Device, first: bool, start: Cursor)
    returns (c: Cursor, bytes: seq<byte>, ghost msg: Device)
    requires m.buf.Length < 0x10000 && d.Wf() && CursorOk(d, start) && BufferFits(d, m.buf.Length)
    requires start.peer < |d.peers| || d.peers == []
    modifies m, m.buf
    ensures |bytes| <= m.buf.Length && |bytes| >= HEAD
    ensures msg.Wf() && msg.(peers := []) == MessageHead(d, first) && ReadDevice(Decode(bytes[HEAD..])) == msg
    ensures WireFormat.DeviceOnWire(bytes[20..], msg)
    ensures Sent(d, start, msg.peers, c)
    ensures d.peers == [] ==> c == start
    ensures d.peers != [] ==> Advanced(d, start, c) || (first && c == start)
  {
    hide Flat, Size, AppendAll, Append, Align, DeviceItems, ArePeerTrees;
    hide SameEffect, Decode, ReadDevice, IsMessage, EncodeAll, WireFormat.DeviceOnWire;
    var head := MessageHead(d, first);
    m.Prepare();
    PutDeviceHead(m, head);
    c, msg := start, head;
    SentStart(d, start);
    if d.peers == [] {
      HeadIsMessage(head);
    } else {
      var nest := m.NestStart(DEVICE_PEERS);
      ghost var frags, trees;
      c, frags, trees := FillPeers(m, d, start);
      AppendAllTop([Open(0, DeviceItems(head))], DEVICE_PEERS, trees);
      m.NestEnd(nest);
      msg := head.(peers := frags);
      PeersMessage(head, frags, trees);
    }
    bytes := m.buf[..m.len];
    m.Finished();
    MessageReadBack(m.open[0].items, msg);
  }

  lemma HeadIsMessage(d: Device)
    requires d.peers == []
    ensures IsMessage(DeviceItems(d), d)
  {
  }

  lemma PeersMessage(head: Device, frags: seq<Peer>, trees: seq<Attr>)
    requires ArePeerTrees(trees, frags)
    ensures var items := DeviceItems(head) + [Nest(DEVICE_PEERS, trees)];
      && Append([Open(0, DeviceItems(head))], Nest(DEVICE_PEERS, trees)) == [Open(0, items)]
      && IsMessage(items, head.(peers := frags))
  {
    hide ArePeerTrees;
    assert DeviceItems(head) == DeviceItems(head.(peers := frags));
  }

  /** A finished message is read back as the request it stands for. */
  lemma MessageReadBack(items: seq<Attr>, d: Device)
    requires IsMessage(items, d) && d.Wf() && |EncodeAll(items)| < 0x10000
    ensures ReadDevice(Decode(EncodeAll(items))) == d && WireFormat.DeviceOnWire(EncodeAll(items), d)
  {
    hide EncodeAll, Decode, IsMessage, ReadDevice, WireFormat.DeviceOnWire;
    MessageTypes(items, d);
    WfFromSize(items);
    RoundTrip(items);
    ReadMessage(items, d);
    WireFormat.MessageWire(items, d);
  }

  lemma DeviceItemTypes(d: Device)
    ensures forall i :: 0 <= i < |DeviceItems(d)| ==> TypesOk(DeviceItems(d)[i])
  {
  }

  lemma MessageTypes(items: seq<Attr>, d: Device)
    requires IsMessage(items, d)
    ensures forall i :: 0 <= i < |items| ==> TypesOk(items[i])
  {
    hide DeviceItems, IsPeerTree;
    DeviceItemTypes(d);
    if items != DeviceItems(d) {
      var trees :| items == DeviceItems(d) + [Nest(DEVICE_PEERS, trees)] && ArePeerTrees(trees, d.peers);
      forall k | 0 <= k < |trees|
        ensures TypesOk(trees[k])
      {
        PeerTreeTypes(trees[k], d.peers[k]);
      }
    }
  }

  lemma PeerTreeTypes(a: Attr, p: Peer)
    requires IsPeerTree(a, p)
    ensures TypesOk(a)
  {
    forall k | 0 <= k < |p.ips|
      ensures TypesOk(IpTrees(p.ips)[k])
    {
    }
  }

  /**
   Sends the device. `accepted(k)` is whether the kernel accepts message number k;
   the first refusal ends the exchange.
   */
  method KernelSetDevice(d: Device, size: nat, accepted: nat -> bool)
    returns (ok: bool, sent: seq<seq<byte>>, ghost msgs: seq<Device>, ghost at: Cursor)
    requires d.Wf() && BufferFits(d, size)
    ensures |sent| == |msgs| >= 1
    ensures forall k :: 0 <= k < |sent| ==> HEAD <= |sent[k]| <= size && ReadDevice(Decode(sent[k][HEAD..])) == msgs[k]
    ensures forall k :: 0 <= k < |sent| ==> |sent[k]| >= 20 && WireFormat.DeviceOnWire(sent[k][20..], msgs[k])
    ensures msgs[0].(peers := []) == d.(peers := [])
    ensures forall k :: 1 <= k < |msgs| ==> msgs[k].(peers := []) == Device(d.name, None, None, None, false, [])
    ensures ok ==> forall s :: ApplyAll(s, msgs) == Apply(s, d)
    ensures ok == (forall k :: 0 <= k < |sent| ==> accepted(k))
    // a refused message is the last, and those before it have done the device up to a cursor
    ensures !ok ==> !accepted(|sent| - 1) && (forall k :: 0 <= k < |sent| - 1 ==> accepted(k)) && CursorOk(d, at)
    ensures !ok && |sent| > 1 ==> forall s :: ApplyAll(s, msgs[..|msgs| - 1]) == Apply(s, d.(peers := Done(d, at)))
  {
    hide Decode, ReadDevice, Sent, ApplyAll, Apply, Done, Carry, HeadsOf, MessageHead, WireFormat.DeviceOnWire;
    var m := new MsgBuffer(size);
    var c, first := Cursor(0, None), true;
    ghost var frags: seq<Peer> := [];
    sent, msgs := [], [];
    SentStart(d, c);
    SentOk(d, c, [], c);
    NoMessages(d, size);
    while true
      invariant m.buf.Length == size && fresh(m) && fresh(m.buf)
      invariant first == (sent == []) && |sent| == |msgs| && CursorOk(d, c)
      invariant c.peer < |d.peers| || d.peers == []
      invariant Carry(sent, msgs, size) && HeadsOf(d, msgs)
      invariant forall k :: 0 <= k < |sent| ==> accepted(k)
      invariant Sent(d, Cursor(0, None), frags, c) && (first ==> frags == [])
      invariant !first ==> forall s :: ApplyAll(s, msgs) == Apply(s, d.(peers := frags))
      decreases if first then 1 else 0, |d.peers| - c.peer, IpsLeft(d, c)
    {
      ghost var before := msgs;
      if !first {
        SentUpTo(d, frags, c);
      }
      at := c;
      var c', bytes, msg := BuildMessage(m, d, first, c);
      SentJoin(d, frags, c, msg.peers, c');
      ApplyNext(d, first, msgs, frags, msg);
      OneMoreMessage(d, sent, msgs, size, bytes, msg);
      MessagesAre(d, sent + [bytes], msgs + [msg], size);
      sent, msgs, frags := sent + [bytes], msgs + [msg], frags + msg.peers;
      c := c';
      if !accepted(|sent| - 1) {
        assert msgs[..|msgs| - 1] == before;
        return false, sent, msgs, at;
      }
      if c.peer == |d.peers| {
        break;
      }
      first := false;
    }
    SentAll(d, frags, c);
    ok := true;
  }

  /** The bytes of each message decode to its request. */
  ghost predicate Carry(sent: seq<seq<byte>>, msgs: seq<Device>, size: nat) {
    && |sent| == |msgs|
    && (forall k :: 0 <= k < |sent| ==> HEAD <= |sent[k]| <= size && ReadDevice(Decode(sent[k][HEAD..])) == msgs[k])
    && forall k :: 0 <= k < |sent| ==> |sent[k]| >= 20 && WireFormat.DeviceOnWire(sent[k][20..], msgs[k])
  }

  ghost predicate HeadsOf(d: Device, msgs: seq<Device>) {
    forall k :: 0 <= k < |msgs| ==> msgs[k].(peers := []) == MessageHead(d, k == 0)
  }

  lemma NoMessages(d: Device, size: nat)
    ensures Carry([], [], size) && HeadsOf(d, [])
  {
  }

  lemma OneMoreMessage(d: Device, sent: seq<seq<byte>>, msgs: seq<Device>, size: nat, bytes: seq<byte>, msg: Device)
    requires Carry(sent, msgs, size) && HeadsOf(d, msgs)
    requires HEAD <= |bytes| <= size && ReadDevice(Decode(bytes[HEAD..])) == msg
    requires WireFormat.DeviceOnWire(bytes[20..], msg)
    requires msg.(peers := []) == MessageHead(d, msgs == [])
    ensures Carry(sent + [bytes], msgs + [msg], size) && HeadsOf(d, msgs + [msg])
  {
    hide Decode, ReadDevice, MessageHead, WireFormat.DeviceOnWire;
  }

  lemma MessagesAre(d: Device, sent: seq<seq<byte>>, msgs: seq<Device>, size: nat)
    requires Carry(sent, msgs, size) && HeadsOf(d, msgs) && msgs != []
    ensures |sent| == |msgs|
    ensures forall k :: 0 <= k < |sent| ==> HEAD <= |sent[k]| <= size && ReadDevice(Decode(sent[k][HEAD..])) == msgs[k]
    ensures forall k :: 0 <= k < |sent| ==> |sent[k]| >= 20 && WireFormat.DeviceOnWire(sent[k][20..], msgs[k])
    ensures msgs[0].(peers := []) == d.(peers := [])
    ensures forall k :: 1 <= k < |msgs| ==> msgs[k].(peers := []) == Device(d.name, None, None, None, false, [])
  {
    hide Decode, ReadDevice, WireFormat.DeviceOnWire;
  }

  lemma SentOk(d: Device, start: Cursor, frags: seq<Peer>, c: Cursor)
    requires Sent(d, start, frags, c)
    ensures CursorOk(d, c)
  {
  }

  lemma SentJoin(d: Device, frags: seq<Peer>, c: Cursor, more: seq<Peer>, c': Cursor)
    requires Sent(d, Cursor(0, None), frags, c) && Sent(d, c, more, c')
    ensures Sent(d, Cursor(0, None), frags + more, c') && CursorOk(d, c')
  {
    hide ApplyPeers, Remaining, Done;
    var start := Cursor(0, None);
    ConcatAssoc(frags, more, Remaining(d, c'));
    SameThen(Done(d, start) + frags, Done(d, c), more);
    ConcatAssoc(Done(d, start), frags, more);
    forall s: Kernel
      ensures ApplyPeers(s, frags + more + Remaining(d, c')) == ApplyPeers(s, Remaining(d, start))
    {
      ApplyPeersConcat(s, frags, more + Remaining(d, c'));
      ApplyPeersConcat(s, frags, Remaining(d, c));
      assert ApplyPeers(s, frags + Remaining(d, c)) == ApplyPeers(s, Remaining(d, start));
    }
  }

  /** One more message applies its fragments to what the earlier ones left. */
  lemma ApplyNext(d: Device, first: bool, msgs: seq<Device>, frags: seq<Peer>, msg: Device)
    requires msg.(peers := []) == MessageHead(d, first)
    requires first ==> msgs == [] && frags == []
    requires !first ==> forall s :: ApplyAll(s, msgs) == Apply(s, d.(peers := frags))
    ensures forall s :: ApplyAll(s, msgs + [msg]) == Apply(s, d.(peers := frags + msg.peers))
  {
    hide ApplyPeers;
    forall s: Kernel
      ensures ApplyAll(s, msgs + [msg]) == Apply(s, d.(peers := frags + msg.peers))
    {
      assert (msgs + [msg])[..|msgs|] == msgs;
      if first {
        assert frags + msg.peers == msg.peers;
      } else {
        var base := Apply(s, d.(peers := []));
        ApplyHead(s, d, frags);
        ApplyHead(s, d, frags + msg.peers);
        ApplyPeersConcat(base, frags, msg.peers);
      }
    }
  }

  lemma ApplyHead(s: Kernel, d: Device, ps: seq<Peer>)
    ensures Apply(s, d.(peers := ps)) == ApplyPeers(Apply(s, d.(peers := [])), ps)
  {
  }

  /** What has been sent does the device up to the cursor. */
  lemma SentUpTo(d: Device, frags: seq<Peer>, c: Cursor)
    requires Sent(d, Cursor(0, None), frags, c)
    ensures forall s :: Apply(s, d.(peers := frags)) == Apply(s, d.(peers := Done(d, c)))
  {
    hide ApplyPeers;
    assert Done(d, Cursor(0, None)) + frags == frags;
    forall s: Kernel
      ensures Apply(s, d.(peers := frags)) == Apply(s, d.(peers := Done(d, c)))
    {
      ApplyHead(s, d, frags);
      ApplyHead(s, d, Done(d, c));
    }
  }

  lemma SentAll(d: Device, frags: seq<Peer>, c: Cursor)
    requires Sent(d, Cursor(0, None), frags, c) && c.peer == |d.peers|
    ensures forall s :: Apply(s, d.(peers := frags)) == Apply(s, d)
  {
    hide ApplyPeers;
    assert frags + Remaining(d, c) == frags;
    assert Remaining(d, Cursor(0, None)) == d.peers;
    forall s: Kernel
      ensures Apply(s, d.(peers := frags)) == Apply(s, d)
    {
      ApplyHead(s, d, frags);
      ApplyHead(s, d, d.peers);
      assert d.(peers := d.peers) == d;
    }
  }
}
