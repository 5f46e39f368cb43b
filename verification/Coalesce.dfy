/**
 Reading a device back: the kernel may split a peer over several messages, and the
 reader joins adjacent entries with one public key by relinking, in place, the list
 of peers and the lists of allowed IPs.
 */
module Coalesce {
  import opened WgDevice

  class IpNode {
    const ip: AllowedIp
    var next: IpNode?

    constructor (ip: AllowedIp)
      ensures this.ip == ip && next == null
    {
      this.ip, next := ip, null;
    }
  }

  /** `info` stands for the scalar fields, which are not touched here. */
  class PeerNode {
    const info: Peer
    var firstIp: IpNode?
    var lastIp: IpNode?
    var next: PeerNode?

    constructor (info: Peer)
      ensures this.info == info && firstIp == null && lastIp == null && next == null
    {
      this.info, firstIp, lastIp, next := info, null, null, null;
    }
  }

  /** The nodes of `l` in order, linked from `first`, ending at `last`. */
  ghost predicate IpChain(l: seq<IpNode>, first: IpNode?, last: IpNode?)
    reads l
  {
    if l == [] then first == null && last == null
    else
      && first == l[0] && last == l[|l| - 1] && l[|l| - 1].next == null
      && forall i :: 0 <= i < |l| - 1 ==> l[i].next == l[i + 1]
  }

  /** The same, or the list in order with its tail lost: the last pointer is null although the list is not empty. */
  ghost predicate ChainBut(l: seq<IpNode>, first: IpNode?, last: IpNode?, lost: bool)
    reads l
  {
    if lost then l != [] && last == null && IpChain(l, first, l[|l| - 1]) else IpChain(l, first, last)
  }

  ghost predicate PeerChain(nodes: seq<PeerNode>, first: PeerNode?)
    reads nodes
  {
    && (nodes == [] ==> first == null)
    && (nodes != [] ==> first == nodes[0] && nodes[|nodes| - 1].next == null)
    && (forall i :: 0 <= i < |nodes| - 1 ==> nodes[i].next == nodes[i + 1])
    && forall i, j :: 0 <= i < j < |nodes| ==> nodes[i] != nodes[j]
  }

  ghost predicate Distinct(l: seq<IpNode>) {
    forall i, j :: 0 <= i < j < |l| ==> l[i] != l[j]
  }

  ghost predicate Apart(a: seq<IpNode>, b: seq<IpNode>) {
    forall i, j :: 0 <= i < |a| && 0 <= j < |b| ==> a[i] != b[j]
  }

  ghost function AllIps(lists: seq<seq<IpNode>>): set<IpNode> {
    set i, k | 0 <= i < |lists| && 0 <= k < |lists[i]| :: lists[i][k]
  }

  /** Every list is chained, some of them without their tail. */
  ghost predicate Chained(nodes: seq<PeerNode>, lists: seq<seq<IpNode>>, lost: seq<bool>)
    requires |nodes| == |lists| == |lost|
    reads nodes, AllIps(lists)
  {
    forall i :: 0 <= i < |nodes| ==> ChainBut(lists[i], nodes[i].firstIp, nodes[i].lastIp, lost[i])
  }

  /** A list of peers with its lists of allowed IPs, none of which share a node; some may have lost their tail. */
  ghost predicate LinkedBut(nodes: seq<PeerNode>, lists: seq<seq<IpNode>>, lost: seq<bool>, first: PeerNode?)
    reads nodes, AllIps(lists)
  {
    && |nodes| == |lists| == |lost| && PeerChain(nodes, first)
    && Chained(nodes, lists, lost)
    && (forall i :: 0 <= i < |lists| ==> Distinct(lists[i]))
    && forall i, j :: 0 <= i < j < |lists| ==> Apart(lists[i], lists[j])
  }

  /** Every last pointer is the true tail. */
  ghost predicate Linked(nodes: seq<PeerNode>, lists: seq<seq<IpNode>>, first: PeerNode?)
    reads nodes, AllIps(lists)
  {
    LinkedBut(nodes, lists, seq(|nodes|, _ => false), first)
  }

  ghost function Ips(l: seq<IpNode>): seq<AllowedIp> {
    seq(|l|, i requires 0 <= i < |l| => l[i].ip)
  }

  /** The peers as values. */
  ghost function Values(nodes: seq<PeerNode>, lists: seq<seq<IpNode>>): seq<Peer>
    requires |nodes| == |lists|
  {
    seq(|nodes|, i requires 0 <= i < |nodes| => nodes[i].info.(ips := Ips(lists[i])))
  }

  /** The next entry with the same key gives its allowed IPs to the first and disappears. */
  function Join(p: Peer, q: Peer): Peer {
    p.(ips := p.ips + q.ips)
  }

  function Coalesced(ps: seq<Peer>): seq<Peer>
    decreases |ps|
  {
    if |ps| < 2 then ps
    else if ps[0].publicKey == ps[1].publicKey then Coalesced([Join(ps[0], ps[1])] + ps[2..])
    else [ps[0]] + Coalesced(ps[1..])
  }

  /** After an entry with allowed IPs, a continuation of the same peer is not empty. */
  ghost predicate ContinuationsNonEmpty(ps: seq<Peer>) {
    forall i :: 0 <= i < |ps| - 1 ==> !LosesTail(ps, i)
  }

  /** An empty continuation right after an entry with allowed IPs. */
  ghost predicate LosesTail(ps: seq<Peer>, i: int)
    requires 0 <= i < |ps| - 1
  {
    ps[i].publicKey == ps[i + 1].publicKey && ps[i].ips != [] && ps[i + 1].ips == []
  }

  /** Such a continuation, and yet another of the same peer after it: the null pointer is followed. */
  ghost predicate FollowsNull(ps: seq<Peer>) {
    exists i :: 0 <= i < |ps| - 2 && LosesTail(ps, i) && ps[i + 1].publicKey == ps[i + 2].publicKey
  }

  ghost function WithoutNext<T>(s: seq<T>, k: nat): (r: seq<T>)
    requires k + 1 < |s|
    ensures |r| == |s| - 1
  {
    s[..k + 1] + s[k + 2..]
  }

  ghost function JoinedLists(lists: seq<seq<IpNode>>, k: nat): (r: seq<seq<IpNode>>)
    requires k + 1 < |lists|
    ensures |r| == |lists| - 1
  {
    WithoutNext(lists[k := lists[k] + lists[k + 1]], k)
  }

  /** Appends the list of q to the list of p; false when that follows a null pointer. */
  method JoinIps(p: PeerNode, q: PeerNode, ghost a: seq<IpNode>, ghost b: seq<IpNode>, ghost lost: bool)
    returns (ok: bool)
    requires p != q && ChainBut(a, p.firstIp, p.lastIp, lost) && IpChain(b, q.firstIp, q.lastIp)
    requires Distinct(a) && Apart(a, b)
    modifies p`firstIp, p`lastIp, (set n | n in a)`next
    ensures ok <==> !lost
    ensures ok ==> ChainBut(a + b, p.firstIp, p.lastIp, a != [] && b == [])
    ensures ok ==> (IpChain(a + b, p.firstIp, p.lastIp) <==> a == [] || b != [])
    ensures !ok ==> p.firstIp == old(p.firstIp) && p.lastIp == old(p.lastIp)
    ensures !ok ==> forall n :: n in a ==> n.next == old(n.next)
  {
    hide IpChain, Apart, Distinct;
    ChainParts(a, p.firstIp, if lost then a[|a| - 1] else p.lastIp);
    ChainParts(b, q.firstIp, q.lastIp);
    if p.firstIp == null {
      p.firstIp := q.firstIp;
      p.lastIp := q.lastIp;
      assert a + b == b;
      return true;
    }
    if p.lastIp == null {
      return false;
    }
    LastApart(a, b);
    p.lastIp.next := q.firstIp;
    p.lastIp := q.lastIp;
    Appended(a, b, p.firstIp);
    if b == [] {
      NoNullEnd(a + b, p.firstIp);
    } else {
      assert (a + b)[|a + b| - 1] == b[|b| - 1];
    }
    return true;
  }

  lemma ChainParts(l: seq<IpNode>, first: IpNode?, last: IpNode?)
    requires IpChain(l, first, last)
    ensures l == [] <==> first == null
    ensures l == [] ==> last == null
    ensures l != [] ==> first == l[0] && last == l[|l| - 1]
    ensures forall i :: 0 <= i < |l| - 1 ==> l[i].next == l[i + 1]
  {
  }

  lemma NoNullEnd(l: seq<IpNode>, first: IpNode?)
    requires l != []
    ensures !IpChain(l, first, null)
  {
  }

  /** The last node of a list is no other node of it, nor one of a list apart from it. */
  lemma LastApart(a: seq<IpNode>, b: seq<IpNode>)
    requires a != [] && Distinct(a) && Apart(a, b)
    ensures a[|a| - 1] !in b && forall i :: 0 <= i < |a| - 1 ==> a[i] != a[|a| - 1]
  {
  }

  /** Two chains, the end of the first linked to the beginning of the second. */
  lemma Appended(a: seq<IpNode>, b: seq<IpNode>, first: IpNode?)
    requires a != [] && first == a[0] && forall i :: 0 <= i < |a| - 1 ==> a[i].next == a[i + 1]
    requires if b == [] then a[|a| - 1].next == null else IpChain(b, a[|a| - 1].next, b[|b| - 1])
    ensures IpChain(a + b, first, (a + b)[|a + b| - 1])
  {
  }

  /** Takes the node after position k out of the list of peers. */
  method Unlink(peer: PeerNode, ghost k: nat, ghost nodes: seq<PeerNode>, ghost lists: seq<seq<IpNode>>,
                ghost lost: seq<bool>, ghost first: PeerNode?)
    requires PeerChain(nodes, first) && k + 1 < |nodes| && peer == nodes[k]
    requires |lists| == |lost| == |nodes| - 1 && Chained(WithoutNext(nodes, k), lists, lost)
    modifies peer`next
    ensures PeerChain(WithoutNext(nodes, k), first) && Chained(WithoutNext(nodes, k), lists, lost)
  {
    hide IpChain, AllIps;
    assert peer.next == nodes[k + 1];
    var oldNext := peer.next;
    peer.next := oldNext.next;
  }

  /** The lost tails after the entry behind position k was joined to the one at k. */
  ghost function JoinedLost(lists: seq<seq<IpNode>>, lost: seq<bool>, k: nat): (r: seq<bool>)
    requires k + 1 < |lists| == |lost|
    ensures |r| == |lost| - 1
  {
    WithoutNext(lost[k := lists[k] != [] && lists[k + 1] == []], k)
  }

  /** Hands the allowed IPs of the next peer to this one; the other lists do not notice. */
  method MoveIps(peer: PeerNode, ghost k: nat, ghost nodes: seq<PeerNode>, ghost lists: seq<seq<IpNode>>,
                 ghost lost: seq<bool>, ghost first: PeerNode?) returns (ok: bool)
    requires LinkedBut(nodes, lists, lost, first) && k + 1 < |nodes| && peer == nodes[k] && !lost[k + 1]
    modifies peer`firstIp, peer`lastIp, AllIps(lists)`next
    ensures ok <==> !lost[k]
    ensures PeerChain(nodes, first)
    ensures ok ==> Chained(WithoutNext(nodes, k), JoinedLists(lists, k), JoinedLost(lists, lost, k))
  {
    hide IpChain, Distinct, WithoutNext, JoinedLists, JoinedLost;
    ghost var nodes', lists', lost' := WithoutNext(nodes, k), JoinedLists(lists, k), JoinedLost(lists, lost, k);
    JoinedAt(nodes, lists, lost, k, k);
    assert peer.next == nodes[k + 1];
    assert Apart(lists[k], lists[k + 1]);
    assert forall n :: n in lists[k] ==> n in AllIps(lists);
    ok := JoinIps(peer, peer.next, lists[k], lists[k + 1], lost[k]);
    if !ok {
      return;
    }
    forall i | 0 <= i < |nodes'| && i != k
      ensures ChainBut(lists'[i], nodes'[i].firstIp, nodes'[i].lastIp, lost'[i])
    {
      JoinedAt(nodes, lists, lost, k, i);
      if i < k {
        assert Apart(lists[i], lists[k]);
      } else {
        assert Apart(lists[k], lists[i + 1]);
      }
    }
  }

  /** What is at position i after the join at position k. */
  lemma JoinedAt(nodes: seq<PeerNode>, lists: seq<seq<IpNode>>, lost: seq<bool>, k: nat, i: nat)
    requires |nodes| == |lists| == |lost| && k + 1 < |nodes| && i < |nodes| - 1
    ensures var j := if i <= k then i else i + 1;
      WithoutNext(nodes, k)[i] == nodes[j]
      && JoinedLists(lists, k)[i] == (if i == k then lists[k] + lists[k + 1] else lists[j])
      && JoinedLost(lists, lost, k)[i] == if i == k then lists[k] != [] && lists[k + 1] == [] else lost[j]
  {
  }

  /** Hands the allowed IPs of the next peer to this one and unlinks the next peer. */
  method JoinNext(peer: PeerNode, ghost k: nat, ghost nodes: seq<PeerNode>, ghost lists: seq<seq<IpNode>>,
                  ghost lost: seq<bool>, ghost first: PeerNode?) returns (ok: bool)
    requires LinkedBut(nodes, lists, lost, first) && k + 1 < |nodes| && peer == nodes[k] && !lost[k + 1]
    modifies peer, AllIps(lists)
    ensures ok <==> !lost[k]
    ensures ok ==> LinkedBut(WithoutNext(nodes, k), JoinedLists(lists, k), JoinedLost(lists, lost, k), first)
  {
    hide IpChain, Distinct, ChainBut, Apart, PeerChain, Chained;
    JoinedApart(lists, k);
    ok := MoveIps(peer, k, nodes, lists, lost, first);
    if ok {
      Unlink(peer, k, nodes, JoinedLists(lists, k), JoinedLost(lists, lost, k), first);
    }
  }

  lemma JoinedApart(lists: seq<seq<IpNode>>, k: nat)
    requires k + 1 < |lists|
    requires forall i :: 0 <= i < |lists| ==> Distinct(lists[i])
    requires forall i, j :: 0 <= i < j < |lists| ==> Apart(lists[i], lists[j])
    ensures var m := JoinedLists(lists, k);
      && (forall i :: 0 <= i < |m| ==> Distinct(m[i]))
      && (forall i, j :: 0 <= i < j < |m| ==> Apart(m[i], m[j]))
      && AllIps(m) <= AllIps(lists)
  {
  }

  lemma JoinedValues(nodes: seq<PeerNode>, lists: seq<seq<IpNode>>, k: nat)
    requires |nodes| == |lists| && k + 1 < |nodes|
    ensures var v := Values(nodes, lists);
      Values(WithoutNext(nodes, k), JoinedLists(lists, k)) == v[..k] + ([Join(v[k], v[k + 1])] + v[k + 2..])
  {
    assert Ips(lists[k] + lists[k + 1]) == Ips(lists[k]) + Ips(lists[k + 1]);
  }

  /** One turn of the loop at position k: join with the next entry, or move past it. */
  lemma CoalesceStep(v: seq<Peer>, k: nat)
    requires k + 1 < |v|
    ensures v[k].publicKey != v[k + 1].publicKey ==>
      v[..k + 1] + Coalesced(v[k + 1..]) == v[..k] + Coalesced(v[k..])
    ensures v[k].publicKey == v[k + 1].publicKey ==>
      Coalesced([Join(v[k], v[k + 1])] + v[k + 2..]) == Coalesced(v[k..])
  {
    assert v[k..][1..] == v[k + 1..] && v[k..][2..] == v[k + 2..];
    if v[k].publicKey != v[k + 1].publicKey {
      assert v[..k + 1] + Coalesced(v[k + 1..]) == v[..k] + ([v[k]] + Coalesced(v[k + 1..]));
    }
  }

  /** What the scan from position k will do, given whether the entry there has lost its tail. */
  ghost predicate WillFollowNull(ps: seq<Peer>, lost: bool) {
    FollowsNull(ps) || (lost && |ps| >= 2 && ps[0].publicKey == ps[1].publicKey)
  }

  /** Moving past an entry whose key differs from the next. */
  lemma MovePast(ps: seq<Peer>)
    requires |ps| >= 2 && ps[0].publicKey != ps[1].publicKey
    ensures FollowsNull(ps) <==> FollowsNull(ps[1..])
    ensures ContinuationsNonEmpty(ps) <==> ContinuationsNonEmpty(ps[1..])
  {
    var rest := ps[1..];
    assert forall i :: 0 <= i < |rest| - 1 ==> (LosesTail(rest, i) <==> LosesTail(ps, i + 1));
    if FollowsNull(ps) {
      var i :| 0 <= i < |ps| - 2 && LosesTail(ps, i) && ps[i + 1].publicKey == ps[i + 2].publicKey;
      assert LosesTail(rest, i - 1);
    }
    if FollowsNull(rest) {
      var i :| 0 <= i < |rest| - 2 && LosesTail(rest, i) && rest[i + 1].publicKey == rest[i + 2].publicKey;
      assert LosesTail(ps, i + 1);
    }
    forall i | 0 <= i < |ps| - 1 && ContinuationsNonEmpty(rest)
      ensures !LosesTail(ps, i)
    {
      assert i > 0 ==> !LosesTail(rest, i - 1);
    }
  }

  /** Joining the first two entries moves the later positions one down. */
  lemma JoinShift(ps: seq<Peer>)
    requires |ps| >= 2 && ps[0].publicKey == ps[1].publicKey
    ensures var joined := [Join(ps[0], ps[1])] + ps[2..];
      && (forall i :: 1 <= i < |joined| - 1 ==> (LosesTail(joined, i) <==> LosesTail(ps, i + 1)))
      && (|joined| >= 2 && !LosesTail(ps, 0) ==> (LosesTail(joined, 0) <==> LosesTail(ps, 1)))
      && (forall i :: 1 <= i < |joined| ==> joined[i] == ps[i + 1]) && joined[0].publicKey == ps[0].publicKey
  {
  }

  /** Joining the first two entries: the tail is lost now, or what is to come is the same. */
  lemma JoinFirst(ps: seq<Peer>)
    requires |ps| >= 2 && ps[0].publicKey == ps[1].publicKey
    ensures FollowsNull(ps) <==> WillFollowNull([Join(ps[0], ps[1])] + ps[2..], LosesTail(ps, 0))
  {
    hide LosesTail;
    var joined := [Join(ps[0], ps[1])] + ps[2..];
    JoinShift(ps);
    if FollowsNull(ps) {
      var i :| 0 <= i < |ps| - 2 && LosesTail(ps, i) && ps[i + 1].publicKey == ps[i + 2].publicKey;
      if i > 0 {
        SameKeys(ps, i);
        assert i > 1 || !LosesTail(ps, 0) ==> LosesTail(joined, i - 1);
      }
    }
    if FollowsNull(joined) {
      var i :| 0 <= i < |joined| - 2 && LosesTail(joined, i) && joined[i + 1].publicKey == joined[i + 2].publicKey;
      SameKeys(joined, i);
      assert i > 0 ==> LosesTail(ps, i + 1);
      assert i == 0 ==> LosesTail(ps, 0) || LosesTail(ps, 1);
    } else if WillFollowNull(joined, LosesTail(ps, 0)) {
      assert LosesTail(ps, 0);
    }
  }

  lemma SameKeys(ps: seq<Peer>, i: nat)
    requires i < |ps| - 1 && LosesTail(ps, i)
    ensures ps[i].publicKey == ps[i + 1].publicKey
  {
  }

  lemma JoinFirstNonEmpty(ps: seq<Peer>)
    requires |ps| >= 2 && ps[0].publicKey == ps[1].publicKey
    ensures ContinuationsNonEmpty(ps) <==> !LosesTail(ps, 0) && ContinuationsNonEmpty([Join(ps[0], ps[1])] + ps[2..])
  {
    hide LosesTail;
    var joined := [Join(ps[0], ps[1])] + ps[2..];
    JoinShift(ps);
    if !LosesTail(ps, 0) && ContinuationsNonEmpty(joined) {
      forall i | 0 <= i < |ps| - 1
        ensures !LosesTail(ps, i)
      {
        assert i > 0 ==> !LosesTail(joined, i - 1);
      }
    }
    if ContinuationsNonEmpty(ps) {
      assert !LosesTail(ps, 0);
      forall i | 0 <= i < |joined| - 1
        ensures !LosesTail(joined, i)
      {
        assert !LosesTail(ps, i + 1);
      }
    }
  }

  ghost predicate NoneLost(lost: seq<bool>, n: nat) {
    n <= |lost| && forall i :: 0 <= i < n ==> !lost[i]
  }

  /** The state of the scan at position k, against the values it began with. */
  ghost predicate Scanning(v: seq<Peer>, w: seq<Peer>, lost: seq<bool>, k: nat) {
    && k <= |w| == |lost| && (forall i :: k < i < |lost| ==> !lost[i])
    && w[..k] + Coalesced(w[k..]) == Coalesced(v)
    && (FollowsNull(v) <==> WillFollowNull(w[k..], k < |w| && lost[k]))
    && (ContinuationsNonEmpty(v) <==> NoneLost(lost, if k < |w| then k + 1 else k) && ContinuationsNonEmpty(w[k..]))
  }

  lemma ScanStart(v: seq<Peer>)
    ensures Scanning(v, v, seq(|v|, _ => false), 0)
  {
    hide Coalesced, FollowsNull, ContinuationsNonEmpty;
    assert v[0..] == v && v[..0] + Coalesced(v[0..]) == Coalesced(v);
  }

  lemma ScanPast(v: seq<Peer>, w: seq<Peer>, lost: seq<bool>, k: nat)
    requires Scanning(v, w, lost, k) && k + 1 < |w| && w[k].publicKey != w[k + 1].publicKey
    ensures Scanning(v, w, lost, k + 1)
  {
    hide Coalesced, FollowsNull, ContinuationsNonEmpty;
    CoalesceStep(w, k);
    MovePast(w[k..]);
    assert w[k..][1..] == w[k + 1..];
  }

  lemma ScanJoin(v: seq<Peer>, w: seq<Peer>, lost: seq<bool>, k: nat)
    requires Scanning(v, w, lost, k) && k + 1 < |w| && w[k].publicKey == w[k + 1].publicKey && !lost[k]
    ensures Scanning(v, w[..k] + ([Join(w[k], w[k + 1])] + w[k + 2..]), WithoutNext(lost[k := LosesTail(w, k)], k), k)
  {
    hide Coalesced, FollowsNull, ContinuationsNonEmpty;
    var w', lost' := w[..k] + ([Join(w[k], w[k + 1])] + w[k + 2..]), WithoutNext(lost[k := LosesTail(w, k)], k);
    CoalesceStep(w, k);
    JoinFirst(w[k..]);
    JoinFirstNonEmpty(w[k..]);
    assert w[k..][2..] == w[k + 2..] && LosesTail(w[k..], 0) == LosesTail(w, k);
    assert w'[..k] == w[..k] && w'[k..] == [Join(w[k], w[k + 1])] + w[k + 2..];
    NoneLostJoined(lost, k, LosesTail(w, k));
  }

  lemma NoneLostJoined(lost: seq<bool>, k: nat, now: bool)
    requires k + 1 < |lost|
    ensures NoneLost(WithoutNext(lost[k := now], k), k + 1) <==> NoneLost(lost, k) && !now
  {
    var lost' := WithoutNext(lost[k := now], k);
    assert lost'[k] == now && forall i :: 0 <= i < k ==> lost'[i] == lost[i];
  }

  lemma ScanEnd(v: seq<Peer>, w: seq<Peer>, lost: seq<bool>, k: nat)
    requires Scanning(v, w, lost, k) && |w| <= k + 1
    ensures w == Coalesced(v) && !FollowsNull(v) && (ContinuationsNonEmpty(v) <==> NoneLost(lost, |w|))
  {
    hide Coalesced;
    ShortCoalesced(w[k..]);
    assert w[..k] + w[k..] == w;
  }

  /**
   Joins the fragments of every peer. It follows a null pointer exactly when an empty
   continuation comes between others of its peer; otherwise the values are joined, and
   every last pointer is the true tail exactly when no continuation is empty.
   */
  method CoalescePeers(first: PeerNode?, ghost nodes0: seq<PeerNode>, ghost lists0: seq<seq<IpNode>>)
    returns (ok: bool, ghost nodes: seq<PeerNode>, ghost lists: seq<seq<IpNode>>, ghost lost: seq<bool>)
    requires Linked(nodes0, lists0, first)
    modifies nodes0, AllIps(lists0)
    ensures ok <==> !FollowsNull(Values(nodes0, lists0))
    ensures ok ==> LinkedBut(nodes, lists, lost, first) && Values(nodes, lists) == Coalesced(Values(nodes0, lists0))
    ensures ok ==> (Linked(nodes, lists, first) <==> ContinuationsNonEmpty(Values(nodes0, lists0)))
  {
    hide IpChain, Distinct, Apart, Values, JoinedLists, WithoutNext, Scanning, JoinedLost, ChainBut, FollowsNull;
    ghost var v := Values(nodes0, lists0);
    nodes, lists, lost := nodes0, lists0, seq(|nodes0|, _ => false);
    ghost var k := 0;
    var peer := first;
    ValuesShape(nodes, lists);
    ScanStart(v);
    while peer != null && peer.next != null
      invariant LinkedBut(nodes, lists, lost, first)
      invariant (forall n :: n in nodes ==> n in nodes0) && AllIps(lists) <= AllIps(lists0)
      invariant k <= |nodes| && peer == (if k < |nodes| then nodes[k] else null)
      invariant Scanning(v, Values(nodes, lists), lost, k)
      decreases |nodes| - k
    {
      ghost var w := Values(nodes, lists);
      ChainNext(nodes, first, k);
      ValuesShape(nodes, lists);
      if peer.info.publicKey != peer.next.info.publicKey {
        ScanPast(v, w, lost, k);
        peer := peer.next;
        k := k + 1;
      } else {
        JoinedValues(nodes, lists, k);
        JoinedApartOf(nodes, lists, lost, first, k);
        LostNext(v, w, lost, k);
        assert nodes[k] in nodes;
        ok := JoinNext(peer, k, nodes, lists, lost, first);
        if !ok {
          return;
        }
        ScanJoin(v, w, lost, k);
        LostIs(nodes, lists, lost, k);
        nodes, lists, lost := WithoutNext(nodes, k), JoinedLists(lists, k), JoinedLost(lists, lost, k);
      }
    }
    ok := true;
    ValuesShape(nodes, lists);
    if k < |nodes| {
      ChainEnd(nodes, first, k);
    }
    ScanEnd(v, Values(nodes, lists), lost, k);
    LinkedExactly(nodes, lists, lost, first);
  }

  lemma LostIs(nodes: seq<PeerNode>, lists: seq<seq<IpNode>>, lost: seq<bool>, k: nat)
    requires |nodes| == |lists| == |lost| && k + 1 < |nodes| && nodes[k].info.publicKey == nodes[k + 1].info.publicKey
    ensures |Values(nodes, lists)| == |nodes|
    ensures JoinedLost(lists, lost, k) == WithoutNext(lost[k := LosesTail(Values(nodes, lists), k)], k)
  {
    ValuesShape(nodes, lists);
  }

  /** A continuation of an entry that has lost its tail: the null pointer will be followed. */
  lemma LostNext(v: seq<Peer>, w: seq<Peer>, lost: seq<bool>, k: nat)
    requires Scanning(v, w, lost, k) && k + 1 < |w| && w[k].publicKey == w[k + 1].publicKey
    ensures !lost[k + 1] && (lost[k] ==> FollowsNull(v))
  {
    hide Coalesced, FollowsNull, ContinuationsNonEmpty;
    assert w[k..][0] == w[k] && w[k..][1] == w[k + 1];
  }

  lemma LinkedExactly(nodes: seq<PeerNode>, lists: seq<seq<IpNode>>, lost: seq<bool>, first: PeerNode?)
    requires LinkedBut(nodes, lists, lost, first)
    ensures Linked(nodes, lists, first) <==> NoneLost(lost, |lost|)
  {
    hide Distinct, Apart;
    if NoneLost(lost, |lost|) {
      assert lost == seq(|nodes|, _ => false);
    } else {
      var i :| 0 <= i < |lost| && lost[i];
      assert ChainBut(lists[i], nodes[i].firstIp, nodes[i].lastIp, true);
    }
  }

  lemma ShortCoalesced(v: seq<Peer>)
    requires |v| < 2
    ensures Coalesced(v) == v
  {
  }

  lemma ValuesShape(nodes: seq<PeerNode>, lists: seq<seq<IpNode>>)
    requires |nodes| == |lists|
    ensures |Values(nodes, lists)| == |nodes|
    ensures forall i :: 0 <= i < |nodes| ==> Values(nodes, lists)[i].publicKey == nodes[i].info.publicKey
    ensures forall i :: 0 <= i < |nodes| ==> |Values(nodes, lists)[i].ips| == |lists[i]|
  {
  }

  lemma ChainNext(nodes: seq<PeerNode>, first: PeerNode?, k: nat)
    requires PeerChain(nodes, first) && k < |nodes| && nodes[k].next != null
    ensures k + 1 < |nodes| && nodes[k].next == nodes[k + 1]
  {
  }

  lemma ChainEnd(nodes: seq<PeerNode>, first: PeerNode?, k: nat)
    requires PeerChain(nodes, first) && k < |nodes| && nodes[k].next == null
    ensures k + 1 == |nodes|
  {
    if k + 1 < |nodes| {
      ChainLink(nodes, first, k);
      assert false;
    }
  }

  lemma ChainLink(nodes: seq<PeerNode>, first: PeerNode?, k: nat)
    requires PeerChain(nodes, first) && k + 1 < |nodes|
    ensures nodes[k].next == nodes[k + 1]
  {
  }

  lemma JoinedApartOf(nodes: seq<PeerNode>, lists: seq<seq<IpNode>>, lost: seq<bool>, first: PeerNode?, k: nat)
    requires LinkedBut(nodes, lists, lost, first) && k + 1 < |nodes|
    ensures AllIps(JoinedLists(lists, k)) <= AllIps(lists)
    ensures |WithoutNext(nodes, k)| == |JoinedLists(lists, k)| == |nodes| - 1
    ensures forall n :: n in WithoutNext(nodes, k) ==> n in nodes
    ensures WithoutNext(nodes, k)[k] == nodes[k]
  {
    JoinedApart(lists, k);
  }

  // ---------------------------------------------------------------- what joining achieves

  ghost predicate NoAdjacentKeys(ps: seq<Peer>) {
    forall i :: 0 <= i < |ps| - 1 ==> ps[i].publicKey != ps[i + 1].publicKey
  }

  /** No two neighbours of the result have one key, and the first entry keeps its scalars. */
  lemma {:induction false} CoalescedApart(ps: seq<Peer>)
    ensures NoAdjacentKeys(Coalesced(ps))
    ensures ps != [] ==> Coalesced(ps) != [] && Coalesced(ps)[0].(ips := []) == ps[0].(ips := [])
    decreases |ps|
  {
    if |ps| >= 2 {
      if ps[0].publicKey == ps[1].publicKey {
        CoalescedApart([Join(ps[0], ps[1])] + ps[2..]);
      } else {
        CoalescedApart(ps[1..]);
      }
    }
  }

  /** One peer as the kernel may split it: the scalars once, then continuations with only the key. */
  ghost predicate IsSplitOf(frags: seq<Peer>, p: Peer) {
    && frags != [] && frags[0].(ips := []) == p.(ips := [])
    && (forall i :: 0 <= i < |frags| ==> frags[i].publicKey == p.publicKey)
    && AllOf(frags) == p.ips
  }

  ghost function AllOf(frags: seq<Peer>): seq<AllowedIp> {
    if frags == [] then [] else frags[0].ips + AllOf(frags[1..])
  }

  ghost function Flatten(splits: seq<seq<Peer>>): seq<Peer> {
    if splits == [] then [] else splits[0] + Flatten(splits[1..])
  }

  /** Joining undoes any splitting of peers with different neighbouring keys. */
  lemma {:induction false} CoalesceRecovers(splits: seq<seq<Peer>>, ps: seq<Peer>)
    requires |splits| == |ps| && NoAdjacentKeys(ps)
    requires forall i :: 0 <= i < |ps| ==> IsSplitOf(splits[i], ps[i])
    ensures Coalesced(Flatten(splits)) == ps
    decreases |ps|
  {
    if ps != [] {
      var rest := Flatten(splits[1..]);
      assert forall i :: 0 <= i < |ps[1..]| ==> IsSplitOf(splits[1..][i], ps[1..][i]);
      CoalesceRecovers(splits[1..], ps[1..]);
      if |ps| > 1 {
        assert splits[1..][0] == splits[1];
        assert rest[0] == splits[1][0];
      }
      JoinAll(splits[0], ps[0], rest);
      assert [ps[0]] + ps[1..] == ps;
    }
  }

  lemma {:induction false} JoinAll(frags: seq<Peer>, p: Peer, rest: seq<Peer>)
    requires IsSplitOf(frags, p) && (rest != [] ==> rest[0].publicKey != p.publicKey)
    ensures Coalesced(frags + rest) == [p] + Coalesced(rest)
    decreases |frags|
  {
    var all := frags + rest;
    if |frags| == 1 {
      assert frags[0].ips + AllOf(frags[1..]) == frags[0].ips;
      assert frags[0] == frags[0].(ips := []).(ips := p.ips) == p.(ips := []).(ips := p.ips);
      assert frags == [p];
      if rest != [] {
        assert all[1..] == rest;
      }
    } else {
      var j := Join(frags[0], frags[1]);
      var fewer := [j] + frags[2..];
      assert all[2..] == frags[2..] + rest;
      assert [j] + all[2..] == fewer + rest;
      assert fewer[1..] == frags[2..] && frags[1..][1..] == frags[2..];
      assert AllOf(frags[1..]) == frags[1].ips + AllOf(frags[2..]);
      assert AllOf(fewer) == (frags[0].ips + frags[1].ips) + AllOf(frags[2..]);
      assert j.(ips := []) == frags[0].(ips := []);
      JoinAll(fewer, p, rest);
    }
  }

  // ---------------------------------------------------------------- the tail pointer

  lemma ThreeLinked(p: PeerNode, q: PeerNode, r: PeerNode, a: IpNode, c: IpNode)
    requires p != q && q != r && p != r && a != c
    requires p.next == q && q.next == r && r.next == null && a.next == null && c.next == null
    requires p.firstIp == a == p.lastIp && q.firstIp == null == q.lastIp && r.firstIp == c == r.lastIp
    ensures Linked([p, q, r], [[a], [], [c]], p)
  {
    hide Distinct, Apart, AllIps;
    var lists := [[a], [], [c]];
    assert IpChain(lists[0], p.firstIp, p.lastIp);
    assert IpChain(lists[1], q.firstIp, q.lastIp);
    assert IpChain(lists[2], r.firstIp, r.lastIp);
    ThreeApart(a, c);
    assert PeerChain([p, q, r], p);
  }

  lemma ThreeApart(a: IpNode, c: IpNode)
    requires a != c
    ensures var lists: seq<seq<IpNode>> := [[a], [], [c]];
      (forall i :: 0 <= i < 3 ==> Distinct(lists[i])) && forall i, j :: 0 <= i < j < 3 ==> Apart(lists[i], lists[j])
  {
  }

  /** Three entries of one peer, the middle one without allowed IPs: the last one is never joined. */
  method BrokenChain(info: Peer, ip: AllowedIp) returns (ok: bool)
    ensures !ok
  {
    hide Values, LinkedBut, IpChain, PeerChain;
    var a := new IpNode(ip);
    var c := new IpNode(ip);
    var p := new PeerNode(info);
    var q := new PeerNode(info);
    var r := new PeerNode(info);
    p.firstIp, p.lastIp, p.next := a, a, q;
    q.next := r;
    r.firstIp, r.lastIp := c, c;
    ghost var nodes, lists := [p, q, r], [[a], [], [c]];
    ThreeLinked(p, q, r, a, c);
    ValuesShape(nodes, lists);
    assert LosesTail(Values(nodes, lists), 0);
    ghost var nodes', lists', lost;
    ok, nodes', lists', lost := CoalescePeers(p, nodes, lists);
  }
}
