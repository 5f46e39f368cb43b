/**
 Synchronising a running device with a configuration file: instead of replacing all
 peers, the peers that are gone are marked for removal and the rest is updated. Peers
 of the file and of the running device are sorted together by key and scanned once.
 */
module SyncConf {
  import opened Bits
  import opened Options
  import opened WgDevice

  /** What the kernel reports of a peer; a key of zeros stands for no preshared key. */
  datatype RuntimePeer = RuntimePeer(publicKey: Key, presharedKey: Key, keepalive: nat)

  /** The order of memcmp. */
  function Compare(a: seq<byte>, b: seq<byte>): int
    requires |a| == |b|
  {
    if a == [] then 0
    else if a[0] != b[0] then (a[0] as int) - (b[0] as int)
    else Compare(a[1..], b[1..])
  }

  lemma {:induction false} CompareZero(a: seq<byte>, b: seq<byte>)
    requires |a| == |b|
    ensures Compare(a, b) == 0 <==> a == b
  {
    if a != [] {
      CompareZero(a[1..], b[1..]);
      assert a == [a[0]] + a[1..] && b == [b[0]] + b[1..];
    }
  }

  /** The first byte that differs decides, as a number. */
  lemma {:induction false} CompareExactly(a: seq<byte>, b: seq<byte>, n: nat)
    requires |a| == |b| && n < |a| && a[..n] == b[..n] && a[n] < b[n]
    ensures Compare(a, b) < 0 < Compare(b, a)
    decreases n
  {
    if n > 0 {
      assert a[0] == a[..n][0] && b[0] == b[..n][0];
      assert a[1..][..n - 1] == a[..n][1..] && b[1..][..n - 1] == b[..n][1..];
      CompareExactly(a[1..], b[1..], n - 1);
    }
  }

  lemma {:induction false} CompareTransitive(a: seq<byte>, b: seq<byte>, c: seq<byte>)
    requires |a| == |b| == |c| && Compare(a, b) <= 0 && Compare(b, c) <= 0
    ensures Compare(a, c) <= 0
    ensures Compare(a, c) == 0 ==> Compare(a, b) == 0 && Compare(b, c) == 0
  {
    if a != [] && a[0] == b[0] && b[0] == c[0] {
      CompareTransitive(a[1..], b[1..], c[1..]);
    }
  }

  lemma {:induction false} CompareSwap(a: seq<byte>, b: seq<byte>)
    requires |a| == |b|
    ensures Compare(a, b) > 0 ==> Compare(b, a) < 0
  {
    if a != [] && a[0] == b[0] {
      CompareSwap(a[1..], b[1..]);
    }
  }

  /** An entry of the array that is sorted: which peer, and from where. */
  datatype Entry = Entry(key: Key, fromFile: bool, index: nat)

  /** peer_cmp: by key, and for one key the running peer before the one of the file. */
  function PeerCmp(a: Entry, b: Entry): int {
    var c := Compare(a.key, b.key);
    if c != 0 then c else (if a.fromFile then 1 else 0) - (if b.fromFile then 1 else 0)
  }

  ghost predicate Sorted(es: seq<Entry>) {
    forall i, j :: 0 <= i < j < |es| ==> PeerCmp(es[i], es[j]) <= 0
  }

  lemma PeerCmpTransitive(a: Entry, b: Entry, c: Entry)
    requires PeerCmp(a, b) <= 0 && PeerCmp(b, c) <= 0
    ensures PeerCmp(a, c) <= 0
  {
    hide Compare;
    CompareTransitive(a.key, b.key, c.key);
  }

  /** Any sorting routine: the same entries, in order. */
  method Sort(es: seq<Entry>) returns (r: seq<Entry>)
    ensures Sorted(r) && multiset(r) == multiset(es)
  {
    hide PeerCmp;
    r := [];
    for n := 0 to |es|
      invariant Sorted(r) && multiset(r) == multiset(es[..n])
    {
      assert es[..n + 1] == es[..n] + [es[n]];
      r := Insert(r, es[n]);
    }
    assert es[..|es|] == es;
  }

  method Insert(es: seq<Entry>, e: Entry) returns (r: seq<Entry>)
    requires Sorted(es)
    ensures Sorted(r) && multiset(r) == multiset(es) + multiset{e}
  {
    hide PeerCmp;
    var k := 0;
    while k < |es| && PeerCmp(es[k], e) <= 0
      invariant 0 <= k <= |es| && forall i :: 0 <= i < k ==> PeerCmp(es[i], e) <= 0
    {
      k := k + 1;
    }
    r := es[..k] + [e] + es[k..];
    assert es == es[..k] + es[k..];
    if k < |es| {
      PeerCmpFlip(es[k], e);
      forall j | k < j < |es|
        ensures PeerCmp(e, es[j]) <= 0
      {
        PeerCmpTransitive(e, es[k], es[j]);
      }
    }
  }

  lemma PeerCmpFlip(a: Entry, b: Entry)
    requires PeerCmp(a, b) > 0
    ensures PeerCmp(b, a) <= 0
  {
    hide Compare;
    CompareSwap(a.key, b.key);
    CompareZero(a.key, b.key);
    CompareZero(b.key, a.key);
  }

  // ---------------------------------------------------------------- the scan

  ghost predicate DistinctKeys(ps: seq<Peer>) {
    forall i, j :: 0 <= i < j < |ps| ==> ps[i].publicKey != ps[j].publicKey
  }

  ghost predicate DistinctRuntime(rs: seq<RuntimePeer>) {
    forall i, j :: 0 <= i < j < |rs| ==> rs[i].publicKey != rs[j].publicKey
  }

  ghost predicate InFile(ps: seq<Peer>, key: Key) {
    exists j :: 0 <= j < |ps| && ps[j].publicKey == key
  }

  /** The running peer with a key. */
  function Lookup(rs: seq<RuntimePeer>, key: Key): (r: Option<RuntimePeer>)
    ensures r.Some? ==> r.value in rs && r.value.publicKey == key
    ensures r.None? ==> forall i :: 0 <= i < |rs| ==> rs[i].publicKey != key
  {
    if rs == [] then None
    else if rs[0].publicKey == key then Some(rs[0])
    else Lookup(rs[1..], key)
  }

  /** What the file leaves unsaid must be cleared explicitly when the running peer has it. */
  function Adjusted(p: Peer, r: Option<RuntimePeer>): Peer {
    if r.None? then p
    else
      p.(presharedKey :=
           if p.presharedKey.None? && r.value.presharedKey != ZeroKey() then Some(ZeroKey()) else p.presharedKey,
         keepalive := if p.keepalive.None? && r.value.keepalive != 0 then Some(0) else p.keepalive)
  }

  function Removal(key: Key): Peer {
    Peer(key, true, false, None, None, None, [])
  }

  /** The entry stands for the peer that its index names. */
  ghost predicate Names(e: Entry, ps: seq<Peer>, rs: seq<RuntimePeer>) {
    if e.fromFile then e.index < |ps| && ps[e.index].publicKey == e.key
    else e.index < |rs| && rs[e.index].publicKey == e.key
  }

  /** Every peer of both sides once, in order. */
  ghost predicate Arranged(es: seq<Entry>, ps: seq<Peer>, rs: seq<RuntimePeer>) {
    && Sorted(es)
    && (forall i :: 0 <= i < |es| ==> Names(es[i], ps, rs))
    && (forall i, j :: 0 <= i < j < |es| ==> es[i] != es[j])
    && (forall k :: 0 <= k < |ps| ==> Entry(ps[k].publicKey, true, k) in es)
    && (forall k :: 0 <= k < |rs| ==> Entry(rs[k].publicKey, false, k) in es)
  }

  /** Entries in order with one key: all between have that key, and the running peer comes first. */
  lemma SameKeyRun(es: seq<Entry>, i: nat, m: nat, j: nat)
    requires Sorted(es) && i <= m <= j < |es| && es[i].key == es[j].key
    ensures es[m].key == es[i].key && (es[i].fromFile ==> es[j].fromFile)
  {
    hide Compare;
    CompareZero(es[i].key, es[j].key);
    if i < m < j {
      assert PeerCmp(es[i], es[m]) <= 0 && PeerCmp(es[m], es[j]) <= 0;
      CompareTransitive(es[i].key, es[m].key, es[j].key);
      CompareZero(es[i].key, es[m].key);
    }
    if i < j {
      assert PeerCmp(es[i], es[j]) <= 0;
    }
  }

  /** The running device has one entry for a key. */
  lemma OneRunning(es: seq<Entry>, ps: seq<Peer>, rs: seq<RuntimePeer>, i: nat, j: nat)
    requires Arranged(es, ps, rs) && DistinctRuntime(rs)
    requires i < |es| && j < |es| && es[i].key == es[j].key && !es[i].fromFile && !es[j].fromFile
    ensures i == j
  {
    hide Sorted;
    assert Names(es[i], ps, rs) && Names(es[j], ps, rs);
    assert es[i] == es[j];
  }

  /** A section of the file has one entry. */
  lemma OneSection(es: seq<Entry>, ps: seq<Peer>, rs: seq<RuntimePeer>, i: nat, j: nat)
    requires Arranged(es, ps, rs)
    requires i < |es| && j < |es| && es[i].index == es[j].index && es[i].fromFile && es[j].fromFile
    ensures i == j
  {
    hide Sorted;
    assert Names(es[i], ps, rs) && Names(es[j], ps, rs);
    assert es[i] == es[j];
  }

  /** Right after a running peer comes a section with its key, if the file has one. */
  lemma PartnersAdjacent(es: seq<Entry>, ps: seq<Peer>, rs: seq<RuntimePeer>, i: nat, j: nat)
    requires Arranged(es, ps, rs) && DistinctRuntime(rs)
    requires i < |es| && j < |es| && !es[i].fromFile && es[j].fromFile && es[i].key == es[j].key
    ensures i < j && es[i + 1].fromFile && es[i + 1].key == es[i].key
  {
    hide Sorted, Names, DistinctRuntime;
    if j < i {
      SameKeyRun(es, j, j, i);
    } else {
      SameKeyRun(es, i, i + 1, j);
      if !es[i + 1].fromFile {
        OneRunning(es, ps, rs, i, i + 1);
      }
    }
  }

  /** The running peer at position a looks ahead at section j of the file. */
  ghost predicate Meeting(es: seq<Entry>, a: nat, j: nat) {
    && a + 1 < |es| && !es[a].fromFile && es[a + 1].fromFile
    && es[a + 1].key == es[a].key && es[a + 1].index == j
  }

  /** Some running peer meets section j. */
  ghost predicate Met(es: seq<Entry>, j: nat) {
    exists a: nat :: Meeting(es, a, j)
  }

  /** Of several sections with one key, an earlier one is sorted before a later one. */
  ghost predicate KeepsOrder(es: seq<Entry>) {
    forall i, j :: 0 <= i < j < |es| && es[i].fromFile && es[j].fromFile && es[i].key == es[j].key ==>
      es[i].index < es[j].index
  }

  /** Then the section that is met is the first with its key. */
  lemma MetFirst(es: seq<Entry>, ps: seq<Peer>, rs: seq<RuntimePeer>, j: nat, i: nat)
    requires Arranged(es, ps, rs) && DistinctRuntime(rs) && KeepsOrder(es) && Met(es, j) && i < j < |ps|
    ensures ps[i].publicKey != ps[j].publicKey
  {
    hide Sorted, DistinctRuntime;
    var a: nat :| Meeting(es, a, j);
    assert Names(es[a + 1], ps, rs);
    if ps[i].publicKey == ps[j].publicKey {
      var e := Entry(ps[i].publicKey, true, i);
      assert e in es;
      var b :| 0 <= b < |es| && es[b] == e;
      PartnersAdjacent(es, ps, rs, a, b);
      assert false;
    }
  }

  /** A running peer whose key is in the file meets exactly one section, and only such a peer does. */
  lemma MetOnce(es: seq<Entry>, ps: seq<Peer>, rs: seq<RuntimePeer>, j: nat, i: nat)
    requires Arranged(es, ps, rs) && DistinctRuntime(rs) && Met(es, j) && Met(es, i)
    ensures i < |ps| && j < |ps| && Lookup(rs, ps[j].publicKey).Some?
    ensures ps[i].publicKey == ps[j].publicKey ==> i == j
  {
    hide Sorted, DistinctRuntime;
    var a: nat :| Meeting(es, a, j);
    var b: nat :| Meeting(es, b, i);
    assert Names(es[a], ps, rs) && Names(es[a + 1], ps, rs) && Names(es[b + 1], ps, rs);
    LookupFinds(rs, es[a].index);
    if ps[i].publicKey == ps[j].publicKey {
      OneRunning(es, ps, rs, a, b);
    }
  }

  lemma SomeMet(es: seq<Entry>, ps: seq<Peer>, rs: seq<RuntimePeer>, key: Key) returns (j: nat)
    requires Arranged(es, ps, rs) && DistinctRuntime(rs) && Lookup(rs, key).Some? && InFile(ps, key)
    ensures j < |ps| && Met(es, j) && ps[j].publicKey == key
  {
    hide Sorted, DistinctRuntime, Lookup;
    var k :| 0 <= k < |rs| && rs[k] == Lookup(rs, key).value;
    var m :| 0 <= m < |ps| && ps[m].publicKey == key;
    var e, f := Entry(rs[k].publicKey, false, k), Entry(ps[m].publicKey, true, m);
    assert e in es && f in es;
    var a :| 0 <= a < |es| && es[a] == e;
    var b :| 0 <= b < |es| && es[b] == f;
    PartnersAdjacent(es, ps, rs, a, b);
    assert Names(es[a + 1], ps, rs);
    j := es[a + 1].index;
    assert Meeting(es, a, j);
  }

  /** Fills the array from both sides and sorts it. */
  method Arrange(ps: seq<Peer>, rs: seq<RuntimePeer>) returns (es: seq<Entry>)
    ensures Arranged(es, ps, rs)
  {
    hide PeerCmp;
    var all: seq<Entry> := [];
    for k := 0 to |ps|
      invariant |all| == k && forall i :: 0 <= i < k ==> all[i] == Entry(ps[i].publicKey, true, i)
    {
      all := all + [Entry(ps[k].publicKey, true, k)];
    }
    for k := 0 to |rs|
      invariant |all| == |ps| + k
      invariant forall i :: 0 <= i < |ps| ==> all[i] == Entry(ps[i].publicKey, true, i)
      invariant forall i :: |ps| <= i < |ps| + k ==> all[i] == Entry(rs[i - |ps|].publicKey, false, i - |ps|)
    {
      all := all + [Entry(rs[k].publicKey, false, k)];
    }
    AllDifferent(all, ps, rs);
    es := Sort(all);
    SamePermutation(all, es);
    forall i | 0 <= i < |es|
      ensures Names(es[i], ps, rs)
    {
      assert es[i] in all;
      var j :| 0 <= j < |all| && all[j] == es[i];
    }
    forall k | 0 <= k < |ps|
      ensures Entry(ps[k].publicKey, true, k) in es
    {
      assert all[k] in all;
    }
    forall k | 0 <= k < |rs|
      ensures Entry(rs[k].publicKey, false, k) in es
    {
      assert all[|ps| + k] in all;
    }
  }

  lemma AllDifferent(all: seq<Entry>, ps: seq<Peer>, rs: seq<RuntimePeer>)
    requires |all| == |ps| + |rs|
    requires forall i :: 0 <= i < |ps| ==> all[i] == Entry(ps[i].publicKey, true, i)
    requires forall i :: |ps| <= i < |all| ==> all[i] == Entry(rs[i - |ps|].publicKey, false, i - |ps|)
    ensures forall i, j :: 0 <= i < j < |all| ==> all[i] != all[j]
  {
  }

  /** A permutation has the same members, and no repetitions when the original has none. */
  lemma SamePermutation(a: seq<Entry>, b: seq<Entry>)
    requires multiset(a) == multiset(b)
    ensures forall e :: e in a <==> e in b
    ensures (forall i, j :: 0 <= i < j < |a| ==> a[i] != a[j]) ==> forall i, j :: 0 <= i < j < |b| ==> b[i] != b[j]
  {
    assert forall e :: e in a <==> e in multiset(a);
    assert forall e :: e in b <==> e in multiset(b);
    if forall i, j :: 0 <= i < j < |a| ==> a[i] != a[j] {
      AtMostOnce(a);
      forall i, j | 0 <= i < j < |b|
        ensures b[i] != b[j]
      {
        Twice(b, i, j);
      }
    }
  }

  lemma {:induction false} AtMostOnce(a: seq<Entry>)
    requires forall i, j :: 0 <= i < j < |a| ==> a[i] != a[j]
    ensures forall e :: multiset(a)[e] <= 1
    decreases |a|
  {
    if a != [] {
      var n := |a| - 1;
      AtMostOnce(a[..n]);
      assert a == a[..n] + [a[n]];
      assert a[n] !in multiset(a[..n]);
    }
  }

  lemma Twice(b: seq<Entry>, i: nat, j: nat)
    requires i < j < |b|
    ensures b[i] == b[j] ==> multiset(b)[b[i]] >= 2
  {
    assert b == b[..i] + [b[i]] + b[i + 1..j] + [b[j]] + b[j + 1..];
  }

  /** The scan has dealt with the entries before position i. */
  ghost predicate Scanned(es: seq<Entry>, ps: seq<Peer>, rs: seq<RuntimePeer>, i: nat, now: seq<Peer>,
                          gone: seq<Peer>) {
    && i <= |es| && |now| == |ps|
    && (forall j :: 0 <= j < |ps| ==>
          now[j] == if MetBefore(es, i, j) then Adjusted(ps[j], Lookup(rs, ps[j].publicKey)) else ps[j])
    && (forall a :: 0 <= a < |gone| ==> gone[a] == Removal(gone[a].publicKey))
    && (forall key :: Removal(key) in gone <==> DepartedBefore(es, ps, i, key))
  }

  ghost predicate MetBefore(es: seq<Entry>, i: nat, j: nat) {
    exists a: nat :: a < i && Meeting(es, a, j)
  }

  ghost predicate DepartedBefore(es: seq<Entry>, ps: seq<Peer>, i: nat, key: Key) {
    exists a :: 0 <= a < i && a < |es| && Departed(es[a], ps, key)
  }

  /** The entry is a running peer that the file does not have. */
  ghost predicate Departed(e: Entry, ps: seq<Peer>, key: Key) {
    !e.fromFile && e.key == key && !InFile(ps, key)
  }

  lemma ScanStart(es: seq<Entry>, ps: seq<Peer>, rs: seq<RuntimePeer>)
    ensures Scanned(es, ps, rs, 0, ps, [])
  {
    hide Lookup;
  }

  /** The test of the scan: a running peer stays exactly when the next entry is a section with its key. */
  lemma StaysExactly(es: seq<Entry>, ps: seq<Peer>, rs: seq<RuntimePeer>, i: nat)
    requires Arranged(es, ps, rs) && DistinctRuntime(rs) && i < |es| && !es[i].fromFile
    ensures InFile(ps, es[i].key) <==> i + 1 < |es| && es[i + 1].fromFile && es[i + 1].key == es[i].key
  {
    hide Sorted;
    if InFile(ps, es[i].key) {
      var k :| 0 <= k < |ps| && ps[k].publicKey == es[i].key;
      var e := Entry(ps[k].publicKey, true, k);
      assert e in es;
      var j :| 0 <= j < |es| && es[j] == e;
      PartnersAdjacent(es, ps, rs, i, j);
    }
    if i + 1 < |es| && es[i + 1].fromFile && es[i + 1].key == es[i].key {
      assert Names(es[i + 1], ps, rs);
    }
  }

  /** Moving past an entry of the file. */
  lemma ScanFile(es: seq<Entry>, ps: seq<Peer>, rs: seq<RuntimePeer>, i: nat, now: seq<Peer>, gone: seq<Peer>)
    requires i < |es| && es[i].fromFile && Scanned(es, ps, rs, i, now, gone)
    ensures Scanned(es, ps, rs, i + 1, now, gone)
  {
    hide Lookup, Adjusted, DepartedBefore, MetBefore;
    NoMeeting(es, i);
    assert forall key :: !Departed(es[i], ps, key);
    SameRemovals(es, ps, i);
  }

  lemma NoMeeting(es: seq<Entry>, i: nat)
    requires forall j: nat :: !Meeting(es, i, j)
    ensures forall j: nat :: MetBefore(es, i, j) <==> MetBefore(es, i + 1, j)
  {
    hide Meeting;
    forall j: nat | MetBefore(es, i + 1, j)
      ensures MetBefore(es, i, j)
    {
      var a: nat :| a < i + 1 && Meeting(es, a, j);
      assert a != i;
    }
  }

  lemma SameRemovals(es: seq<Entry>, ps: seq<Peer>, i: nat)
    requires i < |es| && forall key :: !Departed(es[i], ps, key)
    ensures forall key :: DepartedBefore(es, ps, i, key) <==> DepartedBefore(es, ps, i + 1, key)
  {
    hide Departed;
    forall key | DepartedBefore(es, ps, i + 1, key)
      ensures DepartedBefore(es, ps, i, key)
    {
      var a :| 0 <= a < i + 1 && Departed(es[a], ps, key);
      assert a != i;
    }
  }

  /** A running peer that the file does not have. */
  lemma ScanGone(es: seq<Entry>, ps: seq<Peer>, rs: seq<RuntimePeer>, i: nat, now: seq<Peer>, gone: seq<Peer>)
    requires Arranged(es, ps, rs) && DistinctRuntime(rs) && i < |es| && !es[i].fromFile
    requires !(i + 1 < |es| && es[i + 1].fromFile && es[i + 1].key == es[i].key)
    requires Scanned(es, ps, rs, i, now, gone)
    ensures Scanned(es, ps, rs, i + 1, now, [Removal(es[i].key)] + gone)
  {
    hide Sorted, Lookup, Names, Adjusted, MetBefore;
    NoMeeting(es, i);
    StaysExactly(es, ps, rs, i);
    var more := [Removal(es[i].key)] + gone;
    assert Departed(es[i], ps, es[i].key);
    forall key
      ensures Removal(key) in more <==> DepartedBefore(es, ps, i + 1, key)
    {
      RemovalIn(more, gone, es[i].key, key);
      if DepartedBefore(es, ps, i + 1, key) {
        var a :| 0 <= a < i + 1 && Departed(es[a], ps, key);
        assert a < i || key == es[i].key;
      }
    }
  }

  lemma RemovalIn(more: seq<Peer>, gone: seq<Peer>, first: Key, key: Key)
    requires more == [Removal(first)] + gone
    ensures Removal(key) in more <==> key == first || Removal(key) in gone
  {
    assert Removal(key) == Removal(first) <==> key == first;
  }

  /** A running peer that meets a section: the section is adjusted. */
  lemma ScanStays(es: seq<Entry>, ps: seq<Peer>, rs: seq<RuntimePeer>, i: nat, now: seq<Peer>, gone: seq<Peer>)
    requires Arranged(es, ps, rs) && DistinctRuntime(rs) && i < |es| && !es[i].fromFile
    requires i + 1 < |es| && es[i + 1].fromFile && es[i + 1].key == es[i].key
    requires Scanned(es, ps, rs, i, now, gone)
    ensures es[i].index < |rs| && es[i + 1].index < |ps| && now[es[i + 1].index] == ps[es[i + 1].index]
    ensures var j := es[i + 1].index;
      Scanned(es, ps, rs, i + 1, now[j := Adjusted(ps[j], Some(rs[es[i].index]))], gone)
  {
    hide Sorted, Lookup, Adjusted, DepartedBefore;
    var j := es[i + 1].index;
    assert Names(es[i], ps, rs) && Names(es[i + 1], ps, rs);
    LookupOnly(rs, es[i].index);
    StaysExactly(es, ps, rs, i);
    assert forall key :: !Departed(es[i], ps, key);
    SameRemovals(es, ps, i);
    NextMet(es, ps, rs, i);
  }

  lemma NextMet(es: seq<Entry>, ps: seq<Peer>, rs: seq<RuntimePeer>, i: nat)
    requires Arranged(es, ps, rs) && i + 1 < |es| && Meeting(es, i, es[i + 1].index)
    ensures var j := es[i + 1].index;
      !MetBefore(es, i, j) && forall k: nat :: MetBefore(es, i + 1, k) <==> k == j || MetBefore(es, i, k)
  {
    hide Arranged;
    var j := es[i + 1].index;
    if MetBefore(es, i, j) {
      var a: nat :| a < i && Meeting(es, a, j);
      OneSection(es, ps, rs, a + 1, i + 1);
    }
    forall k: nat | MetBefore(es, i + 1, k)
      ensures k == j || MetBefore(es, i, k)
    {
      var a: nat :| a < i + 1 && Meeting(es, a, k);
      assert a == i ==> k == j;
    }
  }

  /** The sections after the scan: those that a running peer has met are adjusted to it. */
  ghost function Adjustments(es: seq<Entry>, ps: seq<Peer>, rs: seq<RuntimePeer>): (r: seq<Peer>)
    ensures |r| == |ps|
  {
    seq(|ps|, j requires 0 <= j < |ps| =>
      if Met(es, j) then Adjusted(ps[j], Lookup(rs, ps[j].publicKey)) else ps[j])
  }

  /** The outcome: the peers that the file lacks are removed, and what it says only by omission is made explicit. */
  ghost predicate Synchronised(file: Device, rs: seq<RuntimePeer>, es: seq<Entry>, out: Device) {
    exists gone: seq<Peer> ::
      && out == file.(replacePeers := false, peers := gone + Adjustments(es, file.peers, rs))
      && (forall a :: 0 <= a < |gone| ==> gone[a] == Removal(gone[a].publicKey))
      && (forall key :: Removal(key) in gone <==> Lookup(rs, key).Some? && !InFile(file.peers, key))
  }

  /** With distinct keys every section whose peer is running is met. */
  lemma DistinctMet(es: seq<Entry>, ps: seq<Peer>, rs: seq<RuntimePeer>, j: nat)
    requires Arranged(es, ps, rs) && DistinctRuntime(rs) && DistinctKeys(ps) && j < |ps|
    ensures Met(es, j) <==> Lookup(rs, ps[j].publicKey).Some?
  {
    hide Arranged, DistinctRuntime, Lookup, Met;
    if Met(es, j) {
      MetOnce(es, ps, rs, j, j);
    }
    if Lookup(rs, ps[j].publicKey).Some? {
      var k := SomeMet(es, ps, rs, ps[j].publicKey);
    }
  }

  /** Whatever the keys: the peers of the file stay in order, and only what they leave unsaid may be made explicit. */
  ghost predicate Reshaped(ps: seq<Peer>, rs: seq<RuntimePeer>, now: seq<Peer>, gone: seq<Peer>) {
    && |now| == |ps|
    && (forall i :: 0 <= i < |ps| ==> now[i] == ps[i] || Cleared(ps[i], now[i]))
    && (forall a :: 0 <= a < |gone| ==> gone[a] == Removal(gone[a].publicKey) && Lookup(rs, gone[a].publicKey).Some?)
  }

  predicate Cleared(p: Peer, now: Peer) {
    && now.(presharedKey := p.presharedKey, keepalive := p.keepalive) == p
    && (now.presharedKey == p.presharedKey || (p.presharedKey.None? && now.presharedKey == Some(ZeroKey())))
    && (now.keepalive == p.keepalive || (p.keepalive.None? && now.keepalive == Some(0)))
  }

  /** `runtime` is None when the running device cannot be read; `es` is the array as it was sorted. */
  method Sync(file: Device, runtime: Option<seq<RuntimePeer>>) returns (ok: bool, out: Device, ghost es: seq<Entry>)
    ensures ok == (file.peers == [] || runtime.Some?)
    ensures !ok || file.peers == [] || runtime.value == [] ==> out == file
    ensures ok && file.peers != [] && runtime.value != [] ==>
      exists gone, now :: out == file.(replacePeers := false, peers := gone + now)
        && Reshaped(file.peers, runtime.value, now, gone)
    ensures ok && file.peers != [] && runtime.value != [] ==> Arranged(es, file.peers, runtime.value)
    ensures ok && file.peers != [] && runtime.value != [] && DistinctRuntime(runtime.value) ==>
      Synchronised(file, runtime.value, es, out)
  {
    hide Arranged, Scanned, DistinctRuntime, Lookup, Adjusted, Reshaped;
    out, es := file, [];
    if file.peers == [] {
      return true, out, es;
    }
    if runtime.None? {
      return false, out, es;
    }
    var ps, rs := file.peers, runtime.value;
    if rs == [] {
      return true, out, es;
    }
    ghost var distinct := DistinctRuntime(rs);
    var sorted := Arrange(ps, rs);
    es := sorted;
    var now, gone: seq<Peer> := ps, [];
    ReshapeStart(ps, rs);
    ScanStart(es, ps, rs);
    for i := 0 to |sorted|
      invariant Reshaped(ps, rs, now, gone) && (distinct ==> Scanned(es, ps, rs, i, now, gone))
    {
      EntryNames(es, ps, rs, i);
      if sorted[i].fromFile {
        if distinct {
          ScanFile(es, ps, rs, i, now, gone);
        }
      } else if i == |sorted| - 1 || !sorted[i + 1].fromFile || sorted[i].key != sorted[i + 1].key {
        if distinct {
          ScanGone(es, ps, rs, i, now, gone);
        }
        ReshapeGone(ps, rs, now, gone, es[i].index);
        gone := [Removal(sorted[i].key)] + gone;
      } else {
        if distinct {
          ScanStays(es, ps, rs, i, now, gone);
        }
        var j := sorted[i + 1].index;
        EntryNames(es, ps, rs, i + 1);
        ReshapeStays(ps, rs, now, gone, j, rs[sorted[i].index]);
        now := now[j := Adjusted(now[j], Some(rs[sorted[i].index]))];
      }
    }
    if distinct {
      ScanEnd(es, ps, rs, now, gone);
    }
    out := file.(replacePeers := false, peers := gone + now);
    return true, out, es;
  }

  lemma EntryNames(es: seq<Entry>, ps: seq<Peer>, rs: seq<RuntimePeer>, i: nat)
    requires Arranged(es, ps, rs) && i < |es|
    ensures if es[i].fromFile then es[i].index < |ps| else es[i].index < |rs| && rs[es[i].index].publicKey == es[i].key
  {
    hide Sorted;
    assert Names(es[i], ps, rs);
  }

  lemma ReshapeStart(ps: seq<Peer>, rs: seq<RuntimePeer>)
    ensures Reshaped(ps, rs, ps, [])
  {
  }

  lemma ReshapeGone(ps: seq<Peer>, rs: seq<RuntimePeer>, now: seq<Peer>, gone: seq<Peer>, i: nat)
    requires Reshaped(ps, rs, now, gone) && i < |rs|
    ensures Reshaped(ps, rs, now, [Removal(rs[i].publicKey)] + gone)
  {
    hide Lookup;
    LookupFinds(rs, i);
  }

  lemma ReshapeStays(ps: seq<Peer>, rs: seq<RuntimePeer>, now: seq<Peer>, gone: seq<Peer>, j: nat, r: RuntimePeer)
    requires Reshaped(ps, rs, now, gone) && j < |ps|
    ensures |now| == |ps| && Reshaped(ps, rs, now[j := Adjusted(now[j], Some(r))], gone)
  {
    hide Lookup;
  }

  lemma ScanEnd(es: seq<Entry>, ps: seq<Peer>, rs: seq<RuntimePeer>, now: seq<Peer>, gone: seq<Peer>)
    requires Arranged(es, ps, rs) && Scanned(es, ps, rs, |es|, now, gone)
    ensures now == Adjustments(es, ps, rs)
    ensures forall a :: 0 <= a < |gone| ==> gone[a] == Removal(gone[a].publicKey)
    ensures forall key :: Removal(key) in gone <==> Lookup(rs, key).Some? && !InFile(ps, key)
  {
    hide Sorted, Lookup, Adjusted, InFile;
    forall j | 0 <= j < |ps|
      ensures now[j] == Adjustments(es, ps, rs)[j]
    {
      assert MetBefore(es, |es|, j) <==> Met(es, j);
    }
    forall key
      ensures Removal(key) in gone <==> Lookup(rs, key).Some? && !InFile(ps, key)
    {
      if Removal(key) in gone {
        var a :| 0 <= a < |es| && Departed(es[a], ps, key);
        assert Names(es[a], ps, rs);
        LookupFinds(rs, es[a].index);
      }
      if Lookup(rs, key).Some? && !InFile(ps, key) {
        var k :| 0 <= k < |rs| && rs[k] == Lookup(rs, key).value;
        var e := Entry(rs[k].publicKey, false, k);
        assert e in es;
        var a :| 0 <= a < |es| && es[a] == e;
        assert Departed(es[a], ps, key);
      }
    }
  }

  lemma LookupFinds(rs: seq<RuntimePeer>, i: nat)
    requires i < |rs|
    ensures Lookup(rs, rs[i].publicKey).Some?
  {
  }

  lemma LookupOnly(rs: seq<RuntimePeer>, i: nat)
    requires i < |rs| && DistinctRuntime(rs)
    ensures Lookup(rs, rs[i].publicKey) == Some(rs[i])
  {
    LookupFinds(rs, i);
    var r := Lookup(rs, rs[i].publicKey).value;
    var k :| 0 <= k < |rs| && rs[k] == r;
  }
}
