/**
 Removing entries from the dynamic section of an ELF file, in place: a removed entry is
 retagged DT_NULL and swapped to the end of the live entries, and the index steps back to
 look at what came in its place. Indices are 32-bit unsigned and wrap.
 */
module ElfCleaner {
  import opened Bits

  datatype Entry = Entry(tag: int, val: nat)

  const DT_NULL: int := 0
  const DT_RPATH: int := 15
  const DT_RUNPATH: int := 29
  const DT_GNU_HASH: int := 0x6fff_fef5
  const DT_VERSYM: int := 0x6fff_fff0
  const DT_FLAGS_1: int := 0x6fff_fffb
  const DT_VERDEF: int := 0x6fff_fffc
  const DT_VERDEFNUM: int := 0x6fff_fffd
  const DT_VERNEEDED: int := 0x6fff_fffe
  const DT_VERNEEDNUM: int := 0x6fff_ffff
  const DT_AARCH64_BTI_PLT: int := 0x7000_0001
  const DT_AARCH64_PAC_PLT: int := 0x7000_0003
  const DT_AARCH64_VARIANT_PCS: int := 0x7000_0005

  /** What the run is for: the target's level and machine, and the flags its linker knows. */
  datatype Target = Target(apiLevel: int, aarch64: bool, supported: byte)

  predicate Removable(t: Target, tag: int) {
    || tag == DT_RPATH
    || (tag == DT_RUNPATH && t.apiLevel < 24)
    || (tag in {DT_GNU_HASH, DT_VERSYM, DT_VERNEEDED, DT_VERNEEDNUM, DT_VERDEF, DT_VERDEFNUM} && t.apiLevel < 23)
    || (tag in {DT_AARCH64_BTI_PLT, DT_AARCH64_PAC_PLT, DT_AARCH64_VARIANT_PCS} && t.aarch64 && t.apiLevel < 31)
  }

  /** The tags that may stay, by the numbers of the ELF headers. */
  predicate Tolerated(t: Target, tag: int) {
    && tag != 15
    && (t.apiLevel >= 24 || tag != 29)
    && (t.apiLevel >= 23 || (tag != 0x6fff_fef5 && tag != 0x6fff_fff0 && !(0x6fff_fffc <= tag <= 0x6fff_ffff)))
    && (t.apiLevel >= 31 || !t.aarch64 || (tag != 0x7000_0001 && tag != 0x7000_0003 && tag != 0x7000_0005))
  }

  /** An entry that stays, without the flags that the linker does not know. */
  function Masked(t: Target, e: Entry): Entry {
    if e.tag != DT_FLAGS_1 then e
    else
      AndBound(e.val, t.supported);
      e.(val := And(e.val, t.supported))
  }

  /** And-ing twice with one mask is and-ing once. */
  lemma {:induction false} AndTwice(x: int, y: int)
    ensures And(And(x, y), y) == And(x, y)
    decreases Magnitude(x) + Magnitude(y)
  {
    if IsBitConstant(x) && IsBitConstant(y) {
      assert And(x, y) == And(And(x, y), y);
    } else {
      AndTwice(x / 2, y / 2);
      AndHalves(x, y);
      AndHalves(And(x, y), y);
      hide And;
      Halves(And(x / 2, y / 2), x % 2 == 1 && y % 2 == 1);
    }
  }

  lemma Halves(a: int, odd: bool)
    ensures var x := 2 * a + if odd then 1 else 0; x / 2 == a && (x % 2 == 1 <==> odd)
  {
  }

  lemma MaskedTwice(t: Target, e: Entry)
    ensures Masked(t, Masked(t, e)) == Masked(t, e)
  {
    AndTwice(e.val, t.supported);
  }

  /** The live entries of a section that are to stay, each masked. */
  function Survivors(t: Target, s: seq<Entry>): seq<Entry> {
    if s == [] then []
    else (if Removable(t, s[0].tag) then [] else [Masked(t, s[0])]) + Survivors(t, s[1..])
  }

  /** Of a single entry: kept exactly when its tag may stay, and only the value of DT_FLAGS_1 changes. */
  lemma SurvivesExactly(t: Target, e: Entry)
    ensures Survivors(t, [e]) == if Tolerated(t, e.tag) then [Masked(t, e)] else []
    ensures Masked(t, e).tag == e.tag && (e.tag != 0x6fff_fffb ==> Masked(t, e) == e)
  {
    assert [e][1..] == [];
    MaskedTag(t, e);
  }

  lemma {:induction false} SurvivorsConcat(t: Target, a: seq<Entry>, b: seq<Entry>)
    ensures Survivors(t, a + b) == Survivors(t, a) + Survivors(t, b)
    decreases |a|
  {
    hide Removable, Masked;
    if a == [] {
      assert a + b == b;
    } else {
      assert (a + b)[1..] == a[1..] + b;
      SurvivorsConcat(t, a[1..], b);
    }
  }

  /** From `live` on there is only DT_NULL. */
  ghost predicate NullTail(s: seq<Entry>, live: nat) {
    live <= |s| && forall i :: live <= i < |s| ==> s[i].tag == DT_NULL
  }

  ghost predicate NoNull(s: seq<Entry>) {
    forall i :: 0 <= i < |s| ==> s[i].tag != DT_NULL
  }

  /** The entries up to the last one that is not DT_NULL. */
  ghost function LiveCount(s: seq<Entry>): (n: nat)
    ensures NullTail(s, n) && (n > 0 ==> s[n - 1].tag != DT_NULL)
    decreases |s|
  {
    if s == [] then 0 else if s[|s| - 1].tag != DT_NULL then |s| else LiveCount(s[..|s| - 1])
  }

  /** Survivors are entries that were there, so none of them is DT_NULL if none was. */
  lemma {:induction false} SurvivorsNoNull(t: Target, s: seq<Entry>)
    requires NoNull(s)
    ensures NoNull(Survivors(t, s))
    decreases |s|
  {
    hide Removable, Masked;
    if s != [] {
      assert forall i :: 0 <= i < |s[1..]| ==> s[1..][i] == s[i + 1];
      SurvivorsNoNull(t, s[1..]);
      MaskedTag(t, s[0]);
    }
  }

  lemma SameEntriesNoNull(a: seq<Entry>, b: seq<Entry>)
    requires multiset(a) == multiset(b) && NoNull(b)
    ensures NoNull(a)
  {
    forall i | 0 <= i < |a|
      ensures a[i].tag != DT_NULL
    {
      assert a[i] in multiset(a);
      assert a[i] in b;
    }
  }

  /** Nothing left to do. */
  ghost predicate Settled(t: Target, s: seq<Entry>) {
    forall i :: 0 <= i < |s| ==> !Removable(t, s[i].tag) && Masked(t, s[i]) == s[i]
  }

  /** The part before j is done; the survivors of the rest are still to be counted. */
  ghost predicate Progress(t: Target, s: seq<Entry>, j: nat, live: nat, was: multiset<Entry>) {
    && j <= live && NullTail(s, live) && Settled(t, s[..j])
    && multiset(s[..j]) + multiset(Survivors(t, s[j..live])) == was
  }

  lemma ProgressStart(t: Target, s: seq<Entry>, live: nat)
    requires NullTail(s, live)
    ensures Progress(t, s, 0, live, multiset(Survivors(t, s[..live])))
  {
    assert s[..0] == [] && s[0..live] == s[..live];
  }

  lemma ProgressDone(t: Target, s: seq<Entry>, live: nat, was: multiset<Entry>)
    requires Progress(t, s, live, live, was)
    ensures multiset(s[..live]) == was && Settled(t, s)
  {
    assert s[live..live] == [];
    forall i | 0 <= i < |s|
      ensures !Removable(t, s[i].tag) && Masked(t, s[i]) == s[i]
    {
      if i < live {
        assert s[i] == s[..live][i];
      }
    }
  }

  /** An entry that stays. */
  lemma ProgressKeep(t: Target, s: seq<Entry>, j: nat, live: nat, was: multiset<Entry>)
    requires Progress(t, s, j, live, was) && j < live && !Removable(t, s[j].tag)
    ensures Progress(t, s[j := Masked(t, s[j])], j + 1, live, was)
  {
    hide Removable, Masked, Settled;
    var e := s[j];
    var now := s[j := Masked(t, e)];
    MaskedTag(t, e);
    assert s[j..live] == [e] + s[j + 1..live];
    assert now[j + 1..live] == s[j + 1..live];
    assert now[..j + 1] == s[..j] + [Masked(t, e)];
    SurvivorKept(t, e, s[j + 1..live]);
    SettledSnoc(t, s[..j], e);
    assert multiset(s[..j] + [Masked(t, e)]) == multiset(s[..j]) + multiset{Masked(t, e)};
  }

  lemma SurvivorKept(t: Target, e: Entry, rest: seq<Entry>)
    requires !Removable(t, e.tag)
    ensures multiset(Survivors(t, [e] + rest)) == multiset{Masked(t, e)} + multiset(Survivors(t, rest))
  {
    hide Removable, Masked;
    assert ([e] + rest)[1..] == rest;
  }

  lemma SettledSnoc(t: Target, done: seq<Entry>, e: Entry)
    requires Settled(t, done) && !Removable(t, e.tag)
    ensures Settled(t, done + [Masked(t, e)])
  {
    hide Removable, Masked;
    MaskedTwice(t, e);
    MaskedTag(t, e);
  }

  /** The section after entry j was retagged and swapped with the last live one. */
  function Swapped(s: seq<Entry>, j: nat, live: nat): (r: seq<Entry>)
    requires j < live <= |s|
    ensures |r| == |s|
  {
    var nulled := s[j := s[j].(tag := DT_NULL)];
    nulled[j := nulled[live - 1]][live - 1 := nulled[j]]
  }

  lemma SwappedSurvivors(t: Target, s: seq<Entry>, j: nat, live: nat)
    requires j < live <= |s| && Removable(t, s[j].tag)
    ensures multiset(Survivors(t, Swapped(s, j, live)[j..live - 1])) == multiset(Survivors(t, s[j..live]))
  {
    hide Removable, Masked;
    var now := Swapped(s, j, live);
    if j == live - 1 {
      assert s[j..live] == [s[j]];
      assert now[j..live - 1] == [];
    } else {
      var mid, last := s[j + 1..live - 1], [s[live - 1]];
      assert s[j..live] == [s[j]] + (mid + last);
      assert now[j..live - 1] == last + mid;
      assert Survivors(t, [s[j]]) == [];
      FirstGoes(t, s[j], mid, last);
    }
  }

  /** Without a removable first entry, and with the last one in its place, the same survive. */
  lemma FirstGoes(t: Target, e: Entry, mid: seq<Entry>, last: seq<Entry>)
    requires Survivors(t, [e]) == []
    ensures multiset(Survivors(t, last + mid)) == multiset(Survivors(t, [e] + (mid + last)))
  {
    hide Survivors;
    SurvivorsConcat(t, [e], mid + last);
    SurvivorsConcat(t, mid, last);
    SurvivorsConcat(t, last, mid);
    var x, y := Survivors(t, mid), Survivors(t, last);
    assert [] + (x + y) == x + y;
    assert multiset(x + y) == multiset(y + x);
  }

  lemma ProgressRemove(t: Target, s: seq<Entry>, j: nat, live: nat, was: multiset<Entry>)
    requires Progress(t, s, j, live, was) && j < live && Removable(t, s[j].tag)
    ensures Progress(t, Swapped(s, j, live), j, live - 1, was)
  {
    hide Removable, Masked, Survivors;
    SwappedSurvivors(t, s, j, live);
    assert Swapped(s, j, live)[..j] == s[..j];
  }

  function Wrap(x: int): (r: nat)
    ensures r < 0x1_0000_0000
  {
    x % 0x1_0000_0000
  }

  /** The index of the last entry that is not DT_NULL, or zero. */
  method LastNonNull(a: array<Entry>) returns (last: nat)
    requires 0 < a.Length < 0x1_0000_0000
    ensures last == if LiveCount(a[..]) == 0 then 0 else LiveCount(a[..]) - 1
  {
    hide LiveCount;
    last := 0;
    ghost var s, live := a[..], LiveCount(a[..]);
    var j := a.Length - 1;
    while j > 0
      invariant 0 <= j < a.Length && live <= j + 1
    {
      if a[j].tag != DT_NULL {
        assert s[j].tag != DT_NULL;
        return j;
      }
      assert s[j].tag == DT_NULL;
      j := j - 1;
    }
  }

  /** The loop at index j, with `left` live entries. */
  ghost predicate At(t: Target, s: seq<Entry>, j: nat, last: nat, left: nat, was: multiset<Entry>) {
    && j <= |s| && left <= |s| && (left > 0 ==> last == left - 1)
    && Progress(t, s, if j < left then j else left, left, was)
  }

  /** The body of the loop, up to the increment of the index. */
  method Visit(a: array<Entry>, t: Target, j: nat, last: nat, ghost left: nat, ghost was: multiset<Entry>)
    returns (j': nat, last': nat, ghost left': nat)
    requires j < a.Length < 0x1_0000_0000 && At(t, a[..], j, last, left, was)
    modifies a
    ensures Wrap(j' + 1) <= a.Length && left' <= left
    ensures (Wrap(j' + 1) == j && left' < left) || (Wrap(j' + 1) == j + 1 && left' == left)
    ensures At(t, a[..], Wrap(j' + 1), last', left', was)
    ensures Settled(t, old(a[..])) ==> a[..] == old(a[..])
  {
    hide Removable, Masked, Survivors, Progress;
    j', last', left' := j, last, left;
    ghost var s := a[..];
    assert s[j] == a[j];
    LiveOrNull(t, s, j, left, was);
    MaskedTag(t, s[j]);
    if Removable(t, a[j].tag) {
      ProgressRemove(t, s, j, left, was);
      a[j] := a[j].(tag := DT_NULL);
      a[j], a[last] := a[last], a[j];
      assert a[..] == Swapped(s, j, left);
      j', last', left' := Wrap(j - 1), Wrap(last - 1), left - 1;
    } else {
      if j < left {
        ProgressKeep(t, s, j, left, was);
      }
      if a[j].tag == DT_FLAGS_1 {
        var masked := Masked(t, a[j]);
        if masked.val != a[j].val {
          a[j] := masked;
        }
      }
      assert j < left ==> a[..] == s[j := Masked(t, s[j])];
    }
  }

  /** The dynamic section loop of process_elf. */
  method Clean(a: array<Entry>, t: Target) returns (ghost left: nat)
    requires 0 < a.Length < 0x1_0000_0000
    modifies a
    ensures NullTail(a[..], left) && Settled(t, a[..])
    ensures multiset(a[..left]) == multiset(Survivors(t, old(a[..LiveCount(a[..])])))
    ensures NoNull(old(a[..LiveCount(a[..])])) ==> NoNull(a[..left])
    ensures Settled(t, old(a[..])) ==> a[..] == old(a[..])
    ensures forall i :: 0 <= i < a.Length ==> Tolerated(t, a[i].tag)
  {
    hide Removable, Masked, Survivors, Progress, Settled, LiveCount, NoNull;
    ghost var live := LiveCount(a[..]);
    var last := LastNonNull(a);
    left := live;
    ghost var was := multiset(Survivors(t, a[..live]));
    assert a[..live] == a[..][..live];
    ProgressStart(t, a[..], live);
    var j: nat := 0;
    while j < a.Length
      invariant At(t, a[..], j, last, left, was)
      invariant Settled(t, old(a[..])) ==> a[..] == old(a[..])
      decreases a.Length + left - j
    {
      j, last, left := Visit(a, t, j, last, left, was);
      j := Wrap(j + 1);
    }
    ProgressDone(t, a[..], left, was);
    ProgressTail(t, a[..], left, was);
    assert a[..left] == a[..][..left];
    SettledTolerates(t, a[..]);
    if NoNull(old(a[..live])) {
      SurvivorsNoNull(t, old(a[..live]));
      SameEntriesNoNull(a[..left], Survivors(t, old(a[..live])));
    }
  }

  lemma SettledTolerates(t: Target, s: seq<Entry>)
    requires Settled(t, s)
    ensures forall i :: 0 <= i < |s| ==> Tolerated(t, s[i].tag)
  {
  }

  lemma ProgressTail(t: Target, s: seq<Entry>, left: nat, was: multiset<Entry>)
    requires Progress(t, s, left, left, was)
    ensures NullTail(s, left)
  {
  }

  lemma MaskedTag(t: Target, e: Entry)
    ensures Masked(t, e).tag == e.tag && (e.tag != DT_FLAGS_1 ==> Masked(t, e) == e)
  {
  }

  lemma LiveOrNull(t: Target, s: seq<Entry>, j: nat, left: nat, was: multiset<Entry>)
    requires j < |s| && left <= |s| && Progress(t, s, if j < left then j else left, left, was)
    ensures j >= left ==> !Removable(t, s[j].tag) && s[j].tag != DT_FLAGS_1
  {
  }
}
