/**
 Which users a tunnel applies to, given as commands of at most 18 ranges each: the
 complement of the excluded applications' uids, or the included uids one by one.
 */
module UserRanges {
  import opened Bits
  import opened Options

  /** A range of uids, both ends included. */
  datatype Range = Range(lo: nat, hi: nat)

  const PER_COMMAND: nat := 18
  const MAX_UID: nat := 99999

  ghost predicate Covered(rs: seq<Range>, x: nat) {
    exists i :: 0 <= i < |rs| && rs[i].lo <= x <= rs[i].hi
  }

  /** Not empty, and each above the one before: so no uid is in two of them. */
  ghost predicate Ascending(rs: seq<Range>) {
    && (forall i :: 0 <= i < |rs| ==> rs[i].lo <= rs[i].hi)
    && (forall i, j :: 0 <= i < j < |rs| ==> rs[i].hi < rs[j].lo)
  }

  /** What get_uid_list returns, up to its terminating zero. */
  ghost predicate UidList(uids: seq<nat>) {
    && (forall i :: 0 <= i < |uids| ==> 0 < uids[i] < 0xFFFF_FFFF)
    && (forall i, j :: 0 <= i < j < |uids| ==> uids[i] <= uids[j])
  }

  function Flat(commands: seq<seq<Range>>): seq<Range> {
    if commands == [] then [] else Flat(commands[..|commands| - 1]) + commands[|commands| - 1]
  }

  ghost predicate WellSized(commands: seq<seq<Range>>) {
    forall i :: 0 <= i < |commands| ==> 1 <= |commands[i]| <= PER_COMMAND
  }

  lemma FlatSnoc(commands: seq<seq<Range>>, rs: seq<Range>)
    ensures Flat(commands + [rs]) == Flat(commands) + rs
  {
    assert (commands + [rs])[..|commands|] == commands;
  }

  lemma CoveredSnoc(rs: seq<Range>, r: Range, x: nat)
    ensures Covered(rs + [r], x) <==> Covered(rs, x) || r.lo <= x <= r.hi
  {
    var more := rs + [r];
    if Covered(rs, x) {
      var i :| 0 <= i < |rs| && rs[i].lo <= x <= rs[i].hi;
      assert more[i].lo <= x <= more[i].hi;
    }
    if r.lo <= x <= r.hi {
      assert more[|rs|].lo <= x <= more[|rs|].hi;
    }
    if Covered(more, x) {
      var i :| 0 <= i < |more| && more[i].lo <= x <= more[i].hi;
      assert i < |rs| ==> rs[i] == more[i];
    }
  }

  /** The complement below `start`, once n uids have been passed. */
  ghost predicate Complement(rs: seq<Range>, uids: seq<nat>, n: nat, start: nat) {
    && n <= |uids| && start == (if n == 0 then 0 else uids[n - 1] + 1)
    && Ascending(rs) && (forall i :: 0 <= i < |rs| ==> rs[i].hi < start)
    && (forall x: nat :: Covered(rs, x) <==> x < start && x !in uids[..n])
  }

  /** Another uid: the gap before it is added, if there is one. */
  lemma NextUid(rs: seq<Range>, uids: seq<nat>, n: nat, start: nat)
    requires UidList(uids) && n < |uids| && Complement(rs, uids, n, start)
    ensures var more := if start > uids[n] - 1 then rs else rs + [Range(start, uids[n] - 1)];
      Complement(more, uids, n + 1, uids[n] + 1)
  {
    var u := uids[n];
    var more := if start > u - 1 then rs else rs + [Range(start, u - 1)];
    assert uids[..n + 1] == uids[..n] + [u];
    forall x: nat
      ensures Covered(more, x) <==> x < u + 1 && x !in uids[..n + 1]
    {
      if start <= u - 1 {
        CoveredSnoc(rs, Range(start, u - 1), x);
      }
      assert x in uids[..n] ==> x < start;
    }
  }

  /** The tail of the uids, written only when the next free uid is below the greatest. */
  lemma Tail(rs: seq<Range>, uids: seq<nat>, start: nat)
    requires UidList(uids) && Complement(rs, uids, |uids|, start) && start < MAX_UID
    ensures Ascending(rs + [Range(start, MAX_UID)])
    ensures forall x: nat :: Covered(rs + [Range(start, MAX_UID)], x) <==> x <= MAX_UID && x !in uids
  {
    assert uids[..|uids|] == uids;
    forall x: nat
      ensures Covered(rs + [Range(start, MAX_UID)], x) <==> x <= MAX_UID && x !in uids
    {
      CoveredSnoc(rs, Range(start, MAX_UID), x);
      assert x in uids ==> x < start;
    }
  }

  /** The greatest uid of the list lets the last range be written in full. */
  predicate TailWritten(uids: seq<nat>) {
    uids == [] || uids[|uids| - 1] + 1 < MAX_UID
  }

  lemma NextCount(count: nat)
    ensures var k := count % PER_COMMAND;
      (count + 1) % PER_COMMAND == if k + 1 == PER_COMMAND then 0 else k + 1
  {
    var k := count % PER_COMMAND;
    DivModUnique(count + 1, PER_COMMAND, count / PER_COMMAND + if k + 1 == PER_COMMAND then 1 else 0,
                 if k + 1 == PER_COMMAND then 0 else k + 1);
  }

  method AddRange(commands: seq<seq<Range>>, pending: seq<Range>, r: Range, count: nat)
    returns (commands': seq<seq<Range>>, pending': seq<Range>, count': nat)
    requires WellSized(commands) && |pending| == count % PER_COMMAND
    ensures WellSized(commands') && |pending'| == count' % PER_COMMAND
    ensures Flat(commands') + pending' == Flat(commands) + pending + [r]
  {
    hide Flat;
    pending', commands', count' := pending + [r], commands, count + 1;
    NextCount(count);
    if count' % PER_COMMAND == 0 {
      FlatSnoc(commands, pending');
      commands', pending' := commands + [pending'], [];
    }
    assert Flat(commands) + (pending + [r]) == Flat(commands) + pending + [r];
  }

  method Excluding(uids: seq<nat>) returns (commands: seq<seq<Range>>)
    requires UidList(uids)
    ensures WellSized(commands) && Ascending(Flat(commands))
    ensures TailWritten(uids) ==> forall x: nat :: Covered(Flat(commands), x) <==> x <= MAX_UID && x !in uids
    ensures !TailWritten(uids) ==> forall x: nat :: Covered(Flat(commands), x) <==> x <= uids[|uids| - 1] && x !in uids
  {
    hide Complement, Flat, Covered, WellSized;
    var start: nat, count: nat, pending: seq<Range> := 0, 0, [];
    commands := [];
    NothingYet(uids);
    for n := 0 to |uids|
      invariant WellSized(commands) && |pending| == count % PER_COMMAND
      invariant Complement(Flat(commands) + pending, uids, n, start)
      invariant start == if n == 0 then 0 else uids[n - 1] + 1
    {
      NextUid(Flat(commands) + pending, uids, n, start);
      if start <= uids[n] - 1 {
        commands, pending, count := AddRange(commands, pending, Range(start, uids[n] - 1), count);
      }
      start := uids[n] + 1;
    }
    ComplementDone(Flat(commands) + pending, uids, start);
    if start < MAX_UID {
      Tail(Flat(commands) + pending, uids, start);
      assert Flat(commands) + (pending + [Range(start, MAX_UID)]) == Flat(commands) + pending + [Range(start, MAX_UID)];
      pending := pending + [Range(start, MAX_UID)];
    }
    commands := LastCommand(commands, pending);
  }

  method LastCommand(commands: seq<seq<Range>>, pending: seq<Range>) returns (all: seq<seq<Range>>)
    requires WellSized(commands) && |pending| <= PER_COMMAND
    ensures WellSized(all) && Flat(all) == Flat(commands) + pending
  {
    all := commands;
    if pending != [] {
      FlatSnoc(commands, pending);
      all := commands + [pending];
    }
  }

  lemma NothingYet(uids: seq<nat>)
    ensures WellSized([]) && Flat([]) == [] && Complement(Flat([]) + [], uids, 0, 0)
  {
    assert Flat([]) + [] == [];
  }

  lemma ComplementDone(rs: seq<Range>, uids: seq<nat>, start: nat)
    requires Complement(rs, uids, |uids|, start)
    ensures Ascending(rs) && forall x: nat :: Covered(rs, x) <==> x < start && x !in uids
  {
    assert uids[..|uids|] == uids;
  }

  ghost predicate Singles(rs: seq<Range>, uids: seq<nat>) {
    |rs| == |uids| && forall i :: 0 <= i < |rs| ==> rs[i] == Range(uids[i], uids[i])
  }

  method Including(uids: seq<nat>) returns (commands: seq<seq<Range>>)
    ensures WellSized(commands) && Singles(Flat(commands), uids)
  {
    hide Flat, WellSized;
    var count: nat, pending: seq<Range> := 0, [];
    commands := [];
    NothingYet(uids);
    for n := 0 to |uids|
      invariant WellSized(commands) && |pending| == count % PER_COMMAND
      invariant Singles(Flat(commands) + pending, uids[..n])
    {
      commands, pending, count := AddRange(commands, pending, Range(uids[n], uids[n]), count);
    }
    commands := LastCommand(commands, pending);
  }

  /** None when both lists are given, which ends the program. */
  method SetUsers(excluded: Option<seq<nat>>, included: Option<seq<nat>>) returns (commands: Option<seq<seq<Range>>>)
    requires (excluded.Some? ==> UidList(excluded.value)) && (included.Some? ==> UidList(included.value))
    ensures commands.None? <==> excluded.Some? && included.Some?
    ensures commands.Some? ==> WellSized(commands.value)
    ensures commands.Some? && included.Some? ==> Singles(Flat(commands.value), included.value)
    ensures included.None? ==> Ascending(Flat(commands.value))
    ensures var uids := if excluded.Some? then excluded.value else [];
      included.None? && (uids == [] || uids[|uids| - 1] <= MAX_UID) ==>
        (ComplementComplete(uids) <==>
          forall x: nat :: Covered(Flat(commands.value), x) <==> x <= MAX_UID && x !in uids)
  {
    hide Flat, Covered;
    if excluded.Some? && included.Some? {
      return None;
    }
    var c;
    if excluded.Some? || included.None? {
      var uids := if excluded.Some? then excluded.value else [];
      c := Excluding(uids);
      CompleteExactly(uids, Flat(c));
    } else {
      c := Including(included.value);
    }
    return Some(c);
  }

  /** The only list of application uids for which the ranges fall short is one that ends with 99998. */
  predicate ComplementComplete(uids: seq<nat>) {
    uids == [] || (uids[|uids| - 1] <= MAX_UID && uids[|uids| - 1] != MAX_UID - 1)
  }

  /** What Excluding covers is the whole complement exactly when the list does not end with 99998. */
  lemma CompleteExactly(uids: seq<nat>, rs: seq<Range>)
    requires UidList(uids)
    requires TailWritten(uids) ==> forall x: nat :: Covered(rs, x) <==> x <= MAX_UID && x !in uids
    requires !TailWritten(uids) ==> forall x: nat :: Covered(rs, x) <==> x <= uids[|uids| - 1] && x !in uids
    ensures uids == [] || uids[|uids| - 1] <= MAX_UID ==>
      (ComplementComplete(uids) <==> forall x: nat :: Covered(rs, x) <==> x <= MAX_UID && x !in uids)
  {
    hide Covered;
    if uids != [] && uids[|uids| - 1] == MAX_UID - 1 {
      assert !Covered(rs, MAX_UID);
      assert MAX_UID !in uids;
    }
  }

  /** For the list [99998] the greatest uid is left out, although it is not excluded. */
  method LastUidLost() returns (commands: seq<seq<Range>>)
    ensures !Covered(Flat(commands), MAX_UID) && MAX_UID !in [MAX_UID - 1]
  {
    hide Flat, Covered;
    commands := Excluding([MAX_UID - 1]);
  }
}
