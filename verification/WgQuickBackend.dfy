/**
 The kernel backend: any number of tunnels, brought up and down by an external command
 that may fail at any step. A change that fails is undone from a snapshot.
 */
module WgQuickBackend {
  import opened Options
  import opened Tunnels

  type Running = map<Tunnel, Config>

  /** How a step goes: a late failure throws from the tunnel's callback, after the change. */
  datatype Fate = Works | FailsBefore | FailsAfter

  /** The step that made the call throw after it had changed something, if there was one. */
  datatype Late = NotLate | LateDown(tunnel: Tunnel) | LateUp

  /**
   The steps of a request: what goes down first, in order, and whether something then comes
   up. When one of them throws, those already down are brought back if `replays` is set;
   when all are down and the last step throws, `back` steps undo it.
   */
  datatype Plan = Plan(downs: seq<Tunnel>, up: bool, replays: bool, back: nat)

  /** The running tunnels in the order in which the map yields them. */
  ghost predicate Lists(entries: seq<Tunnel>, m: Running) {
    && (forall i, j :: 0 <= i < j < |entries| ==> entries[i] != entries[j])
    && (forall t :: t in entries <==> t in m)
  }

  /** The map without these tunnels. */
  function Without(m: Running, ts: seq<Tunnel>): Running {
    map t | t in m && t !in ts :: m[t]
  }

  /** The map with these tunnels as they are in another. */
  function With(m: Running, snapshot: Running, ts: seq<Tunnel>): Running {
    m + map t | t in snapshot && t in ts :: snapshot[t]
  }

  /** Only what was there before, and possibly what was asked for. */
  ghost predicate FromBefore(a: Running, b: Running, t: Tunnel, config: Option<Config>) {
    forall u :: u in a ==> (u in b && a[u] == b[u]) || (u == t && config == Some(a[u]))
  }

  class WgQuickBackend {
    var runningConfigs: Running
    var multipleTunnels: bool
    /** How many steps have been taken; the environment decides how each of them goes. */
    var steps: nat
    const fate: nat -> Fate

    constructor (fate: nat -> Fate)
      ensures runningConfigs == map[] && !multipleTunnels && steps == 0 && this.fate == fate
    {
      this.fate := fate;
      runningConfigs, multipleTunnels, steps := map[], false, 0;
    }

    /** setStateInternal: whether it returns, and whether it has changed the map. */
    method Step(t: Tunnel, config: Option<Config>, up: bool) returns (ok: bool, changed: bool)
      modifies this`runningConfigs, this`steps
      ensures changed <==> config.Some? && fate(old(steps)) != FailsBefore
      ensures runningConfigs == if !changed then old(runningConfigs)
        else if up then old(runningConfigs)[t := config.value] else old(runningConfigs) - {t}
      ensures ok <==> config.Some? && fate(old(steps)) == Works
      ensures steps == old(steps) + 1
    {
      steps := steps + 1;
      if config.None? || fate(steps - 1) == FailsBefore {
        return false, false;
      }
      runningConfigs := if up then runningConfigs[t := config.value] else runningConfigs - {t};
      return fate(steps - 1) == Works, true;
    }

    ghost predicate AllWorked(from: nat, to: nat) {
      forall i :: from <= i < to ==> fate(i) == Works
    }

    /** Some step failed: late, or before it had changed anything. */
    ghost predicate Failed(late: bool, from: nat, to: nat) {
      exists i :: from <= i < to && fate(i) == if late then FailsAfter else FailsBefore
    }

    /** Of these steps the last one failed, and one before it. */
    ghost predicate FailedTwice(from: nat, to: nat) {
      exists i :: from <= i < to - 1 && fate(i) != Works && fate(to - 1) != Works
    }

    /** How many of the next n steps work before the first that does not. */
    function Worked(from: nat, n: nat): (k: nat)
      ensures k <= n
      decreases n
    {
      if n == 0 || fate(from) != Works then 0 else 1 + Worked(from + 1, n - 1)
    }

    /** The step that throws after its change: taking these down one by one, and then bringing one up. */
    function LateStep(from: nat, downs: seq<Tunnel>, up: bool): Late
      decreases |downs|
    {
      if downs == [] then
        if up && fate(from) == FailsAfter then LateUp else NotLate
      else
        match fate(from)
        case Works => LateStep(from + 1, downs[1..], up)
        case FailsBefore => NotLate
        case FailsAfter => LateDown(downs[0])
    }

    /** The first step that does not work decides. */
    lemma {:induction false} FirstFailure(from: nat, downs: seq<Tunnel>, up: bool, n: nat)
      requires n <= |downs| && AllWorked(from, from + n) && (n < |downs| ==> fate(from + n) != Works)
      ensures Worked(from, |downs|) == n
      ensures n < |downs| ==>
        LateStep(from, downs, up) == if fate(from + n) == FailsAfter then LateDown(downs[n]) else NotLate
      ensures n == |downs| ==>
        LateStep(from, downs, up) == if up && fate(from + n) == FailsAfter then LateUp else NotLate
      decreases n
    {
      if n > 0 {
        FirstFailure(from + 1, downs[1..], up, n - 1);
      }
    }

    lemma {:induction false} WorkedThen(from: nat, n: nat)
      ensures var k := Worked(from, n); AllWorked(from, from + k) && (k < n ==> fate(from + k) != Works)
      decreases n
    {
      if n > 0 && fate(from) == Works {
        WorkedThen(from + 1, n - 1);
      }
    }

    /** Whether every step that undoes a failed request works. */
    ghost predicate Undoes(from: nat, plan: Plan) {
      var k := Worked(from, |plan.downs|);
      AllWorked(from + k + 1, from + k + 1 + if k == |plan.downs| then plan.back else if plan.replays then k else 0)
    }

    /** Brings tunnels of the snapshot up again, one after the other, until one fails. */
    method BringBack(snapshot: Running, ts: seq<Tunnel>) returns (ok: bool)
      requires forall i :: 0 <= i < |ts| ==> ts[i] in snapshot
      modifies this`runningConfigs, this`steps
      ensures ok ==> runningConfigs == With(old(runningConfigs), snapshot, ts)
      ensures forall u :: u in runningConfigs && !(u in snapshot && runningConfigs[u] == snapshot[u]) ==>
        u in old(runningConfigs) && runningConfigs[u] == old(runningConfigs)[u]
      ensures old(steps) <= steps && (!ok ==> old(steps) < steps && fate(steps - 1) != Works)
      ensures ok <==> AllWorked(old(steps), old(steps) + |ts|)
    {
      hide With;
      WithNone(runningConfigs, snapshot);
      assert ts[..0] == [];
      for k := 0 to |ts|
        invariant steps == old(steps) + k && runningConfigs == With(old(runningConfigs), snapshot, ts[..k])
        invariant AllWorked(old(steps), steps)
      {
        WithNext(old(runningConfigs), snapshot, ts, k);
        WithShape(old(runningConfigs), snapshot, ts[..k]);
        WithShape(old(runningConfigs), snapshot, ts[..k + 1]);
        var stepped, changed := Step(ts[k], Some(snapshot[ts[k]]), true);
        if !stepped {
          return false;
        }
      }
      assert ts[..|ts|] == ts;
      WithShape(old(runningConfigs), snapshot, ts);
      return true;
    }

    /** Takes all running tunnels down, in some order; brings those back that had been taken down when one throws. */
    method TakeAllDown(snapshot: Running, order: seq<Tunnel>) returns (ok: bool, undone: bool, late: Late)
      requires runningConfigs == snapshot && Lists(order, snapshot)
      modifies this`runningConfigs, this`steps
      ensures ok ==> undone && runningConfigs == map[]
      ensures !ok && undone ==> runningConfigs == if late.LateDown? then snapshot - {late.tunnel} else snapshot
      ensures !late.LateUp? && (late.LateDown? ==> !ok && late.tunnel in snapshot)
      ensures forall u :: u in runningConfigs ==> u in snapshot && runningConfigs[u] == snapshot[u]
      ensures old(steps) <= steps && (!ok ==> Failed(late != NotLate, old(steps), steps))
      ensures ok ==> AllWorked(old(steps), steps)
      ensures !undone ==> !ok && FailedTwice(old(steps), steps)
      // which step throws, and whether it is undone, is a matter of the fates
      ensures ok ==> steps == old(steps) + |order|
      ensures ok <==> Worked(old(steps), |order|) == |order|
      ensures late == if ok then NotLate else LateStep(old(steps), order, false)
      ensures !ok ==> (undone <==> Undoes(old(steps), Plan(order, false, true, 0)))
    {
      hide Lists, With, Without, LateStep, Worked;
      AllGone(snapshot, order);
      WithoutNone(snapshot);
      var n := 0;
      assert order[..0] == [];
      while n < |order|
        invariant 0 <= n <= |order| && runningConfigs == Without(snapshot, order[..n])
        invariant steps == old(steps) + n && AllWorked(old(steps), steps)
      {
        WithoutNext(snapshot, order, n);
        WithoutPart(snapshot, order[..n]);
        WithoutPart(snapshot, order[..n + 1]);
        var stepped, changed := Step(order[n], Some(snapshot[order[n]]), false);
        if !stepped {
          ghost var failed := steps - 1;
          FirstFailure(old(steps), order, false, n);
          undone := BringBack(snapshot, order[..n]);
          BroughtBack(snapshot, order, n, changed);
          assert fate(failed) == if changed then FailsAfter else FailsBefore;
          return false, undone, if changed then LateDown(order[n]) else NotLate;
        }
        n := n + 1;
      }
      assert order[..n] == order;
      FirstFailure(old(steps), order, false, n);
      return true, true, NotLate;
    }

    /** The state asked for, once TOGGLE is resolved. */
    static function Wanted(state: State, isUp: bool): State {
      if state != TOGGLE then state else if isUp then DOWN else UP
    }

    /** Nothing is to be done: the tunnel is already as asked. */
    predicate Already(t: Tunnel, state: State, config: Option<Config>, isUp: bool)
      reads this
    {
      (Wanted(state, isUp) == UP && isUp && t in runningConfigs && Some(runningConfigs[t]) == config)
      || (Wanted(state, isUp) == DOWN && !isUp)
    }

    /** Whether the roll-back of a tunnel that could not be brought up sets its entry again. */
    predicate SetsAgain(t: Tunnel, isUp: bool)
      reads this
    {
      t in runningConfigs && (isUp || !multipleTunnels)
    }

    /** What an exception leaves when no step of the roll-back fails. */
    function AfterThrow(t: Tunnel, config: Option<Config>, isUp: bool, late: Late): Running
      reads this
    {
      match late
      case NotLate => runningConfigs
      case LateDown(u) => runningConfigs - {u}
      case LateUp => if SetsAgain(t, isUp) || config.None? then runningConfigs else runningConfigs[t := config.value]
    }

    /** The steps of a request, once TOGGLE is resolved; without any configuration the tunnel itself has none. */
    function PlanOf(t: Tunnel, want: State, config: Option<Config>, isUp: bool, order: seq<Tunnel>): Plan
      reads this
    {
      var self := if t in runningConfigs || config.Some? then [t] else [];
      if want != UP then Plan(self, false, false, 0)
      else if isUp then Plan(self, config.Some?, false, if t in runningConfigs then 1 else 0)
      else if !multipleTunnels then Plan(order, config.Some?, true, |order|)
      else Plan([], config.Some?, false, 0)
    }

    /** Some step of the plan does not work, or lacks a configuration. */
    predicate Breaks(from: nat, want: State, plan: Plan) {
      || Worked(from, |plan.downs|) < |plan.downs|
      || (if want == UP then !plan.up || fate(from + |plan.downs|) != Works else plan.downs == [])
    }

    /** The same of a request made now. */
    ghost predicate BreaksNow(t: Tunnel, want: State, config: Option<Config>, isUp: bool, order: seq<Tunnel>)
      reads this
    {
      Breaks(steps, want, PlanOf(t, want, config, isUp, order))
    }

    ghost predicate UndoesNow(t: Tunnel, want: State, config: Option<Config>, isUp: bool, order: seq<Tunnel>)
      reads this
    {
      Undoes(steps, PlanOf(t, want, config, isUp, order))
    }

    ghost function LateNow(t: Tunnel, want: State, config: Option<Config>, isUp: bool, order: seq<Tunnel>): Late
      reads this
    {
      var plan := PlanOf(t, want, config, isUp, order);
      LateStep(steps, plan.downs, plan.up)
    }

    /** What has to go first: all running tunnels, or the tunnel itself. */
    method Clear(t: Tunnel, config: Option<Config>, isUp: bool, order: seq<Tunnel>)
      returns (ok: bool, undone: bool, late: Late)
      requires Lists(order, runningConfigs)
      modifies this`runningConfigs, this`steps
      ensures ok ==>
        undone && late == NotLate && runningConfigs == Cleared(old(runningConfigs), t, isUp, multipleTunnels)
      ensures !ok && undone ==> runningConfigs == old(AfterThrow(t, config, isUp, late)) && !late.LateUp?
      ensures FromBefore(runningConfigs, old(runningConfigs), t, config)
      ensures old(steps) <= steps && (!ok ==> config.None? || Failed(late != NotLate, old(steps), steps))
      ensures ok ==> AllWorked(old(steps), steps)
      ensures late.LateDown? ==> isUp || late.tunnel in old(runningConfigs)
      ensures !undone ==> !ok && FailedTwice(old(steps), steps)
      ensures var plan := old(PlanOf(t, UP, config, isUp, order));
        && (ok <==> Worked(old(steps), |plan.downs|) == |plan.downs| && (isUp ==> plan.downs != []))
        && (ok ==> steps == old(steps) + |plan.downs|)
        && (!ok ==> late == LateStep(old(steps), plan.downs, plan.up) && (undone <==> Undoes(old(steps), plan)))
    {
      hide Lists;
      ok, undone, late := true, true, NotLate;
      if !multipleTunnels && !isUp {
        ghost var k := Worked(steps, |order|);
        WorkedThen(steps, |order|);
        FirstFailure(steps, order, config.Some?, k);
        FirstFailure(steps, order, false, k);
        ok, undone, late := TakeAllDown(runningConfigs, order);
      } else if isUp {
        var changed;
        ok, changed := Step(t, if t in runningConfigs then Some(runningConfigs[t]) else config, false);
        late := if changed && !ok then LateDown(t) else NotLate;
      }
    }

    /** The branch of setState that brings the tunnel up; false when it throws. */
    method Raise(t: Tunnel, config: Option<Config>, isUp: bool, order: seq<Tunnel>)
      returns (ok: bool, undone: bool, late: Late)
      requires Lists(order, runningConfigs)
      modifies this`runningConfigs, this`steps
      ensures !ok && undone ==> runningConfigs == old(AfterThrow(t, config, isUp, late))
      ensures FromBefore(runningConfigs, old(runningConfigs), t, config)
      ensures !ok ==> config.None? || Failed(late != NotLate, old(steps), steps)
      ensures ok ==> old(steps) < steps && AllWorked(old(steps), steps)
      ensures late.LateDown? ==> isUp || late.tunnel in old(runningConfigs)
      ensures !undone ==> !ok && old(steps) < steps && fate(steps - 1) != Works
      ensures !undone ==> config.None? || FailedTwice(old(steps), steps)
      ensures ok ==> undone && late == NotLate && config.Some?
      ensures ok ==>
        runningConfigs == (if multipleTunnels || isUp then old(runningConfigs) else map[])[t := config.value]
      ensures var plan := old(PlanOf(t, UP, config, isUp, order));
        && (ok <==> !Breaks(old(steps), UP, plan))
        && (!ok ==> late == LateStep(old(steps), plan.downs, plan.up) && (undone <==> Undoes(old(steps), plan)))
    {
      hide Lists, Worked, LateStep, AllWorked, Failed, FromBefore;
      var snapshot := runningConfigs;
      ghost var plan := PlanOf(t, UP, config, isUp, order);
      WorkedThen(steps, |plan.downs|);
      FirstFailure(steps, plan.downs, plan.up, Worked(steps, |plan.downs|));
      ok, undone, late := Clear(t, config, isUp, order);
      if !ok {
        return;
      }
      ghost var cleared := steps;
      ok, undone, late := Lift(t, config, isUp, order, snapshot);
      StepsJoined(old(steps), cleared, steps);
    }

    /** What the last step says of all of them. */
    lemma StepsJoined(from: nat, mid: nat, to: nat)
      requires from <= mid < to
      ensures AllWorked(from, mid) && fate(mid) == Works ==> AllWorked(from, mid + 1)
      ensures fate(mid) == FailsAfter ==> Failed(true, from, to)
      ensures fate(mid) == FailsBefore ==> Failed(false, from, to)
      ensures mid < to - 1 && fate(mid) != Works && fate(to - 1) != Works ==> FailedTwice(from, to)
    {
    }

    /** The last step of bringing up, when all that had to go is down, and its roll-back. */
    method Lift(t: Tunnel, config: Option<Config>, isUp: bool, order: seq<Tunnel>, snapshot: Running)
      returns (ok: bool, undone: bool, late: Late)
      requires Lists(order, snapshot) && runningConfigs == Cleared(snapshot, t, isUp, multipleTunnels)
      modifies this`runningConfigs, this`steps
      ensures ok <==> config.Some? && fate(old(steps)) == Works
      ensures ok ==> undone && late == NotLate && runningConfigs == old(runningConfigs)[t := config.value]
      ensures ok ==> steps == old(steps) + 1
      ensures late == if config.Some? && fate(old(steps)) == FailsAfter then LateUp else NotLate
      ensures !ok && undone && late == LateUp && !(t in snapshot && (isUp || !multipleTunnels)) ==>
        runningConfigs == snapshot[t := config.value]
      ensures !ok && undone && (late != LateUp || (t in snapshot && (isUp || !multipleTunnels))) ==>
        runningConfigs == snapshot
      ensures FromBefore(runningConfigs, snapshot, t, config)
      ensures old(steps) < steps && (!undone ==> old(steps) < steps - 1 && fate(steps - 1) != Works)
      ensures !ok ==> (undone <==> AllWorked(old(steps) + 1, old(steps) + 1 +
        if isUp then (if t in snapshot then 1 else 0) else if multipleTunnels then 0 else |order|))
    {
      hide Lists, Replayed, AllWorked;
      var changed;
      undone, late := true, NotLate;
      ok, changed := Step(t, config, true);
      if !ok {
        late := if changed then LateUp else NotLate;
        undone := RollBack(t, if t in snapshot then Some(snapshot[t]) else None, isUp, snapshot, order);
        RolledBack(snapshot, t, config, isUp, multipleTunnels, order, changed);
      }
    }

    /** After a tunnel could not be brought up: its old configuration, or those of all that were taken down. */
    method RollBack(t: Tunnel, originalConfig: Option<Config>, isUp: bool, snapshot: Running, order: seq<Tunnel>)
      returns (undone: bool)
      requires Lists(order, snapshot) && originalConfig == if t in snapshot then Some(snapshot[t]) else None
      modifies this`runningConfigs, this`steps
      ensures undone ==> runningConfigs == Replayed(old(runningConfigs), snapshot, t, isUp, multipleTunnels, order)
      ensures forall u :: u in runningConfigs && !(u in snapshot && runningConfigs[u] == snapshot[u]) ==>
        u in old(runningConfigs) && runningConfigs[u] == old(runningConfigs)[u]
      ensures old(steps) <= steps && (!undone ==> old(steps) < steps && fate(steps - 1) != Works)
      ensures undone <==> AllWorked(old(steps),
        old(steps) + if isUp then (if t in snapshot then 1 else 0) else if multipleTunnels then 0 else |order|)
    {
      undone := true;
      if isUp && originalConfig.Some? {
        var changed;
        undone, changed := Step(t, originalConfig, true);
      }
      if undone && !multipleTunnels && !isUp {
        undone := BringBack(snapshot, order);
      }
    }

    /**
     `isUp` is what the system reports of the tunnel, `tools` whether the tools are
     available, `order` the order of the map's entries; `undone` is false when a step of
     the roll-back failed, and `late` is the step that threw after its change.
     */
    method SetState(t: Tunnel, state: State, config: Option<Config>, isUp: bool, tools: bool, order: seq<Tunnel>)
      returns (r: Result, undone: bool, late: Late)
      requires Lists(order, runningConfigs)
      modifies this`runningConfigs, this`steps
      // an exception leaves everything as it was, unless undoing failed too or the exception came late
      ensures r == Threw && undone ==> runningConfigs == old(AfterThrow(t, config, isUp, late))
      ensures r == Threw && undone && late == NotLate ==> runningConfigs == old(runningConfigs)
      ensures FromBefore(runningConfigs, old(runningConfigs), t, config)
      ensures r == Threw ==> !tools || config.None? || Failed(late != NotLate, old(steps), steps)
      ensures r != Threw && !old(Already(t, state, config, isUp)) ==> old(steps) < steps && AllWorked(old(steps), steps)
      ensures late.LateDown? ==> isUp || late.tunnel in old(runningConfigs)
      ensures !undone ==> r == Threw && old(steps) < steps && fate(steps - 1) != Works
      ensures !undone ==> config.None? || FailedTwice(old(steps), steps)
      ensures r != Threw ==> r == Returned(Wanted(state, isUp))
      ensures old(Already(t, state, config, isUp)) ==> r != Threw && runningConfigs == old(runningConfigs)
      ensures r != Threw && !old(Already(t, state, config, isUp)) && Wanted(state, isUp) == DOWN ==>
        runningConfigs == old(runningConfigs) - {t}
      // without multiple tunnels, bringing one up from down leaves exactly that one
      ensures r != Threw && !old(Already(t, state, config, isUp)) && Wanted(state, isUp) == UP ==>
        config.Some?
        && runningConfigs == (if multipleTunnels || isUp then old(runningConfigs) else map[])[t := config.value]
      // whether it throws, which step does so late and whether all is undone is decided by the fates
      ensures var want := Wanted(state, isUp);
        r == Threw <==>
          !old(Already(t, state, config, isUp))
          && ((want == UP && !tools) || old(BreaksNow(t, want, config, isUp, order)))
      ensures var want := Wanted(state, isUp);
        r == Threw && (tools || want != UP) ==>
          late == old(LateNow(t, want, config, isUp, order))
          && (undone <==> old(UndoesNow(t, want, config, isUp, order)))
      // so this is when an exception leaves everything as it was
      ensures var want := Wanted(state, isUp);
        r == Threw && (tools || want != UP) && old(UndoesNow(t, want, config, isUp, order)) ==>
          (runningConfigs == old(runningConfigs) <==>
            old(Harmless(runningConfigs, t, config, SetsAgain(t, isUp), LateNow(t, want, config, isUp, order))))
    {
      hide Lists, Worked, LateStep, Harmless;
      ThrowExactly(this, t, config, isUp, LateNow(t, Wanted(state, isUp), config, isUp, order));
      var originalConfig := if t in runningConfigs then Some(runningConfigs[t]) else None;
      var want := if state == TOGGLE then (if isUp then DOWN else UP) else state;
      undone, late := true, NotLate;
      if (want == UP && isUp && originalConfig.Some? && originalConfig == config) || (want == DOWN && !isUp) {
        return Returned(if isUp then UP else DOWN), undone, late;
      }
      var ok, changed;
      if want == UP {
        if !tools {
          return Threw, undone, late;
        }
        ok, undone, late := Raise(t, config, isUp, order);
      } else {
        ghost var plan := PlanOf(t, DOWN, config, isUp, order);
        WorkedThen(steps, |plan.downs|);
        FirstFailure(steps, plan.downs, plan.up, Worked(steps, |plan.downs|));
        ok, changed := Step(t, if originalConfig.None? then config else originalConfig, false);
        late := if changed && !ok then LateDown(t) else NotLate;
      }
      return if ok then Returned(want) else Threw, undone, late;
    }
  }

  function Cleared(m: Running, t: Tunnel, isUp: bool, multiple: bool): Running {
    if !multiple && !isUp then map[] else if isUp then m - {t} else m
  }

  function Replayed(m: Running, snapshot: Running, t: Tunnel, isUp: bool, multiple: bool, order: seq<Tunnel>): Running {
    if isUp && t in snapshot then m[t := snapshot[t]]
    else if !multiple && !isUp then With(m, snapshot, order)
    else m
  }

  lemma WithNone(m: Running, snapshot: Running)
    ensures With(m, snapshot, []) == m
  {
  }

  /** Every entry comes from one of the two maps. */
  lemma WithShape(m: Running, snapshot: Running, ts: seq<Tunnel>)
    ensures var w := With(m, snapshot, ts);
      forall u :: u in w && !(u in snapshot && w[u] == snapshot[u]) ==> u in m && w[u] == m[u]
  {
  }

  lemma WithNext(m: Running, snapshot: Running, ts: seq<Tunnel>, k: nat)
    requires k < |ts| && ts[k] in snapshot
    ensures With(m, snapshot, ts[..k])[ts[k] := snapshot[ts[k]]] == With(m, snapshot, ts[..k + 1])
  {
    assert ts[..k + 1] == ts[..k] + [ts[k]];
  }

  lemma WithoutNone(m: Running)
    ensures Without(m, []) == m
  {
  }

  lemma WithoutPart(m: Running, ts: seq<Tunnel>)
    ensures forall u :: u in Without(m, ts) ==> u in m && Without(m, ts)[u] == m[u]
  {
  }

  lemma WithoutNext(m: Running, ts: seq<Tunnel>, n: nat)
    requires n < |ts|
    ensures Without(m, ts[..n]) - {ts[n]} == Without(m, ts[..n + 1])
  {
    assert ts[..n + 1] == ts[..n] + [ts[n]];
  }

  /** Bringing back the first n, after the next was or was not taken down. */
  lemma BroughtBack(snapshot: Running, order: seq<Tunnel>, n: nat, changed: bool)
    requires Lists(order, snapshot) && n < |order|
    ensures var base := Without(snapshot, if changed then order[..n + 1] else order[..n]);
      With(base, snapshot, order[..n]) == if changed then snapshot - {order[n]} else snapshot
  {
    assert order[..n + 1] == order[..n] + [order[n]];
    assert order[n] !in order[..n];
  }

  lemma AllGone(m: Running, ts: seq<Tunnel>)
    requires Lists(ts, m)
    ensures Without(m, ts) == map[] && forall i :: 0 <= i < |ts| ==> ts[i] in m
  {
  }

  /** The map before the roll-back, and what the roll-back makes of it. */
  lemma RolledBack(old': Running, t: Tunnel, config: Option<Config>, isUp: bool, multiple: bool, order: seq<Tunnel>,
                   changed: bool)
    requires Lists(order, old') && (changed ==> config.Some?)
    ensures var start := Cleared(old', t, isUp, multiple);
      var m := if changed then start[t := config.value] else start;
      Replayed(m, old', t, isUp, multiple, order) ==
        if changed && !(t in old' && (isUp || !multiple)) then old'[t := config.value] else old'
  {
  }

  /** When an exception leaves everything as it was, if no step of the roll-back fails. */
  predicate Harmless(running: Running, t: Tunnel, config: Option<Config>, setsAgain: bool, late: Late) {
    match late
    case NotLate => true
    case LateDown(u) => u !in running
    case LateUp => setsAgain || config.None? || (t in running && Some(running[t]) == config)
  }

  /** The exact condition, over the call, the running tunnels and the step that threw. */
  lemma ThrowExactly(b: WgQuickBackend, t: Tunnel, config: Option<Config>, isUp: bool, late: Late)
    ensures b.AfterThrow(t, config, isUp, late) == b.runningConfigs <==>
      Harmless(b.runningConfigs, t, config, b.SetsAgain(t, isUp), late)
  {
    if late.LateUp? && config.Some? && !b.SetsAgain(t, isUp) {
      assert b.runningConfigs[t := config.value][t] == config.value;
    }
  }

  /** A first tunnel whose callback throws: the call throws, and yet the tunnel is among the running ones. */
  method LateCallback() returns (r: Result, running: Running)
    ensures r == Threw && running == map[Tunnel(0) := Config(0)]
  {
    var b := new WgQuickBackend(i => if i == 0 then FailsAfter else Works);
    assert b.fate(0) == FailsAfter;
    var undone, late;
    r, undone, late := b.SetState(Tunnel(0), UP, Some(Config(0)), false, true, []);
    running := b.runningConfigs;
  }
}
