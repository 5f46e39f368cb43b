/**
 The userspace backend: at most one tunnel, held as a handle into a table of the Go
 library. Every call into the platform may fail; `Fate` says where.
 */
module GoBackend {
  import opened Options
  import opened Tunnels

  /** How an attempt to bring a tunnel up goes. */
  datatype UpFate =
    | Works
    | NoService         // not authorised, or the service does not start
    | Refused           // no resolution, no interface, or the builder objects
    | ActivationFails   // the Go library returns an error
    | FailsAfter        // the tunnel is active when a later call throws

  /** How taking a tunnel down goes; it is always down afterwards. */
  datatype DownFate = Quiet | Throws

  datatype Fates = Fates(down: DownFate, up: UpFate, rollback: UpFate)

  /** A device of the Go library: what it was made for. */
  datatype Device = Device(tunnel: Tunnel, config: Config)

  const MAX_INT32: int := 0x7FFF_FFFF

  /** The handle table of the Go library. */
  class HandleTable {
    var handles: map<int, Device>

    constructor ()
      ensures handles == map[]
    {
      handles := map[];
    }

    /** wgTurnOn: the lowest free handle, or -1. */
    method TurnOn(d: Device, works: bool) returns (h: int)
      modifies this
      ensures h == -1 ==> handles == old(handles)
      ensures h != -1 ==> 0 <= h < MAX_INT32 && h !in old(handles) && handles == old(handles)[h := d]
      ensures forall k :: 0 <= k < h ==> k in old(handles)
      ensures h == -1 <==> !works || forall k :: 0 <= k < MAX_INT32 ==> k in old(handles)
    {
      if !works {
        return -1;
      }
      var i := 0;
      while i < MAX_INT32 && i in handles
        invariant 0 <= i <= MAX_INT32 && forall k :: 0 <= k < i ==> k in handles
      {
        i := i + 1;
      }
      if i == MAX_INT32 {
        return -1;
      }
      handles := handles[i := d];
      return i;
    }

    method TurnOff(h: int)
      modifies this
      ensures handles == old(handles) - {h}
    {
      if h !in handles {
        return;
      }
      handles := handles - {h};
    }
  }

  class GoBackend {
    const table: HandleTable
    var currentTunnel: Option<Tunnel>
    var currentConfig: Option<Config>
    var currentHandle: int
    /** The running service knows this backend as its owner. */
    var owned: bool

    constructor ()
      ensures Valid() && fresh(table) && Current().None?
    {
      table := new HandleTable();
      currentTunnel, currentConfig, currentHandle, owned := None, None, -1, false;
    }

    /** All set or all unset, and the live handles are exactly the current one. */
    ghost predicate Valid()
      reads this, table
    {
      && (currentTunnel.None? <==> currentHandle == -1) && (currentConfig.None? <==> currentHandle == -1)
      && (currentHandle == -1 ==> table.handles == map[])
      && (currentHandle != -1 ==> owned && currentHandle >= 0)
      && (currentHandle != -1 ==>
            table.handles == map[currentHandle := Device(currentTunnel.value, currentConfig.value)])
    }

    /** What is up. */
    ghost function Current(): Option<Device>
      reads this
    {
      if currentTunnel.Some? && currentConfig.Some?
      then Some(Device(currentTunnel.value, currentConfig.value)) else None
    }

    function GetState(t: Tunnel): State
      reads this
    {
      if currentTunnel == Some(t) then UP else DOWN
    }

    /** setStateInternal with UP; false when it throws. */
    method BringUp(t: Tunnel, config: Option<Config>, fate: UpFate) returns (ok: bool)
      requires Valid()
      modifies this, table
      ensures Valid()
      ensures old(Current()).Some? ==> Current() == old(Current())
      ensures old(Current()).None? ==>
        Current() == if config.Some? && fate in {Works, FailsAfter} then Some(Device(t, config.value)) else None
      ensures old(Current()).None? ==> (ok <==> config.Some? && fate == Works)
    {
      if config.None? || fate == NoService {
        return false;
      }
      owned := true;
      if currentHandle != -1 {
        return true;
      }
      if fate == Refused {
        return false;
      }
      currentHandle := table.TurnOn(Device(t, config.value), fate != ActivationFails);
      assert 0 !in old(table.handles);
      if currentHandle < 0 {
        return false;
      }
      currentTunnel, currentConfig := Some(t), config;
      return fate != FailsAfter;
    }

    /** setStateInternal with DOWN. */
    method TakeDown(fate: DownFate) returns (ok: bool)
      requires Valid()
      modifies this, table
      ensures Valid() && Current().None?
      ensures ok <==> old(Current()).None? || fate == Quiet
    {
      if currentHandle == -1 {
        return true;
      }
      var handleToClose := currentHandle;
      currentTunnel, currentHandle, currentConfig := None, -1, None;
      table.TurnOff(handleToClose);
      return fate == Quiet;
    }

    /** The state asked for, once TOGGLE is resolved. */
    function Wanted(t: Tunnel, state: State): State
      reads this
    {
      if state != TOGGLE then state else if GetState(t) == UP then DOWN else UP
    }

    /** The state and the configuration are already as asked. */
    predicate Nothing(t: Tunnel, state: State, config: Option<Config>)
      reads this
    {
      Wanted(t, state) == GetState(t) && currentTunnel == Some(t) && currentConfig == config
    }

    method SetState(t: Tunnel, state: State, config: Option<Config>, fates: Fates) returns (r: Result)
      requires Valid()
      modifies this, table
      ensures Valid()
      // taking down
      ensures old(Wanted(t, state)) == DOWN ==>
        Current() == (if old(currentTunnel) == Some(t) then None else old(Current()))
        && (r == Threw <==> old(currentTunnel) == Some(t) && fates.down == Throws)
        && (r != Threw ==> r == Returned(DOWN))
      // bringing up: a normal return means that exactly this is up
      ensures old(Wanted(t, state)) == UP && r != Threw ==>
        config.Some? && Current() == Some(Device(t, config.value)) && r == Returned(UP)
      ensures old(Wanted(t, state)) == UP ==>
        (r == Threw <==> !old(Nothing(t, state, config)) && Fails(old(Current()).Some?, config, fates))
      // a failed switch ends with the original, with nothing, or,
      // exactly when the failure came too late, with the new tunnel
      ensures old(Wanted(t, state)) == UP && r == Threw ==> Current() == AfterFailure(old(Current()), t, config, fates)
      ensures (old(Wanted(t, state)) == UP && r == Threw &&
               (config.Some? ==> old(Current()) != Some(Device(t, config.value)))) ==>
        (Current() in {None, old(Current())} <==> !TooLate(old(Current()).Some?, config, fates))
    {
      var originalState := GetState(t);
      var want := if state == TOGGLE then (if originalState == UP then DOWN else UP) else state;
      if want == originalState && currentTunnel == Some(t) && currentConfig == config {
        return Returned(originalState);
      }
      if want == UP {
        var originalConfig, originalTunnel := currentConfig, currentTunnel;
        if currentTunnel.Some? {
          var ok := TakeDown(fates.down);
          if !ok {
            return Threw;
          }
        }
        var ok := BringUp(t, config, fates.up);
        if !ok {
          if originalTunnel.Some? {
            var restored := BringUp(originalTunnel.value, originalConfig, fates.rollback);
          }
          return Threw;
        }
      } else if want == DOWN && currentTunnel == Some(t) {
        var ok := TakeDown(fates.down);
        if !ok {
          return Threw;
        }
      }
      return Returned(GetState(t));
    }

    /** VpnService.onDestroy */
    method OnDestroy()
      requires Valid()
      modifies this, table
      ensures Valid() && Current().None?
    {
      if owned {
        if currentTunnel.Some? {
          if currentHandle != -1 {
            table.TurnOff(currentHandle);
          }
          currentTunnel, currentHandle, currentConfig := None, -1, None;
        }
      }
      owned := false;
    }

    /** Any run of calls, with any failures: what is up is what some call asked for. */
    method Run(events: seq<Event>)
      requires Valid()
      modifies this, table
      ensures Valid()
      ensures Current().None? || Current() == old(Current()) || AskedFor(events, Current().value)
      ensures events != [] && events[|events| - 1].Destroyed? ==> Current().None?
    {
      for i := 0 to |events|
        invariant Valid()
        invariant Current().None? || Current() == old(Current()) || AskedFor(events[..i], Current().value)
        invariant i > 0 && events[i - 1].Destroyed? ==> Current().None?
      {
        ghost var before := Current();
        assert events[..i + 1] == events[..i] + [events[i]];
        match events[i] {
          case Request(t, state, config, fates) => var r := SetState(t, state, config, fates);
          case Destroyed => OnDestroy();
        }
        assert Current().None? || Current() == before || AskedFor([events[i]], Current().value);
        if Current().Some? {
          AskedForMore(events[..i], events[i], Current().value);
        }
      }
      assert events[..|events|] == events;
    }
  }

  datatype Event = Request(tunnel: Tunnel, state: State, config: Option<Config>, fates: Fates) | Destroyed

  ghost predicate AskedFor(events: seq<Event>, d: Device) {
    exists i :: 0 <= i < |events| && events[i].Request? && events[i].tunnel == d.tunnel &&
      events[i].config == Some(d.config)
  }

  lemma AskedForMore(events: seq<Event>, e: Event, d: Device)
    ensures AskedFor(events, d) || AskedFor([e], d) ==> AskedFor(events + [e], d)
  {
    var more := events + [e];
    if AskedFor(events, d) {
      var i :| 0 <= i < |events| && events[i].Request? && events[i].tunnel == d.tunnel &&
        events[i].config == Some(d.config);
      assert more[i] == events[i];
    } else if AskedFor([e], d) {
      assert more[|events|] == e;
    }
  }

  /** When a switch throws. */
  predicate Fails(wasUp: bool, config: Option<Config>, fates: Fates) {
    (wasUp && fates.down == Throws) || config.None? || fates.up != Works
  }

  /** The failure comes when the new tunnel is active: the roll-back finds a tunnel up and leaves it. */
  predicate TooLate(wasUp: bool, config: Option<Config>, fates: Fates) {
    config.Some? && fates.up == FailsAfter && !(wasUp && fates.down == Throws)
  }

  /** What a switch that throws leaves behind. */
  function AfterFailure(was: Option<Device>, t: Tunnel, config: Option<Config>, fates: Fates): Option<Device> {
    if was.Some? && fates.down == Throws then None
    else if config.Some? && fates.up == FailsAfter then Some(Device(t, config.value))
    else if was.Some? && fates.rollback in {Works, FailsAfter} then was
    else None
  }

  /** The first tunnel is up, the second is asked for and fails too late: the call throws and the second stays. */
  method LateSwitch() returns (r: Result, b: GoBackend)
    ensures r == Threw && b.Valid() && b.Current() == Some(Device(Tunnel(1), Config(1)))
  {
    b := new GoBackend();
    r := b.SetState(Tunnel(0), UP, Some(Config(0)), Fates(Quiet, Works, Works));
    assert b.Current() == Some(Device(Tunnel(0), Config(0)));
    r := b.SetState(Tunnel(1), UP, Some(Config(1)), Fates(Quiet, FailsAfter, Works));
  }
}
