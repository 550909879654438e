/**
 The objects behind the initialisation gate: the parameter and status store of
 src/vehicle/api/api.go, and the state handler that runs it and, once through, the command queue.
 */
module VehicleInit {
  import opened Bytes
  import opened ParameterAccounting
  import opened InitialisationGate
  import CommandDispatcher
  import opened VehicleObjects

  class VehicleApi {
    var online: bool
    var gotCaps: bool
    var params: map<seq<u8>, Param>
    var totalParams: nat
    var paramsRequested: bool
    var paramForceInit: bool

    function Abs(): Api
      reads this
    {
      Api(online, gotCaps, params, totalParams, paramsRequested, paramForceInit)
    }

    constructor ()
      ensures Abs() == Initial().api
    {
      online, gotCaps, paramsRequested, paramForceInit := false, false, false, false;
      params, totalParams := map[], 0;
    }

    method UpdateFromHeartbeat()
      modifies this
      ensures Abs() == Updated(old(Abs()), Heartbeat)
    {
      if !online {
        online := true;
      }
    }

    /** `late`: the last update is more than five seconds old. */
    method CheckSysOnline(late: bool)
      modifies this
      ensures Abs() == if late then Updated(old(Abs()), Silence) else old(Abs())
    {
      if online && late {
        online := false;
      }
    }

    method UpdateFromAutopilotVersion()
      modifies this
      ensures Abs() == Updated(old(Abs()), Version)
    {
      gotCaps := true;
    }

    method UpdateFromParam(m: ParamMsg)
      modifies this
      ensures Abs() == Updated(old(Abs()), Value(m))
    {
      if !paramsRequested {
        paramsRequested := true;
      }
      totalParams := m.count;
      var str := [];
      var i := 0;
      while i < |m.id| && m.id[i] != 0
        modifies {}
        invariant i <= |m.id| && str == m.id[..i] && 0 !in str
      {
        str := str + [m.id[i]];
        i := i + 1;
      }
      NameEndsAt(m.id, i);
      params := params[str := Param(m.index, m.value, m.kind)];
    }

    method Scrub()
      modifies this
      ensures Abs() == Scrubbed(old(Abs()))
    {
      gotCaps := false;
      params := map[];
      totalParams := 0;
      paramsRequested := false;
    }

    method ResetParams()
      modifies this
      ensures Abs() == Updated(old(Abs()), Refresh)
    {
      totalParams := 0;
      paramsRequested := false;
      paramForceInit := false;
      params := map[];
    }

    method ForceParamInit()
      modifies this`paramForceInit
      ensures Abs() == old(Abs()).(paramForceInit := true)
    {
      paramForceInit := true;
    }

    /** The announced total and the distinct indices received. */
    method CheckParams() returns (total: nat, gotParams: set<nat>)
      ensures total == totalParams && gotParams == Abs().Found()
    {
      gotParams := {};
      var left := params.Keys;
      while left != {}
        invariant left <= params.Keys
        invariant gotParams == set name <- params.Keys - left :: params[name].index as nat
        decreases |left|
      {
        var name :| name in left;
        left := left - {name};
        gotParams := gotParams + {params[name].index};
      }
      total := totalParams;
    }
  }

  /** The half of the vehicle object that runs the initialisation; the other half owns the queue. */
  class Initialiser {
    const api: VehicleApi
    const vehicle: Vehicle
    var missingParams: seq<nat>

    constructor (api: VehicleApi, vehicle: Vehicle)
      ensures this.api == api && this.vehicle == vehicle && missingParams == []
    {
      this.api, this.vehicle, missingParams := api, vehicle, [];
    }

    function Abs(): State
      reads this, api
    {
      State(api.Abs(), missingParams)
    }

    /** One turn, and what was done in it; with VehicleRuns.TurnIsMove, a move of the whole vehicle. */
    method StateHandler(expired: bool) returns (acts: seq<Action>)
      requires vehicle.Valid()
      modifies this, api, vehicle, vehicle.commandQueue, vehicle.ops.Keys
      ensures vehicle.Valid()
      ensures (Abs(), acts) == Ticked(old(Abs()), expired)
      ensures Serve in acts ==>
        && CommandDispatcher.Legal(old(vehicle.Abs()), CommandDispatcher.Tick)
        && vehicle.Abs() == CommandDispatcher.Step(old(vehicle.Abs()), CommandDispatcher.Tick)
      ensures Serve !in acts ==> vehicle.Abs() == old(vehicle.Abs())
    {
      hide Vehicle.Valid, Vehicle.Abs, CommandDispatcher.Step, Missing, Asks;
      if !api.online {
        api.Scrub();
        return [Scrub];
      }
      if !api.gotCaps {
        return [AskCaps];
      }
      if !api.paramsRequested {
        return [AskList];
      }
      var total, foundSet := api.CheckParams();
      if |foundSet| - 1 == total || api.paramForceInit {
        vehicle.SysOnlineHandler();
        return [Serve];
      }
      OnlyAsks(Missing(total, foundSet));
      acts := RequestMissing(expired, total, foundSet);
      assert [] + Asks(Missing(total, foundSet)) == Asks(Missing(total, foundSet));
    }

    /** Asks for each missing parameter; once the timer has run out, records them and gives up waiting. */
    method RequestMissing(expired: bool, total: nat, foundSet: set<nat>) returns (acts: seq<Action>)
      modifies this`missingParams, api`paramForceInit
      ensures missingParams == if expired then Missing(total, foundSet) else old(missingParams)
      ensures api.Abs() == old(api.Abs()).(paramForceInit := old(api.paramForceInit) || expired)
      ensures acts == (if expired then [Force] else []) + Asks(Missing(total, foundSet))
    {
      acts := [];
      if expired {
        var notFound := [];
        for i := 0 to total
          modifies {}
          invariant notFound == Missing(i, foundSet)
        {
          if i !in foundSet {
            notFound := notFound + [i];
          }
        }
        missingParams := notFound;
        api.ForceParamInit();
        acts := [Force];
      }
      ghost var first := acts;
      for i := 0 to total
        modifies {}
        invariant acts == first + Asks(Missing(i, foundSet))
      {
        if i !in foundSet {
          AsksSnoc(Missing(i, foundSet), i);
          acts := acts + [Ask(i)];
        }
      }
    }

    method RefreshParams()
      modifies this, api
      ensures Abs() == Next(Trace(old(Abs()), []), Happens(Refresh)).s
    {
      missingParams := [];
      api.ResetParams();
    }

    method GetAllParams() returns (found: nat, total: nat)
      ensures total == api.totalParams && found == ReportedFound(total, missingParams)
    {
      total := api.totalParams;
      found := (total - |missingParams|) % 0x1_0000_0000_0000_0000;
    }
  }
}
