/**
 The initialisation gate in front of the command queue (src/vehicle/vehicle.go, src/vehicle/api/api.go):
 a vehicle must be online, have told its capabilities and have its parameters loaded before a tick
 serves the queue.  The log of what happened is the run; the theorems speak about it.
 */
module InitialisationGate {
  import opened Bytes
  import opened ParameterAccounting

  datatype Param = Param(index: u16, value: nat, encode: u8)

  /** A PARAM_VALUE message; the value is a bit pattern. */
  datatype ParamMsg = ParamMsg(id: seq<u8>, count: u16, index: u16, value: nat, kind: u8)

  /** The parameter's name: the id up to its first NUL. */
  function Name(id: seq<u8>): (s: seq<u8>)
    ensures s <= id && 0 !in s
  {
    if id == [] || id[0] == 0 then [] else [id[0]] + Name(id[1..])
  }

  lemma {:induction false} NameEndsAt(id: seq<u8>, i: nat)
    requires i <= |id| && 0 !in id[..i] && (i < |id| ==> id[i] == 0)
    ensures Name(id) == id[..i]
  {
    if i > 0 {
      assert id[..i][0] == id[0] && id[..i] == [id[0]] + id[1..][..i - 1];
      NameEndsAt(id[1..], i - 1);
    }
  }

  /** The distinct indices received. */
  function Indices(params: map<seq<u8>, Param>): set<nat> {
    set name <- params :: params[name].index as nat
  }

  datatype Api = Api(online: bool, gotCaps: bool, params: map<seq<u8>, Param>, totalParams: nat,
                     paramsRequested: bool, paramForceInit: bool)
  {
    function Found(): set<nat> {
      Indices(params)
    }

    predicate Open() {
      CountMatches(totalParams, Found()) || paramForceInit
    }
  }

  datatype Event = Heartbeat | Silence | Version | Value(m: ParamMsg) | Refresh

  /** What one log entry records: a packet, timeout or request, or an act of the state handler. */
  datatype Action = Saw(e: Event) | Scrub | AskCaps | AskList | Force | Ask(index: nat) | Serve

  datatype State = State(api: Api, missingParams: seq<nat>)

  function Initial(): State {
    State(Api(false, false, map[], 0, false, false), [])
  }

  function Updated(a: Api, e: Event): Api {
    match e
    case Heartbeat => a.(online := true)
    case Silence => a.(online := false)
    case Version => a.(gotCaps := true)
    case Value(m) => a.(paramsRequested := true, totalParams := m.count,
                        params := a.params[Name(m.id) := Param(m.index, m.value, m.kind)])
    case Refresh => a.(totalParams := 0, paramsRequested := false, paramForceInit := false, params := map[])
  }

  function Scrubbed(a: Api): Api {
    a.(gotCaps := false, params := map[], totalParams := 0, paramsRequested := false)
  }

  function Asks(indices: seq<nat>): seq<Action> {
    if indices == [] then [] else [Ask(indices[0])] + Asks(indices[1..])
  }

  lemma {:induction false} AsksSnoc(indices: seq<nat>, i: nat)
    ensures Asks(indices + [i]) == Asks(indices) + [Ask(i)]
  {
    if indices == [] {
      assert [i][1..] == [];
    } else {
      assert (indices + [i])[1..] == indices[1..] + [i];
      AsksSnoc(indices[1..], i);
    }
  }

  /** One turn of the state handler; `expired` says the parameter timer ran over ten seconds. */
  function Ticked(s: State, expired: bool): (State, seq<Action>) {
    var a := s.api;
    if !a.online then (s.(api := Scrubbed(a)), [Scrub])
    else if !a.gotCaps then (s, [AskCaps])
    else if !a.paramsRequested then (s, [AskList])
    else if a.Open() then (s, [Serve])
    else
      var missing := Missing(a.totalParams, a.Found());
      if expired then (State(a.(paramForceInit := true), missing), [Force] + Asks(missing))
      else (s, Asks(missing))
  }

  datatype Step = Happens(e: Event) | Tick(expired: bool)

  datatype Trace = Trace(s: State, log: seq<Action>)

  function Next(t: Trace, step: Step): Trace {
    match step
    case Happens(e) =>
      Trace(State(Updated(t.s.api, e), if e.Refresh? then [] else t.s.missingParams), t.log + [Saw(e)])
    case Tick(expired) =>
      var (s, acts) := Ticked(t.s, expired);
      Trace(s, t.log + acts)
  }

  function Run(t: Trace, steps: seq<Step>): Trace
    decreases |steps|
  {
    if steps == [] then t else Run(Next(t, steps[0]), steps[1..])
  }

  // ---------- what the log says ----------

  /** Some entry is of the first kind and none after it is of the second. */
  ghost predicate Since(log: seq<Action>, good: Action -> bool, bad: Action -> bool) {
    exists j :: 0 <= j < |log| && good(log[j]) && forall k :: j < k < |log| ==> !bad(log[k])
  }

  predicate IsHeartbeat(a: Action) { a == Saw(Heartbeat) }
  predicate IsSilence(a: Action) { a == Saw(Silence) }
  predicate IsVersion(a: Action) { a == Saw(Version) }
  predicate IsValue(a: Action) { a.Saw? && a.e.Value? }
  predicate IsScrub(a: Action) { a == Scrub }
  predicate IsScrubOrRefresh(a: Action) { a == Scrub || a == Saw(Refresh) }
  predicate IsForce(a: Action) { a == Force }
  predicate IsRefresh(a: Action) { a == Saw(Refresh) }

  ghost predicate OnlineNow(log: seq<Action>) { Since(log, IsHeartbeat, IsSilence) }
  ghost predicate CapsKnown(log: seq<Action>) { Since(log, IsVersion, IsScrub) }
  ghost predicate ParamSeen(log: seq<Action>) { Since(log, IsValue, IsScrubOrRefresh) }
  ghost predicate ForcedNow(log: seq<Action>) { Since(log, IsForce, IsRefresh) }

  predicate IsValueFor(a: Action, name: seq<u8>) { IsValue(a) && Name(a.e.m.id) == name }

  /** The parameters the log leaves standing, and the total last announced. */
  function Received(log: seq<Action>): (map<seq<u8>, Param>, nat) {
    if log == [] then (map[], 0) else Receive(Received(log[..|log| - 1]), log[|log| - 1])
  }

  function Receive(r: (map<seq<u8>, Param>, nat), a: Action): (map<seq<u8>, Param>, nat) {
    if IsScrubOrRefresh(a) then (map[], 0)
    else if IsValue(a) then (r.0[Name(a.e.m.id) := ParamOf(a.e.m)], a.e.m.count)
    else r
  }

  function ParamOf(m: ParamMsg): Param {
    Param(m.index, m.value, m.kind)
  }

  /** Entry j is the latest value of that name, with no scrub or refresh since. */
  ghost predicate LatestValue(log: seq<Action>, j: nat, name: seq<u8>) {
    && j < |log| && IsValueFor(log[j], name)
    && forall k :: j < k < |log| ==> !IsValueFor(log[k], name) && !IsScrubOrRefresh(log[k])
  }

  lemma {:induction false} LatestIsReceived(log: seq<Action>, j: nat, name: seq<u8>)
    requires LatestValue(log, j, name)
    ensures name in Received(log).0 && Received(log).0[name] == ParamOf(log[j].e.m)
    decreases |log|
  {
    var shorter := log[..|log| - 1];
    if j < |shorter| {
      assert forall k :: j <= k < |shorter| ==> shorter[k] == log[k];
      LatestIsReceived(shorter, j, name);
    }
  }

  lemma {:induction false} ReceivedIsLatest(log: seq<Action>, name: seq<u8>) returns (j: nat)
    requires name in Received(log).0
    ensures LatestValue(log, j, name)
    decreases |log|
  {
    var shorter := log[..|log| - 1];
    if IsValueFor(log[|log| - 1], name) {
      j := |log| - 1;
    } else {
      j := ReceivedIsLatest(shorter, name);
      assert forall k :: j <= k < |shorter| ==> shorter[k] == log[k];
    }
  }

  /** A parameter is held exactly as its latest message since the last scrub or refresh gave it. */
  lemma ReceivedExactly(log: seq<Action>, name: seq<u8>, p: Param)
    ensures name in Received(log).0 && Received(log).0[name] == p
       <==> exists j: nat :: LatestValue(log, j, name) && ParamOf(log[j].e.m) == p
  {
    if name in Received(log).0 {
      var j := ReceivedIsLatest(log, name);
      LatestIsReceived(log, j, name);
    }
    if j: nat :| LatestValue(log, j, name) && ParamOf(log[j].e.m) == p {
      LatestIsReceived(log, j, name);
    }
  }

  /** The missing indices recorded when the timer last ran out, unless a refresh came since. */
  function Recorded(log: seq<Action>): seq<nat> {
    if log == [] then []
    else
      var before, last := log[..|log| - 1], log[|log| - 1];
      if last.Force? then MissingIn(before) else if IsRefresh(last) then [] else Recorded(before)
  }

  /** What is missing of the parameters the log leaves standing. */
  function MissingIn(log: seq<Action>): seq<nat> {
    Missing(Received(log).1, Indices(Received(log).0))
  }

  /** Entry j is the latest time the timer ran out, with no refresh since. */
  ghost predicate LatestForce(log: seq<Action>, j: nat) {
    && j < |log| && IsForce(log[j])
    && forall k :: j < k < |log| ==> !IsForce(log[k]) && !IsRefresh(log[k])
  }

  lemma {:induction false} RecordedIsLatest(log: seq<Action>, j: nat)
    requires LatestForce(log, j)
    ensures Recorded(log) == MissingIn(log[..j])
    decreases |log|
  {
    var shorter := log[..|log| - 1];
    if j < |shorter| {
      assert forall k :: j <= k < |shorter| ==> shorter[k] == log[k];
      assert shorter[..j] == log[..j];
      RecordedIsLatest(shorter, j);
    }
  }

  lemma {:induction false} NothingRecorded(log: seq<Action>)
    ensures ForcedNow(log) || Recorded(log) == []
  {
    if log != [] {
      var shorter, last := log[..|log| - 1], log[|log| - 1];
      NothingRecorded(shorter);
      AppendOne(shorter, last);
      assert log == shorter + [last];
    }
  }

  lemma {:induction false} TotalFits(log: seq<Action>)
    ensures Received(log).1 < 65536
  {
    if log != [] {
      TotalFits(log[..|log| - 1]);
    }
  }

  lemma {:induction false} RecordedFits(log: seq<Action>)
    ensures |Recorded(log)| < 65536
  {
    if log != [] {
      RecordedFits(log[..|log| - 1]);
      TotalFits(log[..|log| - 1]);
      MissingPlusReceived(Received(log[..|log| - 1]).1, Indices(Received(log[..|log| - 1]).0));
    }
  }

  lemma AppendOne(log: seq<Action>, x: Action)
    ensures OnlineNow(log + [x]) <==> IsHeartbeat(x) || (OnlineNow(log) && !IsSilence(x))
    ensures CapsKnown(log + [x]) <==> IsVersion(x) || (CapsKnown(log) && !IsScrub(x))
    ensures ParamSeen(log + [x]) <==> IsValue(x) || (ParamSeen(log) && !IsScrubOrRefresh(x))
    ensures ForcedNow(log + [x]) <==> IsForce(x) || (ForcedNow(log) && !IsRefresh(x))
    ensures Received(log + [x]) == Receive(Received(log), x)
    ensures Recorded(log + [x]) == if IsForce(x) then MissingIn(log) else if IsRefresh(x) then [] else Recorded(log)
  {
    hide Since;
    assert (log + [x])[..|log|] == log;
    AppendsOne(log, x, IsHeartbeat, IsSilence);
    AppendsOne(log, x, IsVersion, IsScrub);
    AppendsOne(log, x, IsValue, IsScrubOrRefresh);
    AppendsOne(log, x, IsForce, IsRefresh);
  }

  lemma AppendsOne(log: seq<Action>, x: Action, good: Action -> bool, bad: Action -> bool)
    ensures Since(log + [x], good, bad) <==> good(x) || (Since(log, good, bad) && !bad(x))
  {
    var all, n := log + [x], |log|;
    assert all[n] == x && forall k :: 0 <= k < n ==> all[k] == log[k];
    if Since(log, good, bad) && !bad(x) {
      var j :| 0 <= j < n && good(log[j]) && forall k :: j < k < n ==> !bad(log[k]);
      assert good(all[j]);
    }
    if Since(all, good, bad) && !good(x) {
      var j :| 0 <= j <= n && good(all[j]) && forall k :: j < k <= n ==> !bad(all[k]);
      assert good(log[j]);
    }
  }

  ghost predicate SameNow(log: seq<Action>, more: seq<Action>) {
    && (OnlineNow(more) <==> OnlineNow(log)) && (CapsKnown(more) <==> CapsKnown(log))
    && (ParamSeen(more) <==> ParamSeen(log)) && (ForcedNow(more) <==> ForcedNow(log))
    && Received(more) == Received(log) && Recorded(more) == Recorded(log)
  }

  /** Requests say nothing about the vehicle. */
  lemma {:induction false} AppendAsks(log: seq<Action>, indices: seq<nat>)
    ensures SameNow(log, log + Asks(indices))
    decreases |indices|
  {
    hide OnlineNow, CapsKnown, ParamSeen, ForcedNow, Received, Recorded;
    if indices == [] {
      assert log + Asks(indices) == log;
    } else {
      AppendOne(log, Ask(indices[0]));
      AppendAsks(log + [Ask(indices[0])], indices[1..]);
      assert log + Asks(indices) == log + [Ask(indices[0])] + Asks(indices[1..]);
    }
  }

  /** The handler's flags and parameters are what the log says. */
  ghost predicate Honest(t: Trace) {
    && (t.s.api.online <==> OnlineNow(t.log))
    && (t.s.api.gotCaps <==> CapsKnown(t.log))
    && (t.s.api.paramsRequested <==> ParamSeen(t.log))
    && (t.s.api.paramForceInit <==> ForcedNow(t.log))
    && (t.s.api.params, t.s.api.totalParams) == Received(t.log)
    && t.s.missingParams == Recorded(t.log)
  }

  lemma StaysHonest(t: Trace, step: Step)
    requires Honest(t)
    ensures Honest(Next(t, step))
  {
    hide OnlineNow, CapsKnown, ParamSeen, ForcedNow, Received, Recorded;
    match step
    case Happens(e) =>
      AppendOne(t.log, Saw(e));
    case Tick(expired) =>
      var a := t.s.api;
      var (s, acts) := Ticked(t.s, expired);
      if a.online && a.gotCaps && a.paramsRequested && !a.Open() {
        var missing := Missing(a.totalParams, a.Found());
        AppendAsks(t.log, missing);
        AppendOne(t.log, Force);
        AppendAsks(t.log + [Force], missing);
        assert t.log + ([Force] + Asks(missing)) == t.log + [Force] + Asks(missing);
      } else {
        AppendOne(t.log, acts[0]);
      }
  }

  lemma {:induction false} RunIsHonest(t: Trace, steps: seq<Step>)
    requires Honest(t)
    ensures Honest(Run(t, steps))
    decreases |steps|
  {
    hide Honest, Next;
    if steps != [] {
      StaysHonest(t, steps[0]);
      RunIsHonest(Next(t, steps[0]), steps[1..]);
    }
  }

  lemma StartsHonest()
    ensures Honest(Trace(Initial(), []))
  {
  }

  /**
   The log lets the queue be served: a heartbeat came with no timeout since; capabilities came with no scrub
   since; a parameter came with no scrub or refresh since; and the indices beyond the announced range
   outnumber the missing ones by one, or the parameter timer ran out with no refresh since - no matter how
   many scrubs.
   */
  ghost predicate MayServe(log: seq<Action>) {
    && OnlineNow(log) && CapsKnown(log) && ParamSeen(log)
    && var (params, total) := Received(log);
       |Beyond(total, Indices(params))| == |MissingIn(log)| + 1 || ForcedNow(log)
  }

  /** The vehicle is online, its capabilities and a parameter are in, but the gate stays shut. */
  ghost predicate Waits(log: seq<Action>) {
    OnlineNow(log) && CapsKnown(log) && ParamSeen(log) && !MayServe(log)
  }

  /** The acts of a turn, each decided by the log. */
  ghost predicate ActsFollowLog(acts: seq<Action>, log: seq<Action>, expired: bool) {
    && (Scrub in acts <==> !OnlineNow(log))
    && (AskCaps in acts <==> OnlineNow(log) && !CapsKnown(log))
    && (AskList in acts <==> OnlineNow(log) && CapsKnown(log) && !ParamSeen(log))
    && (Serve in acts <==> MayServe(log))
    && (Force in acts <==> Waits(log) && expired)
    && (forall i: nat :: Ask(i) in acts <==> Waits(log) && i in MissingIn(log))
    && (forall e :: Saw(e) !in acts)
    && (forall i, j :: 0 <= i < j < |acts| ==> acts[i] != acts[j])
  }

  lemma OneAct(log: seq<Action>, expired: bool, x: Action)
    requires match x
             case Scrub => !OnlineNow(log)
             case AskCaps => OnlineNow(log) && !CapsKnown(log)
             case AskList => OnlineNow(log) && CapsKnown(log) && !ParamSeen(log)
             case Serve => MayServe(log)
             case _ => false
    ensures ActsFollowLog([x], log, expired)
  {
    hide OnlineNow, CapsKnown, ParamSeen, ForcedNow, Received, MissingIn;
  }

  /** Asking for ascending indices repeats nothing. */
  lemma AsksOnce(indices: seq<nat>, forced: seq<Action>)
    requires forall i, j :: 0 <= i < j < |indices| ==> indices[i] < indices[j]
    requires forced == [] || forced == [Force]
    ensures forall x :: x in forced + Asks(indices) <==> x in forced || (x.Ask? && x.index in indices)
    ensures var acts := forced + Asks(indices); forall i, j :: 0 <= i < j < |acts| ==> acts[i] != acts[j]
  {
    var asks := Asks(indices);
    OnlyAsks(indices);
    forall i: nat ensures Ask(i) in asks <==> i in indices {
      if i in indices {
        var k :| 0 <= k < |indices| && indices[k] == i;
        assert asks[k] == Ask(i);
      }
    }
    forall i, j | 0 <= i < j < |asks| ensures asks[i] != asks[j] {
      assert indices[i] < indices[j];
    }
    assert forced == [] ==> forced + asks == asks;
  }

  lemma WaitingActs(log: seq<Action>, expired: bool, forced: seq<Action>)
    requires Waits(log) && forced == if expired then [Force] else []
    ensures ActsFollowLog(forced + Asks(MissingIn(log)), log, expired)
  {
    hide OnlineNow, CapsKnown, ParamSeen, ForcedNow, Received, Asks;
    MissingIsExact(Received(log).1, Indices(Received(log).0));
    AsksOnce(MissingIn(log), forced);
  }

  lemma ActsAsTold(t: Trace, expired: bool)
    requires Honest(t)
    ensures ActsFollowLog(Ticked(t.s, expired).1, t.log, expired)
  {
    hide OnlineNow, CapsKnown, ParamSeen, ForcedNow, Received, Recorded, ActsFollowLog, Missing;
    var a := t.s.api;
    var (s, acts) := Ticked(t.s, expired);
    CountMatchesExactly(a.totalParams, a.Found());
    if a.online && a.gotCaps && a.paramsRequested && !a.Open() {
      WaitingActs(t.log, expired, if expired then [Force] else []);
      assert acts == (if expired then [Force] else []) + Asks(MissingIn(t.log));
    } else {
      OneAct(t.log, expired, acts[0]);
    }
  }

  lemma ServesExactly(t: Trace, expired: bool)
    requires Honest(t)
    ensures Serve in Ticked(t.s, expired).1 <==> MayServe(t.log)
  {
    hide MayServe, Honest, Ticked;
    ActsAsTold(t, expired);
  }

  /** In every run, the state handler serves the queue on exactly the turns at which the log lets it. */
  lemma QueueIsServedExactly(steps: seq<Step>, expired: bool)
    ensures var t := Run(Trace(Initial(), []), steps);
            Serve in Ticked(t.s, expired).1 <==> MayServe(t.log)
  {
    hide MayServe, Honest, Ticked;
    StartsHonest();
    RunIsHonest(Trace(Initial(), []), steps);
    ServesExactly(Run(Trace(Initial(), []), steps), expired);
  }

  /**
   In every run, the log alone decides each act of a turn of the state handler: it scrubs exactly when the
   vehicle is offline; asks for capabilities exactly when online without them; for the parameter list
   exactly when both are there but no parameter is; serves the queue exactly when the log lets it; else asks
   for exactly the missing indices, and gives up waiting exactly when the timer has run out too.
   */
  lemma TurnActsExactly(steps: seq<Step>, expired: bool)
    ensures var t := Run(Trace(Initial(), []), steps);
            ActsFollowLog(Ticked(t.s, expired).1, t.log, expired)
  {
    hide ActsFollowLog, Honest, Ticked;
    StartsHonest();
    RunIsHonest(Trace(Initial(), []), steps);
    ActsAsTold(Run(Trace(Initial(), []), steps), expired);
  }

  /**
   In every run, the number of parameters reported as found is right: if the timer has not run out since
   the last refresh, exactly when nothing is missing; otherwise exactly when as many are missing now as
   were when it last did.
   */
  lemma ReportIsRightExactly(steps: seq<Step>)
    ensures var t := Run(Trace(Initial(), []), steps);
            var (params, total) := Received(t.log);
            var right := ReportedFound(total, t.s.missingParams) == |Below(total, Indices(params))|;
            && t.s.api.totalParams == total && t.s.api.params == params
            && (!ForcedNow(t.log) ==> (right <==> MissingIn(t.log) == []))
            && (forall j: nat :: LatestForce(t.log, j) ==> (right <==> |MissingIn(t.log)| == |MissingIn(t.log[..j])|))
            && (ForcedNow(t.log) <==> exists j: nat :: LatestForce(t.log, j))
  {
    hide ForcedNow, Received, Recorded, ReportedFound;
    StartsHonest();
    RunIsHonest(Trace(Initial(), []), steps);
    var t := Run(Trace(Initial(), []), steps);
    var (params, total) := Received(t.log);
    TotalFits(t.log);
    RecordedFits(t.log);
    NothingRecorded(t.log);
    ReportIsRight(total, Indices(params), t.s.missingParams);
    forall j: nat | LatestForce(t.log, j) ensures Recorded(t.log) == MissingIn(t.log[..j]) {
      RecordedIsLatest(t.log, j);
    }
    ForceIsLatest(t.log);
  }

  lemma {:induction false} ForceIsLatest(log: seq<Action>)
    ensures ForcedNow(log) <==> exists j: nat :: LatestForce(log, j)
  {
    if j: nat :| LatestForce(log, j) {
      assert IsForce(log[j]);
    }
    if ForcedNow(log) {
      var j := LastForce(log);
    }
  }

  lemma {:induction false} LastForce(log: seq<Action>) returns (j: nat)
    requires ForcedNow(log)
    ensures LatestForce(log, j)
    decreases |log|
  {
    var shorter, last := log[..|log| - 1], log[|log| - 1];
    assert log == shorter + [last];
    AppendOne(shorter, last);
    if IsForce(last) {
      j := |log| - 1;
    } else {
      j := LastForce(shorter);
      assert forall k :: j <= k < |shorter| ==> shorter[k] == log[k];
    }
  }

  lemma {:induction false} OnlyAsks(indices: seq<nat>)
    ensures forall a <- Asks(indices) :: a.Ask?
    ensures |Asks(indices)| == |indices|
    ensures forall i :: 0 <= i < |indices| ==> Asks(indices)[i] == Ask(indices[i])
  {
    if indices != [] {
      OnlyAsks(indices[1..]);
    }
  }

  lemma {:induction false} RunConcat(t: Trace, a: seq<Step>, b: seq<Step>)
    ensures Run(t, a + b) == Run(Run(t, a), b)
    decreases |a|
  {
    if a == [] {
      assert a + b == b;
    } else {
      assert (a + b)[1..] == a[1..] + b;
      RunConcat(Next(t, a[0]), a[1..], b);
    }
  }

  lemma RunThree(t: Trace, x: Step, y: Step, z: Step)
    ensures Run(t, [x, y, z]) == Next(Next(Next(t, x), y), z)
  {
    assert [x, y, z][1..] == [y, z] && [y, z][1..] == [z] && [z][1..] == [];
    var u := Next(t, x);
    var v := Next(u, y);
    assert Run(v, [z]) == Next(v, z);
    assert Run(u, [y, z]) == Run(v, [z]);
  }

  function Connect(p: ParamMsg): seq<Step> {
    [Happens(Heartbeat), Happens(Version), Happens(Value(p))]
  }

  const DROP := [Tick(true), Happens(Silence), Tick(false)]

  /**
   A scrub leaves the force flag set, so after a reconnection one parameter opens the gate: the queue is
   served while parameter 1 of 2 is missing and no timer ran out since the scrub.
   */
  lemma ForceSurvivesScrub(p: ParamMsg)
    requires p.count == 2 && p.index == 0
    ensures var t := Run(Trace(Initial(), []), Connect(p) + DROP + Connect(p));
            && t.log == [Saw(Heartbeat), Saw(Version), Saw(Value(p)), Force, Ask(1), Saw(Silence), Scrub,
                         Saw(Heartbeat), Saw(Version), Saw(Value(p))]
            && Missing(t.s.api.totalParams, t.s.api.Found()) == [1]
            && Ticked(t.s, false) == (t.s, [Serve])
  {
    hide Api.Found, Missing;
    var t0 := Trace(Initial(), []);
    RunConcat(t0, Connect(p) + DROP, Connect(p));
    RunConcat(t0, Connect(p), DROP);
    Connects(t0, p);
    var t1 := Run(t0, Connect(p));
    Drops(t1, p);
    var t2 := Run(t1, DROP);
    Connects(t2, p);
    OneOfTwo(Run(t2, Connect(p)).s.api, p);
  }

  lemma Connects(t: Trace, p: ParamMsg)
    requires t.s.api.params == map[] && p.count == 2 && p.index == 0
    ensures Run(t, Connect(p)) ==
      Trace(t.s.(api := Api(true, true, map[Name(p.id) := ParamOf(p)], 2, true, t.s.api.paramForceInit)),
            t.log + [Saw(Heartbeat), Saw(Version), Saw(Value(p))])
  {
    hide Name;
    RunThree(t, Happens(Heartbeat), Happens(Version), Happens(Value(p)));
  }

  lemma TimerRunsOut(t: Trace, p: ParamMsg)
    requires p.count == 2 && p.index == 0
    requires t.s.api == Api(true, true, map[Name(p.id) := Param(p.index, p.value, p.kind)], 2, true, false)
    ensures Next(t, Tick(true))
         == Trace(State(t.s.api.(paramForceInit := true), [1]), t.log + [Force, Ask(1)])
  {
    hide Name;
    OneOfTwo(t.s.api, p);
  }

  lemma Drops(t: Trace, p: ParamMsg)
    requires p.count == 2 && p.index == 0
    requires t.s.api == Api(true, true, map[Name(p.id) := Param(p.index, p.value, p.kind)], 2, true, false)
    ensures Run(t, DROP)
         == Trace(State(Api(false, false, map[], 0, false, true), [1]), t.log + [Force, Ask(1), Saw(Silence), Scrub])
  {
    hide Name, Missing, Indices;
    RunThree(t, Tick(true), Happens(Silence), Tick(false));
    TimerRunsOut(t, p);
    var u := Next(t, Tick(true));
    var v := Next(u, Happens(Silence));
    assert v == Trace(State(u.s.api.(online := false), [1]), u.log + [Saw(Silence)]);
    assert Next(v, Tick(false)) == Trace(State(Scrubbed(v.s.api), [1]), v.log + [Scrub]);
    FourOf(t.log, Force, Ask(1), Saw(Silence), Scrub);
  }

  lemma FourOf(log: seq<Action>, a: Action, b: Action, c: Action, d: Action)
    ensures log + [a, b] + [c] + [d] == log + [a, b, c, d]
  {
  }

  lemma OneOfTwo(a: Api, p: ParamMsg)
    requires a.params == map[Name(p.id) := Param(p.index, p.value, p.kind)] && p.index == 0
    ensures a.Found() == {0} && Missing(2, a.Found()) == [1] && !CountMatches(2, a.Found())
    ensures Asks([1]) == [Ask(1)]
  {
    assert a.params[Name(p.id)].index as nat in a.Found();
    assert a.Found() == {0};
    assert Missing(1, a.Found()) == Missing(0, a.Found());
    assert [1][1..] == [];
  }
}
