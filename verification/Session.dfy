/**
 The cloud session of src/cloudlink/cloudlink.go as a state machine, with what hangs on it: the flight
 syncer, the slot for a raw vehicle command and the terminal flag.  The theorems say what each of them is
 in terms of the log of events alone.
 */
module CloudSession {
  import opened Bytes
  import opened DroneDP

  const TIME_OUT_CNT := 15

  datatype Content = Status(user: string, drone: string, terminal: bool) | Command(chunk: seq<u8>) | Other

  /**
   A handled message, a status turn of the serve loop, a failed read, a logout; the link clearing the raw
   command away; the tunnel having closed.
   */
  datatype Event = Message(session: u32, content: Content) | Turn | FailedRead | LoggedOut | Cleared | TunnelClosed

  datatype Sync = Off | On(user: string, drone: string)

  datatype State = State(sessionId: u32, messageCnt: int, sync: Sync, rawFmuCmd: Option<seq<u8>>, terminalOnline: bool)

  function Initial(): State {
    State(0, TIME_OUT_CNT, Off, None, false)
  }

  /** The syncer after a status message: restarted unless it already runs for this pair. */
  function Restarted(sync: Sync, user: string, drone: string): Sync {
    if sync == On(user, drone) then sync
    else if drone == "" then Off
    else On(user, drone)
  }

  function Handled(s: State, content: Content): State {
    match content
    case Status(u, d, terminal) =>
      s.(sync := Restarted(s.sync, u, d), terminalOnline := s.terminalOnline || terminal)
    case Command(chunk) => s.(rawFmuCmd := Some(chunk))
    case Other => s
  }

  function Step(s: State, e: Event): State {
    match e
    case Message(session, content) => Handled(s.(sessionId := session, messageCnt := TIME_OUT_CNT), content)
    case Turn =>
      var t := s.(sync := if s.sessionId == 0 then Off else s.sync);
      if s.messageCnt == 1 then t.(sessionId := 0, messageCnt := TIME_OUT_CNT)
      else t.(messageCnt := s.messageCnt - 1)
    case FailedRead => s.(sessionId := 0)
    case LoggedOut => s.(sessionId := 0, messageCnt := TIME_OUT_CNT, terminalOnline := false)
    case Cleared => s.(rawFmuCmd := None)
    case TunnelClosed => s.(terminalOnline := false)
  }

  function Run(log: seq<Event>): State {
    if log == [] then Initial() else Step(Run(log[..|log| - 1]), log[|log| - 1])
  }

  predicate Inv(s: State) {
    1 <= s.messageCnt <= TIME_OUT_CNT && (s.sync.On? ==> s.sync.drone != "")
  }

  lemma StepInv(s: State, e: Event)
    requires Inv(s)
    ensures Inv(Step(s, e))
  {
  }

  lemma {:induction false} RunInv(log: seq<Event>)
    ensures Inv(Run(log))
  {
    if log != [] {
      RunInv(log[..|log| - 1]);
      StepInv(Run(log[..|log| - 1]), log[|log| - 1]);
    }
  }

  // ---------- the countdown ----------

  /** Status turns since the last message or logout. */
  function TurnsSince(log: seq<Event>): nat {
    if log == [] then 0
    else
      var last, before := log[|log| - 1], TurnsSince(log[..|log| - 1]);
      if last.Message? || last.LoggedOut? then 0 else if last.Turn? then before + 1 else before
  }

  /** The counter counts those turns down from fifteen, over and over, and so stays in 1..15. */
  lemma {:induction false} CounterCountsTurns(log: seq<Event>)
    ensures Run(log).messageCnt == 15 - TurnsSince(log) % 15
  {
    if log != [] {
      CounterCountsTurns(log[..|log| - 1]);
    }
  }

  // ---------- the session ----------

  predicate EndsSession(e: Event) {
    e.Message? || e.FailedRead? || e.LoggedOut?
  }

  /** Entry j is a message, and since then came no other, no failed read and no logout. */
  ghost predicate LastHeard(log: seq<Event>, j: nat) {
    && j < |log| && log[j].Message?
    && forall k :: j < k < |log| ==> !EndsSession(log[k])
  }

  lemma {:induction false} AfterLastHeard(log: seq<Event>, j: nat)
    requires LastHeard(log, j)
    ensures Run(log).sessionId == if TurnsSince(log) < 15 then log[j].session else 0
    decreases |log|
  {
    var shorter := log[..|log| - 1];
    if j < |shorter| {
      assert forall k :: j <= k < |shorter| ==> shorter[k] == log[k];
      AfterLastHeard(shorter, j);
      CounterCountsTurns(shorter);
    }
  }

  lemma {:induction false} HeardFrom(log: seq<Event>) returns (j: nat)
    requires Run(log).sessionId != 0
    ensures LastHeard(log, j) && TurnsSince(log) < 15 && log[j].session == Run(log).sessionId
    decreases |log|
  {
    var last, shorter := log[|log| - 1], log[..|log| - 1];
    if last.Message? {
      j := |log| - 1;
    } else {
      j := HeardFrom(shorter);
      assert !EndsSession(last);
      assert forall k :: j <= k < |shorter| ==> log[k] == shorter[k];
      AfterLastHeard(log, j);
    }
  }

  /**
   There is a session exactly while the last message is one of it, no failed read or logout came since, and
   fewer than fifteen status turns.
   */
  lemma SessionIsLiveExactly(log: seq<Event>, session: u32)
    requires session != 0
    ensures Run(log).sessionId == session
       <==> TurnsSince(log) < 15 && exists j: nat :: LastHeard(log, j) && log[j].session == session
  {
    if Run(log).sessionId == session {
      var j := HeardFrom(log);
    }
    if j: nat :| LastHeard(log, j) && log[j].session == session {
      AfterLastHeard(log, j);
    }
  }

  // ---------- the syncer ----------

  predicate IsStatus(e: Event) {
    e.Message? && e.content.Status?
  }

  /** The log leaves a session. */
  ghost predicate Live(log: seq<Event>) {
    TurnsSince(log) < 15 && exists j: nat :: LastHeard(log, j) && log[j].session != 0
  }

  lemma LiveExactly(log: seq<Event>)
    ensures Live(log) <==> Run(log).sessionId != 0
  {
    if Run(log).sessionId != 0 {
      var j := HeardFrom(log);
    }
    if Live(log) {
      var j: nat :| LastHeard(log, j) && log[j].session != 0;
      AfterLastHeard(log, j);
    }
  }

  /** Entry j is the latest status message and every status turn since found a session. */
  ghost predicate Synced(log: seq<Event>, j: nat) {
    && j < |log| && IsStatus(log[j])
    && (forall k :: j < k < |log| ==> !IsStatus(log[k]))
    && (forall k {:trigger log[k]} :: j < k < |log| && log[k].Turn? ==> Live(log[..k]))
  }

  lemma {:induction false} SyncAfter(log: seq<Event>, j: nat)
    requires Synced(log, j)
    ensures Run(log).sync ==
            if log[j].content.drone == "" then Off else On(log[j].content.user, log[j].content.drone)
    decreases |log|
  {
    hide Live;
    var shorter := log[..|log| - 1];
    RunInv(shorter);
    LiveExactly(shorter);
    if j < |shorter| {
      assert forall k :: j <= k < |shorter| ==> shorter[k] == log[k] && shorter[..k] == log[..k];
      SyncAfter(shorter, j);
    }
  }

  lemma {:induction false} SyncedBy(log: seq<Event>) returns (j: nat)
    requires Run(log).sync.On?
    ensures Synced(log, j)
    decreases |log|
  {
    hide Live;
    var last, shorter := log[|log| - 1], log[..|log| - 1];
    LiveExactly(shorter);
    if IsStatus(last) {
      j := |log| - 1;
    } else {
      j := SyncedBy(shorter);
      assert forall k :: j <= k < |shorter| ==> shorter[k] == log[k] && shorter[..k] == log[..k];
    }
  }

  /** The syncer runs for a pair exactly while the latest status message named it and no turn found the session gone. */
  lemma SyncerRunsExactly(log: seq<Event>, user: string, drone: string)
    ensures Run(log).sync == On(user, drone)
       <==> drone != ""
            && exists j: nat :: Synced(log, j) && log[j].content.user == user && log[j].content.drone == drone
  {
    RunInv(log);
    if Run(log).sync == On(user, drone) {
      var j := SyncedBy(log);
      SyncAfter(log, j);
    }
    if j: nat :| Synced(log, j) && log[j].content.user == user && log[j].content.drone == drone {
      SyncAfter(log, j);
    }
  }

  // ---------- the command slot and the terminal ----------

  predicate IsCommand(e: Event) {
    e.Message? && e.content.Command?
  }

  /** Entry j is the latest raw command and the link has not cleared it since. */
  ghost predicate Waits(log: seq<Event>, j: nat) {
    && j < |log| && IsCommand(log[j])
    && forall k :: j < k < |log| ==> !IsCommand(log[k]) && !log[k].Cleared?
  }

  lemma {:induction false} WaitsAfter(log: seq<Event>, j: nat)
    requires Waits(log, j)
    ensures Run(log).rawFmuCmd == Some(log[j].content.chunk)
    decreases |log|
  {
    var shorter := log[..|log| - 1];
    if j < |shorter| {
      assert forall k :: j <= k < |shorter| ==> shorter[k] == log[k];
      WaitsAfter(shorter, j);
    }
  }

  lemma {:induction false} WaitsBy(log: seq<Event>) returns (j: nat)
    requires Run(log).rawFmuCmd.Some?
    ensures Waits(log, j)
    decreases |log|
  {
    var shorter := log[..|log| - 1];
    if IsCommand(log[|log| - 1]) {
      j := |log| - 1;
    } else {
      j := WaitsBy(shorter);
      assert forall k :: j <= k < |shorter| ==> shorter[k] == log[k];
    }
  }

  /** What the link finds in the slot is the latest raw command it has not cleared; CommandSlot says which are lost. */
  lemma CommandWaitsExactly(log: seq<Event>, chunk: seq<u8>)
    ensures Run(log).rawFmuCmd == Some(chunk) <==> exists j: nat :: Waits(log, j) && log[j].content.chunk == chunk
  {
    if Run(log).rawFmuCmd == Some(chunk) {
      var j := WaitsBy(log);
      WaitsAfter(log, j);
    }
    if j: nat :| Waits(log, j) && log[j].content.chunk == chunk {
      WaitsAfter(log, j);
    }
  }

  /** Entry j asked for a terminal, and since then neither a tunnel closed nor anyone logged out. */
  ghost predicate Opened(log: seq<Event>, j: nat) {
    && j < |log| && IsStatus(log[j]) && log[j].content.terminal
    && forall k :: j < k < |log| ==> !log[k].TunnelClosed? && !log[k].LoggedOut?
  }

  /** The terminal counts as online exactly from a request for it until a tunnel closes or someone logs out. */
  lemma {:induction false} TerminalIsOnlineExactly(log: seq<Event>)
    ensures Run(log).terminalOnline <==> exists j: nat :: Opened(log, j)
    decreases |log|
  {
    if log != [] {
      var shorter, last := log[..|log| - 1], log[|log| - 1];
      TerminalIsOnlineExactly(shorter);
      if j: nat :| Opened(shorter, j) && !last.TunnelClosed? && !last.LoggedOut? {
        assert log[j] == shorter[j];
        assert forall k :: j < k < |shorter| ==> log[k] == shorter[k];
        assert Opened(log, j);
      }
      if j: nat :| Opened(log, j) && j < |shorter| {
        assert forall k :: j <= k < |shorter| ==> log[k] == shorter[k];
        assert Opened(shorter, j);
      }
      if IsStatus(last) && last.content.terminal {
        assert Opened(log, |log| - 1);
      }
    }
  }
}
