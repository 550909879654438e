/**
 Session and sync timer in one run: events of the session, packets from the flight controller and turns of
 the sync timer in any order.  What reaches the wire is settled by the two logs alone.
 */
module CloudRuns {
  import opened Bytes
  import opened Listing
  import Session = CloudSession
  import Throttle = Throttles
  import Objects = CloudLinkObjects

  /** A packet as it goes out: under which session. */
  datatype Sent = Sent(session: int, packet: seq<u8>)

  /** The state of the link, and the logs of what happened to session and throttle. */
  datatype Link = Link(session: Session.State, msgs: map<u8, seq<u8>>, wire: seq<Sent>,
                       events: seq<Session.Event>, traffic: seq<Throttle.Traffic>)

  /** `order` is how the map yields its keys, `connected` whether there is a connection. */
  datatype Move = Happens(e: Session.Event) | FromFmu(packet: seq<u8>) | SyncTurn(order: seq<u8>, connected: bool)

  function Initial(): Link {
    Link(Session.Initial(), map[], [], [], [])
  }

  predicate Flushes(l: Link, m: Move) {
    m.SyncTurn? && m.connected && l.session.sessionId != 0
  }

  function Batch(session: int, order: seq<u8>, msgs: map<u8, seq<u8>>): seq<Sent> {
    if order == [] then []
    else if order[0] in msgs then [Sent(session, msgs[order[0]])] + Batch(session, order[1..], msgs)
    else Batch(session, order[1..], msgs)
  }

  ghost predicate Legal(l: Link, m: Move) {
    m.SyncTurn? ==> Enumerates(m.order, l.msgs.Keys)
  }

  function Moved(l: Link, m: Move): Link {
    match m
    case Happens(e) => l.(session := Session.Step(l.session, e), events := l.events + [e])
    case FromFmu(packet) =>
      l.(msgs := Throttle.Pending(l.msgs, Throttle.Put(packet)), traffic := l.traffic + [Throttle.Put(packet)])
    case SyncTurn(order, _) =>
      if Flushes(l, m) then
        l.(wire := l.wire + Batch(l.session.sessionId, order, l.msgs), msgs := map[],
           traffic := l.traffic + [Throttle.Flush])
      else l
  }

  function Run(ms: seq<Move>): Link {
    if ms == [] then Initial() else Moved(Run(ms[..|ms| - 1]), ms[|ms| - 1])
  }

  /** Session and waiting packets are what their logs say. */
  lemma {:induction false} RunIsLogged(ms: seq<Move>)
    ensures Run(ms).session == Session.Run(Run(ms).events)
    ensures Run(ms).msgs == Throttle.Waiting(Run(ms).traffic)
  {
    if ms != [] {
      var l, m := Run(ms[..|ms| - 1]), ms[|ms| - 1];
      RunIsLogged(ms[..|ms| - 1]);
      LogsGrow(l, m);
    }
  }

  lemma LogsGrow(l: Link, m: Move)
    requires l.session == Session.Run(l.events) && l.msgs == Throttle.Waiting(l.traffic)
    ensures Moved(l, m).session == Session.Run(Moved(l, m).events)
    ensures Moved(l, m).msgs == Throttle.Waiting(Moved(l, m).traffic)
  {
    match m
    case Happens(e) =>
      assert (l.events + [e])[..|l.events|] == l.events;
    case FromFmu(packet) =>
      assert (l.traffic + [Throttle.Put(packet)])[..|l.traffic|] == l.traffic;
    case SyncTurn(order, _) =>
      assert (l.traffic + [Throttle.Flush])[..|l.traffic|] == l.traffic;
  }

  lemma {:induction false} InBatch(session: int, order: seq<u8>, msgs: map<u8, seq<u8>>, x: Sent)
    ensures x in Batch(session, order, msgs)
       <==> x.session == session && exists op :: op in order && op in msgs && msgs[op] == x.packet
    ensures |Batch(session, order, msgs)| <= |order|
    ensures (forall op <- order :: op in msgs) ==> |Batch(session, order, msgs)| == |order|
  {
    if order != [] {
      InBatch(session, order[1..], msgs, x);
      assert order == [order[0]] + order[1..];
      if op :| op in order && op in msgs && msgs[op] == x.packet {
        assert op == order[0] || op in order[1..];
      }
    }
  }

  /** Entry j is a stored packet, the latest of its id since the last flush. */
  ghost predicate Due(traffic: seq<Throttle.Traffic>, j: nat) {
    && j < |traffic| && traffic[j].Put? && |traffic[j].packet| > 5
    && Throttle.Latest(traffic, j, traffic[j].packet[5])
  }

  /** The log leaves this session. */
  ghost predicate LiveWith(events: seq<Session.Event>, session: int) {
    && session != 0
    && Session.TurnsSince(events) < 15
    && exists j: nat :: Session.LastHeard(events, j) && events[j].session == session
  }

  lemma WaitingIsDue(traffic: seq<Throttle.Traffic>, p: seq<u8>)
    ensures (exists op :: op in Throttle.Waiting(traffic) && Throttle.Waiting(traffic)[op] == p)
       <==> exists j: nat :: Due(traffic, j) && traffic[j].packet == p
  {
    if op :| op in Throttle.Waiting(traffic) && Throttle.Waiting(traffic)[op] == p {
      Throttle.FlushSendsLatestExactly(traffic, op, p);
      var j: nat :| Throttle.Latest(traffic, j, op) && traffic[j] == Throttle.Put(p);
      assert Due(traffic, j);
    }
    if j: nat :| Due(traffic, j) && traffic[j].packet == p {
      Throttle.FlushSendsLatestExactly(traffic, p[5], p);
    }
  }

  /**
   In every run, what a turn of the sync timer adds to the wire is exactly, under the live session, the
   latest packet of each id stored since the last flush, once each; without a connection or a live
   session it adds nothing.
   */
  lemma SyncTurnSendsExactly(ms: seq<Move>, m: Move, x: Sent)
    requires m.SyncTurn? && Legal(Run(ms), m)
    ensures var l, next := Run(ms), Moved(Run(ms), m);
            && l.wire <= next.wire
            && (x in next.wire[|l.wire|..]
                <==> && m.connected && LiveWith(l.events, x.session)
                     && exists j: nat :: Due(l.traffic, j) && l.traffic[j].packet == x.packet)
            && (Flushes(l, m) ==> |next.wire| - |l.wire| == |l.msgs.Keys|)
  {
    hide Session.Run, Throttle.Waiting, Due, LiveWith, Run;
    var l := Run(ms);
    RunIsLogged(ms);
    InBatch(l.session.sessionId, m.order, l.msgs, x);
    WaitingIsDue(l.traffic, x.packet);
    OrderSize(m.order, l.msgs.Keys);
    LiveExactly(l.events, x.session, l.session.sessionId);
    assert Flushes(l, m) ==> Moved(l, m).wire[|l.wire|..] == Batch(l.session.sessionId, m.order, l.msgs);
  }

  lemma LiveExactly(events: seq<Session.Event>, session: int, now: int)
    requires now == Session.Run(events).sessionId
    ensures LiveWith(events, session) <==> now != 0 && session == now
  {
    hide Session.Run;
    if now != 0 {
      Session.SessionIsLiveExactly(events, now);
    }
    if LiveWith(events, session) {
      var j: nat :| Session.LastHeard(events, j) && events[j].session == session;
      Session.SessionIsLiveExactly(events, events[j].session);
    }
  }

  // ---------- the objects' datagrams ----------

  function Rendered(batch: seq<Sent>): seq<seq<u8>>
    requires forall x <- batch :: 0 <= x.session < 0x1_0000_0000
  {
    if batch == [] then []
    else [Objects.Datagram(batch[0].session, batch[0].packet)] + Rendered(batch[1..])
  }

  /** What FlushMsgs writes is such a batch, each packet in its DroneDP frame. */
  lemma {:induction false} FlushIsBatch(session: int, order: seq<u8>, msgs: map<u8, seq<u8>>)
    requires 0 <= session < 0x1_0000_0000
    ensures forall x <- Batch(session, order, msgs) :: x.session == session
    ensures Objects.Datagrams(session, order, msgs) == Rendered(Batch(session, order, msgs))
  {
    hide Objects.Datagram;
    if order != [] {
      FlushIsBatch(session, order[1..], msgs);
      if order[0] in msgs {
        assert Batch(session, order, msgs)[1..] == Batch(session, order[1..], msgs);
      }
    }
  }
}
