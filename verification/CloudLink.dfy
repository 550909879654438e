/**
 The objects of the cloud link: the syncer with its listener, the session counters, and the map that
 throttles what the flight controller sends.  Each method is proved against the state machines of
 CloudSession and Throttles.
 */
module CloudLinkObjects {
  import opened Bytes
  import opened DroneDP
  import opened CloudSession
  import opened Throttles
  import opened Listing
  import opened KeyStore

  class FlightSyncer {
    var droneId: string
    var userId: string
    var isRunning: bool
    var listeners: nat   // listener goroutines alive

    ghost predicate Valid()
      reads this
    {
      listeners == (if isRunning then 1 else 0) && (isRunning ==> droneId != "")
    }

    function Abs(): Sync
      reads this
    {
      if isRunning then On(userId, droneId) else Off
    }

    constructor ()
      ensures Valid() && Abs() == Off
    {
      droneId, userId, isRunning, listeners := "", "", false, 0;
    }

    method Start(user: string, drone: string) returns (ok: bool)
      requires Valid()
      modifies this
      ensures Valid() && ok == (drone != "" && !old(isRunning))
      ensures Abs() == if ok then On(user, drone) else old(Abs())
    {
      if drone == "" || isRunning {
        return false;
      }
      userId := user;
      droneId := drone;
      isRunning := true;
      listeners := listeners + 1;
      ok := true;
    }

    /** Waits until a listener takes the quit signal, so there has to be one. */
    method Stop()
      requires Valid() && listeners > 0
      modifies this
      ensures Valid() && Abs() == Off
    {
      droneId := "";
      userId := "";
      isRunning := false;
      listeners := listeners - 1;
    }
  }

  /** The JSON of a status datagram: a request to connect, or a sign of life. */
  datatype StatusMsg = Connect(serial: string, simId: string, email: string, pass: string) | Alive

  /** The ids whose packets also go out at once. */
  predicate Urgent(msgId: u8) {
    msgId == 22 || msgId == 44 || msgId == 47 || msgId == 77 || msgId == 148
  }

  class CloudLink {
    var sessionId: u32
    var messageCnt: int
    var rawFmuCmd: Option<seq<u8>>
    var terminalOnline: bool
    const syncer: FlightSyncer
    const store: Store
    var msgs: map<u8, seq<u8>>
    var wire: seq<seq<u8>>                  // datagrams written to the connection
    const marshal: StatusMsg -> seq<u8>     // the JSON library

    ghost predicate Valid()
      reads this, syncer
    {
      syncer.Valid() && Inv(Abs()) && Keyed(msgs)
    }

    function Abs(): State
      reads this, syncer
    {
      State(sessionId, messageCnt, syncer.Abs(), rawFmuCmd, terminalOnline)
    }

    constructor (store: Store, marshal: StatusMsg -> seq<u8>)
      ensures Valid() && fresh(syncer) && Abs() == Initial() && msgs == map[] && wire == []
      ensures this.store == store && this.marshal == marshal
    {
      sessionId, messageCnt, rawFmuCmd, terminalOnline := 0, TIME_OUT_CNT, None, false;
      syncer := new FlightSyncer();
      this.store, this.marshal := store, marshal;
      msgs, wire := map[], [];
    }

    method HandleMessage(session: u32, content: Content)
      requires Valid()
      modifies this`sessionId, this`messageCnt, this`rawFmuCmd, this`terminalOnline, syncer
      ensures Valid() && Abs() == Step(old(Abs()), Message(session, content))
    {
      messageCnt := TIME_OUT_CNT;
      if session != sessionId {
        sessionId := session;
      }
      match content
      case Command(chunk) =>
        rawFmuCmd := Some(chunk);
      case Status(user, drone, terminal) =>
        if syncer.isRunning && (syncer.userId != user || syncer.droneId != drone) {
          syncer.Stop();
        }
        if !syncer.isRunning {
          var _ := syncer.Start(user, drone);
        }
        if terminal && !terminalOnline {
          terminalOnline := true;
        }
      case Other =>
    }

    /** The goroutine that closes the tunnel has succeeded. */
    method TunnelHasClosed()
      requires Valid()
      modifies this`terminalOnline
      ensures Valid() && Abs() == Step(old(Abs()), TunnelClosed)
    {
      terminalOnline := false;
    }

    method GetRawFmuCmd() returns (chunk: Option<seq<u8>>)
      ensures chunk == rawFmuCmd
    {
      chunk := rawFmuCmd;
    }

    method NullRawFmuCmd()
      requires Valid()
      modifies this`rawFmuCmd
      ensures Valid() && Abs() == Step(old(Abs()), Cleared)
    {
      rawFmuCmd := None;
    }

    /** The status datagram carries the session of the start of the turn. */
    method SendStatus(uid: string, simId: string)
      requires Valid()
      modifies this`sessionId, this`messageCnt, this`wire, syncer
      ensures Valid() && Abs() == Step(old(Abs()), Turn)
      ensures var sm := if old(sessionId) == 0 then Connect(uid, simId, store.Value("email"), store.Value("pass"))
                        else Alive;
              wire == old(wire) + [StatusDatagram(old(sessionId), sm)]
    {
      hide Sealed, Body;
      var sm := Alive;
      if sessionId == 0 {
        if syncer.isRunning {
          syncer.Stop();
        }
        var em := store.Get("email");
        var ps := store.Get("pass");
        sm := Connect(uid, simId, em, ps);
      }
      var ddpdata := GenerateMsg(STATUS, sessionId, marshal(sm));
      wire := wire + [ddpdata.value];
      CheckOnline();
    }

    function StatusDatagram(session: u32, sm: StatusMsg): seq<u8> {
      Generated(Msg(STATUS, session, marshal(sm))).value
    }

    /** A status datagram is read as a status message of that session exactly if its JSON fits and decodes. */
    lemma StatusIsRead(session: u32, sm: StatusMsg, json: Json)
      ensures ParsedFrom(StatusDatagram(session, sm), json) == Parsed(Msg(0x10, session, marshal(sm)))
         <==> |marshal(sm)| < 0x1_0000 && json(0x10, marshal(sm))
    {
      hide Generated, ParsedFrom;
      RoundTripsExactly(Msg(0x10, session, marshal(sm)), json);
    }

    method CheckOnline()
      modifies this`sessionId, this`messageCnt
      ensures messageCnt == if old(messageCnt) == 1 then 15 else old(messageCnt) - 1
      ensures sessionId == if old(messageCnt) == 1 then 0 else old(sessionId)
    {
      messageCnt := messageCnt - 1;
      if messageCnt == 0 {
        sessionId := 0;
        messageCnt := TIME_OUT_CNT;
      }
    }

    method ReadFailed()
      requires Valid()
      modifies this`sessionId
      ensures Valid() && Abs() == Step(old(Abs()), FailedRead)
    {
      sessionId := 0;
    }

    /** `created` and `write` are how the store's two file operations end. */
    method Logout(created: bool, write: Write) returns (ok: bool)
      requires Valid()
      modifies this`sessionId, this`messageCnt, this`terminalOnline, store
      ensures Valid() && Abs() == Step(old(Abs()), LoggedOut)
      ensures ok == created
      ensures store.data == if created then Assigned(map[], "step", "setupWifi", write) else map[]
    {
      sessionId := 0;
      messageCnt := TIME_OUT_CNT;
      terminalOnline := false;
      ok := store.Del(created);
      if ok {
        var _ := store.Set("step", "setupWifi", write);
      }
    }

    /**
     A packet without a message id byte is an index fault in the source.  An urgent packet waits like the
     others and is also handed to the serve loop, which sends it at once if there is a connection.
     */
    method UpdateFromFMU(packet: seq<u8>, connected: bool)
      requires Valid() && |packet| > 5
      modifies this`msgs, this`wire
      ensures Valid() && msgs == Pending(old(msgs), Put(packet))
      ensures wire == old(wire) + if packet[5] in {22, 44, 47, 77, 148} && connected then [Datagram(sessionId, packet)]
                                  else []
    {
      hide Sealed, Body, Inv;
      var op := packet[5];
      msgs := msgs[op := packet];
      if Urgent(packet[5]) {
        var send := GenerateMsg(MAVLINK_BIN, sessionId, packet);
        if connected {
          wire := wire + [send.value];
        }
      }
    }

    /** One packet goes out and leaves the map under its own message id. */
    method SendWaiting(packet: seq<u8>)
      requires |packet| > 5
      modifies this`msgs, this`wire
      ensures wire == old(wire) + [Datagram(sessionId, packet)] && msgs == old(msgs) - {packet[5]}
    {
      var send := GenerateMsg(MAVLINK_BIN, sessionId, packet);
      wire := wire + [send.value];
      msgs := msgs - {packet[5]};
    }

    /** A turn of the sync timer: every waiting packet goes out, in whatever order the map yields its keys. */
    method FlushMsgs(connected: bool) returns (order: seq<u8>)
      requires Valid()
      modifies this`msgs, this`wire
      ensures Valid()
      ensures sessionId == 0 || !connected ==> order == [] && msgs == old(msgs) && wire == old(wire)
      ensures sessionId != 0 && connected ==>
        && msgs == Pending(old(msgs), Flush)
        && Enumerates(order, old(msgs).Keys)
        && wire == old(wire) + Datagrams(sessionId, order, old(msgs))
    {
      hide Datagram, Datagrams, Enumerates, Inv;
      order := [];
      if sessionId != 0 && connected {   // without a connection the datagrams are built and dropped
        order := SendAll();
      }
    }

    method SendAll() returns (order: seq<u8>)
      requires Keyed(msgs)
      modifies this`msgs, this`wire
      ensures msgs == map[] && Enumerates(order, old(msgs).Keys)
      ensures wire == old(wire) + Datagrams(sessionId, order, old(msgs))
    {
      hide Flushing, Enumerates, Datagram, Datagrams, Keyed;
      order := [];
      ghost var waiting := msgs;
      var left := msgs.Keys;
      FlushStarts(sessionId, waiting);
      while left != {}
        modifies this`msgs, this`wire
        invariant Flushing(waiting, left, msgs, order)
        invariant wire == old(wire) + Datagrams(sessionId, order, waiting)
        decreases |left|
      {
        var op :| op in left;
        FlushStep(sessionId, waiting, left, msgs, order, op, old(wire));
        left := left - {op};
        SendWaiting(msgs[op]);
        order := order + [op];
      }
      FlushEnds(waiting, left, msgs, order);
    }
  }

  /** Under way: `left` is still to go out, the rest has, in this order. */
  ghost predicate Flushing(waiting: map<u8, seq<u8>>, left: set<u8>, msgs: map<u8, seq<u8>>, order: seq<u8>) {
    left <= waiting.Keys && msgs == waiting - (waiting.Keys - left) && Enumerates(order, waiting.Keys - left)
  }

  lemma FlushStarts(session: u32, msgs: map<u8, seq<u8>>)
    ensures Flushing(msgs, msgs.Keys, msgs, []) && Datagrams(session, [], msgs) == []
  {
    NoneListed<u8>();
    assert msgs.Keys - msgs.Keys == {};
  }

  lemma FlushEnds(waiting: map<u8, seq<u8>>, left: set<u8>, msgs: map<u8, seq<u8>>, order: seq<u8>)
    requires Flushing(waiting, left, msgs, order) && left == {}
    ensures msgs == map[] && Enumerates(order, waiting.Keys)
  {
    assert waiting.Keys - left == waiting.Keys;
  }

  /** One more packet out: the order, the map and the wire move on together. */
  lemma FlushStep(session: u32, waiting: map<u8, seq<u8>>, left: set<u8>, msgs: map<u8, seq<u8>>, order: seq<u8>,
                  op: u8, wire: seq<seq<u8>>)
    requires Keyed(waiting) && Flushing(waiting, left, msgs, order) && op in left
    ensures op in msgs && op in waiting && msgs[op] == waiting[op] && |msgs[op]| > 5 && msgs[op][5] == op
    ensures Flushing(waiting, left - {op}, msgs - {op}, order + [op])
    ensures wire + Datagrams(session, order, waiting) + [Datagram(session, waiting[op])]
         == wire + Datagrams(session, order + [op], waiting)
  {
    hide Datagram, Datagrams, Enumerates;
    var done := waiting.Keys - left;
    OneMoreListed(order, done, op);
    assert waiting.Keys - (left - {op}) == done + {op};
    OneFewer(waiting, done, op);
    DatagramsSnoc(session, order, waiting, op);
    Appends(wire, Datagrams(session, order, waiting), Datagram(session, waiting[op]));
  }

  lemma Appends(a: seq<seq<u8>>, b: seq<seq<u8>>, x: seq<u8>)
    ensures a + b + [x] == a + (b + [x])
  {
  }

  lemma OneFewer(msgs: map<u8, seq<u8>>, done: set<u8>, op: u8)
    ensures msgs - done - {op} == msgs - (done + {op})
  {
  }

  function Datagram(session: u32, packet: seq<u8>): seq<u8> {
    Generated(Msg(MAVLINK_BIN, session, packet)).value
  }

  /** A packet's datagram is read as a binary MAVLink message of that session exactly if the packet fits. */
  lemma DatagramIsRead(session: u32, packet: seq<u8>, json: Json)
    ensures ParsedFrom(Datagram(session, packet), json) == Parsed(Msg(0xFE, session, packet)) <==> |packet| < 0x1_0000
  {
    hide Generated, ParsedFrom;
    RoundTripsExactly(Msg(0xFE, session, packet), json);
  }

  /** The datagrams of the waiting packets in the given order. */
  function Datagrams(session: u32, order: seq<u8>, msgs: map<u8, seq<u8>>): seq<seq<u8>> {
    if order == [] then []
    else if order[0] in msgs then [Datagram(session, msgs[order[0]])] + Datagrams(session, order[1..], msgs)
    else Datagrams(session, order[1..], msgs)
  }

  lemma {:induction false} DatagramsSnoc(session: u32, order: seq<u8>, msgs: map<u8, seq<u8>>, op: u8)
    requires op in msgs
    ensures Datagrams(session, order + [op], msgs) == Datagrams(session, order, msgs) + [Datagram(session, msgs[op])]
  {
    hide Datagram;
    if order == [] {
      assert [op][1..] == [];
    } else {
      assert (order + [op])[1..] == order[1..] + [op];
      DatagramsSnoc(session, order[1..], msgs, op);
    }
  }
}
