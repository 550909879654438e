/**
 The dispatcher's objects: commands whose status and send count change in place while the queue holds
 them, and the vehicle that owns the queue.  Every method is proved against the transition of the same
 name in CommandDispatcher, so the theorems about runs hold of it.
 */
module VehicleObjects {
  import opened Bytes
  import opened Heap
  import opened PriorityQueue
  import opened CommandDispatcher

  class VehicleCommand {
    const command: u16
    var status: nat
    var timesSent: nat

    constructor (command: u16)
      ensures this.command == command && status == 10 && timesSent == 0
    {
      this.command := command;
      status := UNANSWERED;
      timesSent := 0;
    }
  }

  class Vehicle {
    const commandQueue: PQueue<VehicleCommand>
    var commandLast: int
    var commandLastInfo: int
    var wire: seq<VehicleCommand>         // commands handed to the MAVLink writer, in order
    ghost var ops: map<VehicleCommand, int>  // every command ever queued, and the op it was queued under

    ghost function Table(): map<VehicleCommand, Cmd>
      reads this, ops.Keys
    {
      map c | c in ops :: Cmd(ops[c], c.status, c.timesSent)
    }

    ghost function Abs(): State<VehicleCommand>
      reads this, commandQueue, ops.Keys
    {
      State(commandQueue.items, Table(), commandLast, commandLastInfo, wire)
    }

    ghost predicate Valid()
      reads this, commandQueue, ops.Keys
    {
      && commandQueue.Valid() && commandQueue.kind == MINPQ
      && (forall c <- ops :: c.command == ops[c] % 65536)
      && Inv(Abs())
    }

    constructor ()
      ensures Valid() && fresh(commandQueue)
      ensures Abs() == Initial()
    {
      commandQueue := new PQueue(MINPQ);
      commandLast, commandLastInfo := 10, -1;
      wire, ops := [], map[];
      new;
      InitialInv<VehicleCommand>();
    }

    method DoGenericCommand(op: int) returns (cmd: VehicleCommand)
      requires Valid()
      modifies this`ops, commandQueue
      ensures Valid()
      ensures fresh(cmd) && Legal(old(Abs()), Enqueue(cmd, op))
      ensures Abs() == Step(old(Abs()), Enqueue(cmd, op))
    {
      hide Inv, Push, Ordered, Filled;
      ghost var before := Abs();
      InvIsLinked(before);
      cmd := new VehicleCommand(op % 65536);
      EnqueuedInv(before, cmd, op);
      commandQueue.Push(cmd, op);
      ops := ops[cmd := op];
      assert Table() == before.cmds[cmd := Cmd(op, UNANSWERED, 0)];
    }

    /** UpdateFromAck: the head takes the result if it was queued under this command number. */
    method UpdateFromAck(command: u16, result: u8)
      requires Valid()
      modifies ops.Keys
      ensures Valid() && ops == old(ops)
      ensures Legal(old(Abs()), Ack(command, result)) && Abs() == Step(old(Abs()), Ack(command, result))
    {
      hide Inv;
      ghost var before := Abs();
      InvIsLinked(before);
      AckedInv(before, command, result);
      var size := commandQueue.Size();
      if size > 0 {
        var head := commandQueue.Head();
        if head.priority == command {
          head.value.status := result;
        }
      }
      assert Abs() == Acked(before, command, result);
    }

    /** Takes a finished head off the queue. */
    method DropHead()
      requires Valid() && |commandQueue.items| > 1 && Linked(Abs())
      requires Abs().cmds[Abs().heap[1].value].Done()
      modifies commandQueue
      ensures Valid() && Abs() == old(Abs()).(heap := Pop(MINPQ, old(Abs()).heap).1)
    {
      hide Inv, Ordered, Filled, Pop;
      ghost var before := Abs();
      DroppedInv(before);
      InvIgnoresLast(before.(heap := Pop(MINPQ, before.heap).1), Ticked(before));
      var _ := commandQueue.Pop();
      assert Abs() == before.(heap := Pop(MINPQ, before.heap).1);
    }

    /** Sends an unfinished head, which stays queued. */
    method TransmitHead(cmd: VehicleCommand)
      requires Valid() && |commandQueue.items| > 1 && Linked(Abs())
      requires cmd == Abs().heap[1].value && !Abs().cmds[cmd].Done()
      modifies this`wire, cmd
      ensures Valid() && Abs() == old(Abs()).(sent := old(Abs()).sent + [cmd],
                                              cmds := old(Abs()).cmds[cmd := Sent(old(Abs()).cmds[cmd])])
    {
      hide Inv, Ordered, Filled;
      ghost var before := Abs();
      TransmittedInv(before);
      ghost var cmds := before.cmds[cmd := Sent(before.cmds[cmd])];
      InvIgnoresLast(before.(sent := before.sent + [cmd], cmds := cmds), Ticked(before));
      wire := wire + [cmd];
      cmd.timesSent := cmd.timesSent + 1;
      assert Table() == before.cmds[cmd := Sent(before.cmds[cmd])];
    }

    /** One tick past the initialisation gate. */
    method SysOnlineHandler()
      requires Valid()
      modifies this, commandQueue, ops.Keys
      ensures Valid() && ops == old(ops)
      ensures Legal(old(Abs()), Tick) && Abs() == Step(old(Abs()), Tick)
    {
      hide Inv, Pop, Ordered, Filled, Linked;
      ghost var before := Abs();
      InvIsLinked(before);
      HeadIsIndexed(before);
      var size := commandQueue.Size();
      if size > 0 {
        var head := commandQueue.Head();
        var cmd := head.value;
        commandLast := cmd.command;
        commandLastInfo := cmd.status;
        InvIgnoresLast(Abs(), before);
        LinkedIgnoresLast(Abs(), before);
        if cmd.status == ACCEPTED {
          DropHead();
        } else if cmd.status == DENIED || cmd.status == UNSUPPORTED || cmd.status == FAILED {
          DropHead();
        } else if cmd.timesSent > 5 {
          DropHead();
        } else {
          TransmitHead(cmd);
        }
      }
    }
  }

  /** The last-command fields play no part in the invariant. */
  lemma InvIgnoresLast<K>(s: State<K>, t: State<K>)
    requires s == t.(last := s.last, lastInfo := s.lastInfo)
    ensures Inv(s) <==> Inv(t)
  {
  }

  lemma LinkedIgnoresLast<K>(s: State<K>, t: State<K>)
    requires s == t.(last := s.last, lastInfo := s.lastInfo)
    ensures Linked(s) <==> Linked(t)
  {
  }
}
