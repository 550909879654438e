/**
 Gate and dispatcher in one run: packets, timeouts, refreshes, turns of the state handler, pushes and
 acknowledgements in any order.  Commands reach the wire only through the gate.
 */
module VehicleRuns {
  import opened Bytes
  import opened Heap
  import opened PriorityQueue
  import Gate = InitialisationGate
  import Queue = CommandDispatcher

  datatype Vehicle<K> = Vehicle(gate: Gate.Trace, queue: Queue.State<K>)

  datatype Move<K> = GateMoves(step: Gate.Step) | Pushed(key: K, op: int) | Acked(command: u16, result: u8)

  function Initial<K>(): Vehicle<K> {
    Vehicle(Gate.Trace(Gate.Initial(), []), Queue.Initial())
  }

  /** This move is a turn of the state handler that gets through to the queue. */
  predicate Serves<K>(v: Vehicle<K>, m: Move<K>) {
    m.GateMoves? && m.step.Tick? && Gate.Serve in Gate.Ticked(v.gate.s, m.step.expired).1
  }

  ghost predicate Legal<K>(v: Vehicle<K>, m: Move<K>) {
    Queue.Linked(v.queue) && (m.Pushed? ==> m.key !in v.queue.cmds)
  }

  function Moved<K>(v: Vehicle<K>, m: Move<K>): Vehicle<K>
    requires Legal(v, m)
  {
    match m
    case GateMoves(step) =>
      Vehicle(Gate.Next(v.gate, step), if Serves(v, m) then Queue.Ticked(v.queue) else v.queue)
    case Pushed(k, op) => v.(queue := Queue.Enqueued(v.queue, k, op))
    case Acked(command, result) => v.(queue := Queue.Acked(v.queue, command, result))
  }

  ghost predicate LegalRun<K>(v: Vehicle<K>, ms: seq<Move<K>>)
    decreases |ms|
  {
    ms != [] ==> Legal(v, ms[0]) && LegalRun(Moved(v, ms[0]), ms[1..])
  }

  function Run<K>(v: Vehicle<K>, ms: seq<Move<K>>): Vehicle<K>
    requires LegalRun(v, ms)
    decreases |ms|
  {
    if ms == [] then v else Run(Moved(v, ms[0]), ms[1..])
  }

  ghost predicate Inv<K>(v: Vehicle<K>) {
    Gate.Honest(v.gate) && Queue.Inv(v.queue)
  }

  lemma MovedInv<K>(v: Vehicle<K>, m: Move<K>)
    requires Inv(v) && Legal(v, m)
    ensures Inv(Moved(v, m))
  {
    hide Gate.Honest, Queue.Inv, Gate.Next, Queue.Ticked, Queue.Enqueued, Queue.Acked;
    match m
    case GateMoves(step) =>
      Gate.StaysHonest(v.gate, step);
      Queue.TickedInv(v.queue);
    case Pushed(k, op) => Queue.EnqueuedInv(v.queue, k, op);
    case Acked(command, result) => Queue.AckedInv(v.queue, command, result);
  }

  lemma {:induction false} RunInv<K>(v: Vehicle<K>, ms: seq<Move<K>>)
    requires Inv(v) && LegalRun(v, ms)
    ensures Inv(Run(v, ms))
    decreases |ms|
  {
    hide Inv, Moved;
    if ms != [] {
      MovedInv(v, ms[0]);
      RunInv(Moved(v, ms[0]), ms[1..]);
    }
  }

  /** A queued command of least op whose status is not final and that went out fewer than six times. */
  ghost predicate Pending<K>(s: Queue.State<K>, x: Slot<K>) {
    && Extremal(MINPQ, Bag(s.heap), x) && x.value in s.cmds
    && s.cmds[x.value].status !in {0, 2, 3, 4} && multiset(s.sent)[x.value] < 6
  }

  /**
   In every run, a move puts a command on the wire exactly when it is a turn of the state handler, the log
   so far lets the queue be served, and the head is an unfinished command; what goes out then is that
   command, of least op.
   */
  lemma TransmitsExactly<K>(ms: seq<Move<K>>, m: Move<K>)
    requires LegalRun(Initial<K>(), ms) && Legal(Run(Initial<K>(), ms), m)
    ensures var v := Run(Initial<K>(), ms);
            var q, sent := v.queue, Moved(v, m).queue.sent;
            && (sent != q.sent
                <==> && m.GateMoves? && m.step.Tick? && Gate.MayServe(v.gate.log)
                     && |q.heap| > 1 && q.heap[1].Item? && Pending(q, q.heap[1]))
            && (sent != q.sent ==> sent == q.sent + [q.heap[1].value])
  {
    hide Gate.Honest, Gate.Next, Gate.MayServe, Gate.Ticked, Bag, Ordered, Pop;
    var v := Run(Initial<K>(), ms);
    Gate.StartsHonest();
    Queue.InitialInv<K>();
    RunInv(Initial<K>(), ms);
    if m.GateMoves? && m.step.Tick? {
      Gate.ServesExactly(v.gate, m.step.expired);
    }
    var q := v.queue;
    Queue.HeadIsIndexed(q);
    if |q.heap| > 1 {
      HeadIsExtremal(MINPQ, q.heap);
    }
  }

  /** A turn of the state handler object, as its contract gives it, is a move of the whole vehicle, whatever the log. */
  lemma TurnIsMove<K>(g: Gate.State, q: Queue.State<K>, g': Gate.State, q': Queue.State<K>,
                      expired: bool, acts: seq<Gate.Action>, log: seq<Gate.Action>)
    requires Queue.Linked(q) && (g', acts) == Gate.Ticked(g, expired)
    requires Gate.Serve in acts ==> q' == Queue.Step(q, Queue.Tick)
    requires Gate.Serve !in acts ==> q' == q
    ensures Moved(Vehicle(Gate.Trace(g, log), q), GateMoves(Gate.Tick(expired)))
         == Vehicle(Gate.Trace(g', log + acts), q')
  {
  }
}
