/**
 The command dispatcher of src/vehicle/vehicle.go on values, over whole runs: commands are queued by op
 number, every tick serves the head, acknowledgements change the head's status.  K identifies a queued
 command; the source allocates a new object for each.
 */
module CommandDispatcher {
  import opened Bytes
  import opened Heap
  import opened PriorityQueue

  const ACCEPTED := 0
  const DENIED := 2
  const UNSUPPORTED := 3
  const FAILED := 4
  const UNANSWERED := 10

  const MAX_SENDS := 6

  /** The op is the queue priority; the message carries its low sixteen bits. */
  datatype Cmd = Cmd(op: int, status: nat, timesSent: nat)
  {
    predicate Final() {
      status == ACCEPTED || status == DENIED || status == UNSUPPORTED || status == FAILED
    }

    predicate Done() {
      Final() || timesSent > 5
    }
  }

  function Sent(c: Cmd): Cmd {
    c.(timesSent := c.timesSent + 1)
  }

  datatype State<K> = State(heap: Slots<K>, cmds: map<K, Cmd>, last: int, lastInfo: int, sent: seq<K>)

  datatype Event<K> = Enqueue(key: K, op: int) | Ack(command: u16, result: u8) | Tick

  function Initial<K>(): State<K> {
    State([Nil], map[], 10, -1, [])
  }

  function Enqueued<K>(s: State<K>, k: K, op: int): State<K>
    requires Filled(s.heap)
  {
    s.(heap := Push(MINPQ, s.heap, Item(k, op)), cmds := s.cmds[k := Cmd(op, UNANSWERED, 0)])
  }

  /** Every queued slot names a known command. */
  ghost predicate Linked<K>(s: State<K>) {
    Filled(s.heap) && forall i :: 1 <= i < |s.heap| ==> s.heap[i].value in s.cmds
  }

  function Acked<K>(s: State<K>, command: u16, result: u8): State<K>
    requires Linked(s)
  {
    if |s.heap| > 1 && s.heap[1].priority == command then
      var k := s.heap[1].value;
      s.(cmds := s.cmds[k := s.cmds[k].(status := result)])
    else s
  }

  function Ticked<K>(s: State<K>): State<K>
    requires Linked(s)
  {
    if |s.heap| == 1 then s
    else
      var k := s.heap[1].value;
      var c := s.cmds[k];
      var t := s.(last := c.op % 65536, lastInfo := c.status);
      if c.Done() then t.(heap := Pop(MINPQ, s.heap).1)
      else t.(sent := s.sent + [k], cmds := s.cmds[k := Sent(c)])
  }

  ghost predicate Legal<K>(s: State<K>, e: Event<K>) {
    Linked(s) && (e.Enqueue? ==> e.key !in s.cmds)
  }

  function Step<K>(s: State<K>, e: Event<K>): State<K>
    requires Legal(s, e)
  {
    match e
    case Enqueue(k, op) => Enqueued(s, k, op)
    case Ack(command, result) => Acked(s, command, result)
    case Tick => Ticked(s)
  }

  ghost predicate LegalRun<K>(s: State<K>, es: seq<Event<K>>)
    decreases |es|
  {
    es != [] ==> Legal(s, es[0]) && LegalRun(Step(s, es[0]), es[1..])
  }

  function Run<K>(s: State<K>, es: seq<Event<K>>): State<K>
    requires LegalRun(s, es)
    decreases |es|
  {
    if es == [] then s else Run(Step(s, es[0]), es[1..])
  }

  // ---------- the invariant ----------

  ghost predicate Queued<K>(s: State<K>, k: K) {
    k in s.cmds && Item(k, s.cmds[k].op) in Bag(s.heap)
  }

  /** Each queued slot is the only one of its command and is ranked by its op. */
  ghost predicate Indexed<K>(s: State<K>) {
    forall x <- Bag(s.heap) ::
      x.Item? && Bag(s.heap)[x] == 1 && x.value in s.cmds && x.priority == s.cmds[x.value].op
  }

  ghost predicate Inv<K>(s: State<K>) {
    && Filled(s.heap) && Ordered(MINPQ, s.heap)
    && Indexed(s)
    && (forall k <- s.cmds :: multiset(s.sent)[k] == s.cmds[k].timesSent <= MAX_SENDS)
    && (forall k <- s.cmds :: !Queued(s, k) ==> s.cmds[k].Done())
    && (forall k <- s.sent :: k in s.cmds)
  }

  lemma InvIsLinked<K>(s: State<K>)
    requires Inv(s)
    ensures Linked(s)
  {
    forall i | 1 <= i < |s.heap| ensures s.heap[i].value in s.cmds {
      InBag(s.heap, i);
    }
  }

  lemma InBag<K>(h: Slots<K>, i: nat)
    requires Filled(h) && 1 <= i < |h|
    ensures h[i] in Bag(h)
  {
    assert h[i] in multiset(h);
  }

  lemma InitialInv<K>()
    ensures Inv(Initial<K>())
  {
    var h: Slots<K> := [Nil];
    NilOnce(h);
  }

  lemma EnqueuedInv<K>(s: State<K>, k: K, op: int)
    requires Inv(s) && k !in s.cmds
    ensures Inv(Enqueued(s, k, op))
  {
    hide Push, Bag, Ordered;
    PushOrders(MINPQ, s.heap, Item(k, op));
    PushBag(MINPQ, s.heap, Item(k, op));
    assert multiset(s.sent)[k] == 0;
  }

  lemma AckedInv<K>(s: State<K>, command: u16, result: u8)
    requires Inv(s) && Linked(s)
    ensures Inv(Acked(s, command, result))
  {
    hide Bag;
    if |s.heap| > 1 {
      InBag(s.heap, 1);
    }
  }

  lemma TickedInv<K>(s: State<K>)
    requires Inv(s) && Linked(s)
    ensures Inv(Ticked(s))
  {
    hide Inv, Bag, Ordered, Push, Pop;
    if |s.heap| > 1 {
      HeadIsIndexed(s);
      if s.cmds[s.heap[1].value].Done() {
        DroppedInv(s);
      } else {
        TransmittedInv(s);
      }
    }
  }

  lemma DroppedInv<K>(s: State<K>)
    requires Inv(s) && Linked(s) && |s.heap| > 1 && s.cmds[s.heap[1].value].Done()
    ensures Inv(Ticked(s))
  {
    hide Bag, Ordered, Push, Pop, Cmd.Done;
    InBag(s.heap, 1);
    PopOrders(MINPQ, s.heap);
    PopBag(MINPQ, s.heap);
    var x, t := s.heap[1], Ticked(s);
    forall k <- t.cmds | !Queued(t, k) ensures t.cmds[k].Done() {
      assert Queued(s, k) ==> Item(k, s.cmds[k].op) == x;
    }
  }

  lemma TransmittedInv<K>(s: State<K>)
    requires Inv(s) && Linked(s) && |s.heap| > 1 && !s.cmds[s.heap[1].value].Done()
    ensures Inv(Ticked(s))
  {
    hide Bag, Ordered, Push, Pop;
    InBag(s.heap, 1);
  }

  lemma StepInv<K>(s: State<K>, e: Event<K>)
    requires Inv(s) && Legal(s, e)
    ensures Inv(Step(s, e))
  {
    hide Inv, Enqueued, Acked, Ticked;
    match e
    case Enqueue(k, op) => EnqueuedInv(s, k, op);
    case Ack(command, result) => AckedInv(s, command, result);
    case Tick => TickedInv(s);
  }

  lemma {:induction false} RunInv<K>(s: State<K>, es: seq<Event<K>>)
    requires Inv(s) && LegalRun(s, es)
    ensures Inv(Run(s, es))
    decreases |es|
  {
    hide Inv, Step;
    if es != [] {
      StepInv(s, es[0]);
      RunInv(Step(s, es[0]), es[1..]);
    }
  }

  /**
   Whatever the interleaving, no command is transmitted more than six times, and one leaves the queue
   only with a final status or after its sixth transmission.
   */
  lemma CommandsAreTriedSixTimes<K>(es: seq<Event<K>>, k: K)
    requires LegalRun(Initial<K>(), es) && k in Run(Initial<K>(), es).cmds
    ensures var t := Run(Initial<K>(), es);
            && multiset(t.sent)[k] <= 6
            && (Queued(t, k) || t.cmds[k].status in {0, 2, 3, 4} || multiset(t.sent)[k] == 6)
  {
    InitialInv<K>();
    RunInv(Initial<K>(), es);
  }

  /** A tick drops a command of least op if that is done and transmits it otherwise, and touches no other. */
  lemma TickServesLeastOp<K>(s: State<K>)
    requires Inv(s) && Linked(s) && Bag(s.heap) != multiset{}
    ensures exists x :: Extremal(MINPQ, Bag(s.heap), x) && x.value in s.cmds && Served(s, Ticked(s), x)
  {
    hide Bag, Ordered, Pop;
    NilOnce(s.heap);
    HeadIsExtremal(MINPQ, s.heap);
    PopBag(MINPQ, s.heap);
    InBag(s.heap, 1);
    var x := s.heap[1];
    assert Extremal(MINPQ, Bag(s.heap), x) && x.value in s.cmds;
    assert Served(s, Ticked(s), x);
  }

  /** From s to t the command of slot x was dropped if done and transmitted otherwise; nothing else changed hands. */
  ghost predicate Served<K>(s: State<K>, t: State<K>, x: Slot<K>)
    requires x.Item? && x.value in s.cmds
  {
    var c := s.cmds[x.value];
    && t.cmds.Keys == s.cmds.Keys
    && (forall k <- s.cmds :: k != x.value ==> t.cmds[k] == s.cmds[k])
    && t.last == c.op % 65536 && t.lastInfo == c.status
    && if c.Done() then
         Bag(t.heap) == Bag(s.heap) - multiset{x} && t.sent == s.sent && t.cmds[x.value] == c
       else
         && t.heap == s.heap && t.sent == s.sent + [x.value]
         && t.cmds[x.value] == Sent(c)
  }

  // ---------- acknowledgements ----------

  /** The message carries sixteen bits of the op, so an op outside them is never acknowledged. */
  lemma {:induction false} WideOpStaysUnanswered<K>(s: State<K>, es: seq<Event<K>>, k: K)
    requires Inv(s) && LegalRun(s, es) && k in Run(s, es).cmds
    requires k in s.cmds ==> s.cmds[k].status == UNANSWERED
    requires !(0 <= Run(s, es).cmds[k].op < 65536)
    ensures Run(s, es).cmds[k].status == UNANSWERED
    decreases |es|
  {
    hide Inv;
    if es != [] {
      var t := Step(s, es[0]);
      StepInv(s, es[0]);
      RunKeepsOp(t, es[1..], k);
      HeadIsIndexed(s);
      WideOpStaysUnanswered(t, es[1..], k);
    }
  }

  /** The number the message carries answers an unanswered head exactly when the op fits in sixteen bits. */
  lemma AckAnswersExactly<K>(s: State<K>, result: u8)
    requires Inv(s) && Linked(s) && |s.heap| > 1
    requires s.cmds[s.heap[1].value].status == UNANSWERED && result != UNANSWERED
    ensures var k := s.heap[1].value;
            var op := s.cmds[k].op;
            Acked(s, op % 65536, result).cmds[k].status == result <==> 0 <= op < 65536
  {
    HeadIsIndexed(s);
  }

  /** Some run answers a command of this op exactly when the op fits in sixteen bits. */
  lemma OpAnswerableExactly<K>(k: K, op: int, result: u8)
    requires result != UNANSWERED
    ensures (exists es :: Answers(es, k, op, result)) <==> 0 <= op < 65536
  {
    InitialInv<K>();
    if es :| Answers(es, k, op, result) {
      if !(0 <= op < 65536) {
        WideOpStaysUnanswered(Initial<K>(), es, k);
      }
    }
    if 0 <= op < 65536 {
      OneCommandAcked(k, op, op, result);
      assert Answers([Enqueue(k, op), Ack(op, result)], k, op, result);
    }
  }

  ghost predicate Answers<K>(es: seq<Event<K>>, k: K, op: int, result: u8) {
    && LegalRun(Initial<K>(), es)
    && var t := Run(Initial<K>(), es);
       k in t.cmds && t.cmds[k].op == op && t.cmds[k].status == result
  }

  lemma OneCommandAcked<K>(k: K, op: int, command: u16, result: u8)
    ensures LegalRun(Initial<K>(), [Enqueue(k, op), Ack(command, result)])
    ensures Run(Initial<K>(), [Enqueue(k, op), Ack(command, result)]).cmds
         == map[k := Cmd(op, if command == op then result else UNANSWERED, 0)]
  {
    var s0 := Initial<K>();
    var s1 := Enqueued(s0, k, op);
    PushHead(MINPQ, s0.heap, Item(k, op));
    InitialInv<K>();
    EnqueuedInv(s0, k, op);
    InvIsLinked(s0);
    InvIsLinked(s1);
    var es := [Enqueue(k, op), Ack(command, result)];
    assert es[1..] == [Ack(command, result)] && es[1..][1..] == [];
    var s2 := Acked(s1, command, result);
    assert |s1.heap| == 2 && s1.heap[1] == Item(k, op);
    assert s1.cmds == map[k := Cmd(op, UNANSWERED, 0)];
    assert LegalRun(s2, []) && LegalRun(s1, es[1..]);
    assert Run(s1, es[1..]) == Run(s2, []) == s2;
    assert Run(s0, es) == Run(s1, es[1..]);
  }

  /** Op 65552 goes out as command 16, and the answer to 16 is not taken. */
  lemma WideOpMissesItsAck<K>(k: K)
    ensures var es := [Enqueue(k, 65552), Ack(65552 % 65536, ACCEPTED)];
            && es[1] == Ack(16, ACCEPTED) && LegalRun(Initial<K>(), es)
            && var t := Run(Initial<K>(), es); k in t.cmds && t.cmds[k].status == UNANSWERED
  {
    OneCommandAcked(k, 65552, 16, ACCEPTED);
  }

  lemma HeadIsIndexed<K>(s: State<K>)
    requires Inv(s)
    ensures |s.heap| > 1 ==>
      var x := s.heap[1]; x.Item? && x.value in s.cmds && x.priority == s.cmds[x.value].op
  {
  }

  lemma {:induction false} RunKeepsOp<K>(s: State<K>, es: seq<Event<K>>, k: K)
    requires LegalRun(s, es)
    ensures k in s.cmds ==> k in Run(s, es).cmds && Run(s, es).cmds[k].op == s.cmds[k].op
    decreases |es|
  {
    if es != [] {
      RunKeepsOp(Step(s, es[0]), es[1..], k);
    }
  }

  // ---------- draining ----------

  function Cost<K>(cmds: map<K, Cmd>, x: Slot<K>): nat {
    if x.Item? && x.value in cmds && cmds[x.value].timesSent <= MAX_SENDS then 7 - cmds[x.value].timesSent else 0
  }

  function Work<K>(cmds: map<K, Cmd>, h: Slots<K>): nat {
    if h == [] then 0 else Cost(cmds, h[0]) + Work(cmds, h[1..])
  }

  lemma {:induction false} WorkConcat<K>(cmds: map<K, Cmd>, a: Slots<K>, b: Slots<K>)
    ensures Work(cmds, a + b) == Work(cmds, a) + Work(cmds, b)
  {
    hide Cost;
    if a == [] {
      assert a + b == b;
    } else {
      assert (a + b)[1..] == a[1..] + b;
      WorkConcat(cmds, a[1..], b);
    }
  }

  lemma Without<K>(a: Slots<K>, i: nat)
    requires i < |a|
    ensures a == a[..i] + [a[i]] + a[i + 1..]
    ensures multiset(a) == multiset(a[..i] + a[i + 1..]) + multiset{a[i]}
  {
    assert a == a[..i] + [a[i]] + a[i + 1..];
  }

  lemma Cancel<T>(m: multiset<T>, n: multiset<T>, x: T)
    requires m + multiset{x} == n + multiset{x}
    ensures m == n
  {
    assert m == m + multiset{x} - multiset{x};
    assert n == n + multiset{x} - multiset{x};
  }

  lemma {:induction false} WorkIsSymmetric<K>(cmds: map<K, Cmd>, a: Slots<K>, b: Slots<K>)
    requires multiset(a) == multiset(b)
    ensures Work(cmds, a) == Work(cmds, b)
  {
    hide Cost;
    if a == [] {
      assert |multiset(b)| == |multiset(a)|;
    } else {
      assert a[0] in multiset(b);
      var i :| 0 <= i < |b| && b[i] == a[0];
      WithoutBoth(a, b, i);
      WorkIsSymmetric(cmds, a[1..], b[..i] + b[i + 1..]);
      WorkConcat(cmds, b[..i], b[i + 1..]);
      WorkConcat(cmds, b[..i], [b[i]]);
      WorkConcat(cmds, b[..i] + [b[i]], b[i + 1..]);
    }
  }

  lemma WithoutBoth<K>(a: Slots<K>, b: Slots<K>, i: nat)
    requires multiset(a) == multiset(b) && a != [] && i < |b| && b[i] == a[0]
    ensures multiset(a[1..]) == multiset(b[..i] + b[i + 1..]) && b == b[..i] + [b[i]] + b[i + 1..]
  {
    Without(a, 0);
    Without(b, i);
    var c := a[..0] + a[1..];
    assert c == a[1..];
    Cancel(multiset(c), multiset(b[..i] + b[i + 1..]), a[0]);
  }

  lemma {:induction false} WorkElsewhere<K>(cmds: map<K, Cmd>, k: K, c: Cmd, h: Slots<K>)
    requires forall x <- h :: x.Item? ==> x.value != k
    ensures Work(cmds[k := c], h) == Work(cmds, h)
  {
    if h != [] {
      WorkElsewhere(cmds, k, c, h[1..]);
    }
  }

  lemma {:induction false} WorkBounds<K>(cmds: map<K, Cmd>, h: Slots<K>)
    ensures Work(cmds, h) <= 7 * |h|
    ensures (forall x <- h :: x.Item? && x.value in cmds && cmds[x.value].timesSent <= MAX_SENDS)
      ==> Work(cmds, h) >= |h|
  {
    if h != [] {
      WorkBounds(cmds, h[1..]);
    }
  }

  /** What is left of the queue's sends and drops. */
  function Remaining<K>(s: State<K>): nat {
    Work(s.cmds, s.heap)
  }

  lemma DropWorks<K>(s: State<K>)
    requires Inv(s) && Linked(s) && |s.heap| > 1 && s.cmds[s.heap[1].value].Done()
    ensures Remaining(s) == Remaining(Ticked(s)) + 7 - s.cmds[s.heap[1].value].timesSent > Remaining(Ticked(s))
  {
    hide Pop, Bag, Ordered;
    var x, g := s.heap[1], Pop(MINPQ, s.heap).1;
    HeadIsIndexed(s);
    assert multiset(g + [x]) == multiset(s.heap);
    WorkIsSymmetric(s.cmds, s.heap, g + [x]);
    WorkConcat(s.cmds, g, [x]);
  }

  lemma CostOfSend<K>(cmds: map<K, Cmd>, x: Slot<K>, d: Cmd)
    requires x.Item? && x.value in cmds && d == cmds[x.value].(timesSent := cmds[x.value].timesSent + 1)
    requires d.timesSent <= MAX_SENDS
    ensures Cost(cmds, x) == Cost(cmds[x.value := d], x) + 1
  {
  }

  lemma OnlyOnce<K>(h: Slots<K>, i: nat)
    requires 1 < i < |h| && h[1].Item? && Bag(h)[h[1]] == 1
    ensures h[i] != h[1]
  {
    Without(h, 1);
    assert h[i] == (h[..1] + h[2..])[i - 1];
    assert h[i] in multiset(h[..1] + h[2..]);
  }

  /** No other slot names the head's command. */
  lemma HeadIsAlone<K>(s: State<K>)
    requires Inv(s) && |s.heap| > 1
    ensures forall i :: 2 <= i < |s.heap| ==> s.heap[i].value != s.heap[1].value
  {
    hide Bag, Ordered;
    InBag(s.heap, 1);
    forall i | 2 <= i < |s.heap| ensures s.heap[i].value != s.heap[1].value {
      InBag(s.heap, i);
      OnlyOnce(s.heap, i);
    }
  }

  lemma SendWorks<K>(s: State<K>)
    requires Inv(s) && Linked(s) && |s.heap| > 1 && !s.cmds[s.heap[1].value].Done()
    ensures Remaining(s) == Remaining(Ticked(s)) + 1
  {
    hide Bag, Ordered, Cost;
    var x, rest := s.heap[1], s.heap[..1] + s.heap[2..];
    var c := s.cmds[x.value];
    var d := c.(timesSent := c.timesSent + 1);
    HeadIsIndexed(s);
    HeadIsAlone(s);
    Without(s.heap, 1);
    assert multiset(rest + [x]) == multiset(s.heap);
    assert Ticked(s).heap == s.heap && Ticked(s).cmds == s.cmds[x.value := d];
    WorkIsSymmetric(s.cmds, s.heap, rest + [x]);
    WorkIsSymmetric(s.cmds[x.value := d], s.heap, rest + [x]);
    WorkConcat(s.cmds, rest, [x]);
    WorkConcat(s.cmds[x.value := d], rest, [x]);
    assert forall y <- rest :: y.Item? ==> y.value != x.value;
    WorkElsewhere(s.cmds, x.value, d, rest);
    CostOfSend(s.cmds, x, d);
    assert [x][1..] == [];
  }

  lemma EachQueuedCosts<K>(s: State<K>)
    requires Inv(s)
    ensures |s.heap| - 1 <= Remaining(s) <= 7 * (|s.heap| - 1)
  {
    hide Bag, Ordered;
    var rest := s.heap[1..];
    WorkBounds(s.cmds, rest);
    assert Cost(s.cmds, Nil) == 0;
    forall x <- rest ensures x.Item? && x.value in s.cmds && s.cmds[x.value].timesSent <= MAX_SENDS {
      var i :| 0 <= i < |rest| && rest[i] == x;
      InBag(s.heap, i + 1);
    }
  }

  function Ticks<K>(es: seq<Event<K>>): nat {
    if es == [] then 0 else (if es[0].Tick? then 1 else 0) + Ticks(es[1..])
  }

  lemma QuietStep<K>(s: State<K>, e: Event<K>)
    requires Inv(s) && Legal(s, e) && !e.Enqueue?
    ensures Remaining(Step(s, e)) <= Remaining(s)
    ensures e.Tick? && Remaining(s) > 0 ==> Remaining(Step(s, e)) < Remaining(s)
  {
    hide Inv, Cost, Work, Pop;
    HeadIsIndexed(s);
    EachQueuedCosts(s);
    match e
    case Tick =>
      if |s.heap| > 1 {
        if s.cmds[s.heap[1].value].Done() {
          DropWorks(s);
        } else {
          SendWorks(s);
        }
      }
    case Ack(command, result) =>
      if |s.heap| > 1 {
        var k := s.heap[1].value;
        WorkIgnoresStatus(s.cmds, k, result, s.heap);
      }
  }

  lemma {:induction false} WorkIgnoresStatus<K>(cmds: map<K, Cmd>, k: K, status: nat, h: Slots<K>)
    requires k in cmds
    ensures Work(cmds[k := cmds[k].(status := status)], h) == Work(cmds, h)
  {
    if h != [] {
      WorkIgnoresStatus(cmds, k, status, h[1..]);
    }
  }

  /** With nothing more pushed, whatever is acknowledged, that many ticks empty the queue. */
  lemma {:induction false} Drains<K>(s: State<K>, es: seq<Event<K>>)
    requires Inv(s) && LegalRun(s, es)
    requires forall e <- es :: !e.Enqueue?
    requires Ticks(es) >= Remaining(s)
    ensures |Run(s, es).heap| == 1
    decreases |es|
  {
    hide Inv, Step, Remaining;
    EachQueuedCosts(s);
    if es != [] {
      QuietStep(s, es[0]);
      StepInv(s, es[0]);
      Drains(Step(s, es[0]), es[1..]);
    }
  }

  /** A new command is seven ticks of work: six transmissions and the drop. */
  lemma EnqueuedWorks<K>(s: State<K>, k: K, op: int)
    requires Inv(s) && k !in s.cmds
    ensures Remaining(Enqueued(s, k, op)) == Remaining(s) + 7
  {
    hide Bag, Ordered, Push;
    var x, t := Item(k, op), Enqueued(s, k, op);
    forall y <- s.heap ensures y.Item? ==> y.value != k {
      var i :| 0 <= i < |s.heap| && s.heap[i] == y;
      if i > 0 {
        InBag(s.heap, i);
      }
    }
    assert multiset(s.heap + [x]) == multiset(t.heap);
    WorkIsSymmetric(t.cmds, t.heap, s.heap + [x]);
    WorkConcat(t.cmds, s.heap, [x]);
    WorkElsewhere(s.cmds, k, t.cmds[k], s.heap);
    assert [x][1..] == [];
  }

  /** No queued command has a final answer; those that left may have. */
  ghost predicate Open<K>(s: State<K>) {
    forall k <- s.cmds :: Queued(s, k) ==> !s.cmds[k].Final()
  }

  lemma TickKeepsOpen<K>(s: State<K>)
    requires Inv(s) && Linked(s) && Open(s)
    ensures Open(Ticked(s))
  {
    hide Bag, Ordered, Pop;
    if |s.heap| > 1 {
      PopBag(MINPQ, s.heap);
    }
  }

  /** A vehicle that stops answering holds the queue for exactly the remaining work. */
  lemma {:induction false} SilentDrain<K>(s: State<K>, es: seq<Event<K>>)
    requires Inv(s) && LegalRun(s, es) && Open(s)
    requires forall e <- es :: e.Tick?
    ensures |Run(s, es).heap| == 1 <==> |es| >= Remaining(s)
    decreases |es|
  {
    hide Inv, Remaining, Pop, Open;
    EachQueuedCosts(s);
    HeadIsIndexed(s);
    if es != [] {
      assert es[0].Tick?;
      var t := Ticked(s);
      StepInv(s, es[0]);
      TickKeepsOpen(s);
      if |s.heap| > 1 {
        HeadIsOpen(s);
        if s.cmds[s.heap[1].value].Done() {
          LastSend(s);
          DropWorks(s);
        } else {
          SendWorks(s);
        }
      }
      SilentDrain(t, es[1..]);
    }
  }

  lemma HeadIsOpen<K>(s: State<K>)
    requires Inv(s) && Open(s) && |s.heap| > 1
    ensures s.heap[1].Item? && s.heap[1].value in s.cmds && !s.cmds[s.heap[1].value].Final()
  {
    HeadIsIndexed(s);
    InBag(s.heap, 1);
  }

  lemma LastSend<K>(s: State<K>)
    requires Inv(s) && |s.heap| > 1 && s.heap[1].value in s.cmds && !s.cmds[s.heap[1].value].Final()
    ensures s.cmds[s.heap[1].value].timesSent <= MAX_SENDS
  {
  }

  // ---------- a tick that is not atomic ----------

  function PushAll<K>(h: Slots<K>, its: seq<Slot<K>>): (g: Slots<K>)
    requires Filled(h) && forall it <- its :: it.Item?
    ensures Filled(g) && |g| == |h| + |its|
    decreases |its|
  {
    if its == [] then h else PushAll(Push(MINPQ, h, its[0]), its[1..])
  }

  /** The head after further pushes: only a strictly smaller op takes the place. */
  function Best<K>(head: Slot<K>, its: seq<Slot<K>>): Slot<K>
    requires head.Item? && forall it <- its :: it.Item?
    decreases |its|
  {
    if its == [] then head else Best(if its[0].priority < head.priority then its[0] else head, its[1..])
  }

  lemma {:induction false} BestIsLeast<K>(head: Slot<K>, its: seq<Slot<K>>)
    requires head.Item? && forall it <- its :: it.Item?
    ensures var b := Best(head, its);
            && b.Item? && b.priority <= head.priority && (forall it <- its :: b.priority <= it.priority)
            && (b == head || (b in its && b.priority < head.priority))
    decreases |its|
  {
    if its != [] {
      BestIsLeast(if its[0].priority < head.priority then its[0] else head, its[1..]);
      assert its == [its[0]] + its[1..];
    }
  }

  lemma {:induction false} PushAllHead<K>(h: Slots<K>, its: seq<Slot<K>>)
    requires Filled(h) && Ordered(MINPQ, h) && |h| > 1 && forall it <- its :: it.Item?
    ensures PushAll(h, its)[1] == Best(h[1], its)
    decreases |its|
  {
    hide Ordered, Push;
    if its != [] {
      PushOrders(MINPQ, h, its[0]);
      PushHead(MINPQ, h, its[0]);
      PushAllHead(Push(MINPQ, h, its[0]), its[1..]);
    }
  }

  /**
   Head and Pop lock the queue one at a time.  When pushes come in between, the pop removes the command
   the tick judged exactly when none of them has a strictly smaller op; otherwise it removes a command
   that was only just pushed.
   */
  lemma PopRemovesJudged<K>(h: Slots<K>, its: seq<Slot<K>>)
    requires Filled(h) && Ordered(MINPQ, h) && |h| > 1 && forall it <- its :: it.Item?
    ensures var popped := Pop(MINPQ, PushAll(h, its)).0;
            && (popped == h[1] <==> forall it <- its :: h[1].priority <= it.priority)
            && (popped != h[1] ==> popped in its)
  {
    hide Ordered, Push;
    PushAllHead(h, its);
    BestIsLeast(h[1], its);
  }
}
