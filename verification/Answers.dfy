/**
 What becomes of a command over a whole run of the dispatcher: its status is the last acknowledgement
 that found it at the head, and that decides whether it can leave without ever having been sent.
 */
module CommandAnswers {
  import opened Bytes
  import opened Heap
  import PriorityQueue
  import opened CommandDispatcher

  // ---------- runs by their last event ----------

  lemma {:induction false} RunSnoc<K>(s: State<K>, es: seq<Event<K>>, e: Event<K>)
    requires LegalRun(s, es + [e])
    ensures LegalRun(s, es) && Legal(Run(s, es), e) && Run(s, es + [e]) == Step(Run(s, es), e)
    decreases |es|
  {
    hide Step, Legal;
    if es == [] {
      assert es + [e] == [e] && [e][1..] == [];
    } else {
      assert (es + [e])[1..] == es[1..] + [e] && (es + [e])[0] == es[0];
      RunSnoc(Step(s, es[0]), es[1..], e);
    }
  }

  lemma {:induction false} PrefixLegal<K>(s: State<K>, es: seq<Event<K>>, i: nat)
    requires LegalRun(s, es) && i <= |es|
    ensures LegalRun(s, es[..i])
    decreases |es|
  {
    hide Step, Legal;
    if i > 0 {
      assert es[..i][0] == es[0] && es[..i][1..] == es[1..][..i - 1];
      PrefixLegal(Step(s, es[0]), es[1..], i - 1);
    }
  }

  /** The state when event i comes. */
  ghost function At<K>(es: seq<Event<K>>, i: nat): State<K>
    requires LegalRun(Initial<K>(), es) && i <= |es|
  {
    PrefixLegal(Initial<K>(), es, i);
    Run(Initial<K>(), es[..i])
  }

  lemma AtPrefix<K>(es: seq<Event<K>>, n: nat, i: nat)
    requires LegalRun(Initial<K>(), es) && i <= n <= |es|
    ensures LegalRun(Initial<K>(), es[..n]) && At(es[..n], i) == At(es, i)
  {
    PrefixLegal(Initial<K>(), es, n);
    assert es[..n][..i] == es[..i];
  }

  /** The last event of a run and the state it comes to. */
  lemma LastStep<K>(es: seq<Event<K>>)
    requires LegalRun(Initial<K>(), es) && es != []
    ensures var n := |es| - 1;
            && LegalRun(Initial<K>(), es[..n])
            && var s := Run(Initial<K>(), es[..n]);
               Inv(s) && Legal(s, es[n]) && Run(Initial<K>(), es) == Step(s, es[n]) && At(es, n) == s
  {
    hide Inv, Step, Legal;
    var n := |es| - 1;
    assert es == es[..n] + [es[n]];
    RunSnoc(Initial<K>(), es[..n], es[n]);
    InitialInv<K>();
    RunInv(Initial<K>(), es[..n]);
  }

  // ---------- answers ----------

  /** The event is an acknowledgement that finds k at the head. */
  ghost predicate Hits<K>(s: State<K>, e: Event<K>, k: K) {
    e.Ack? && |s.heap| > 1 && s.heap[1] == Item(k, e.command)
  }

  /** Event i is the latest such acknowledgement. */
  ghost predicate LastAnswer<K>(es: seq<Event<K>>, i: nat, k: K)
    requires LegalRun(Initial<K>(), es)
  {
    && i < |es| && Hits(At(es, i), es[i], k)
    && forall j :: i < j < |es| ==> !Hits(At(es, j), es[j], k)
  }

  lemma StepStatus<K>(s: State<K>, e: Event<K>, k: K)
    requires Inv(s) && Legal(s, e) && k in Step(s, e).cmds
    ensures k !in s.cmds ==> Step(s, e).cmds[k].status == UNANSWERED && Step(s, e).cmds[k].timesSent == 0
    ensures k !in s.cmds ==> !Hits(s, e, k)
    ensures k in s.cmds ==>
      && Step(s, e).cmds[k].status == (if Hits(s, e, k) then e.result as nat else s.cmds[k].status)
      && Step(s, e).cmds[k].timesSent >= s.cmds[k].timesSent
      && (s.cmds[k].Final() || e.Ack? ==> Step(s, e).cmds[k].timesSent == s.cmds[k].timesSent)
      && (Hits(s, e, k) ==> e.Ack?)
  {
    hide Inv, Push, Pop;
    HeadIsIndexed(s);
  }

  /** Over a run: the status is that of the last answer, 10 if there is none. */
  lemma {:induction false} StatusIsLastAnswer<K>(es: seq<Event<K>>, k: K)
    requires LegalRun(Initial<K>(), es) && k in Run(Initial<K>(), es).cmds
    ensures var c := Run(Initial<K>(), es).cmds[k];
            && (forall i: nat :: LastAnswer(es, i, k) ==> c.status == es[i].result)
            && ((forall i: nat :: !LastAnswer(es, i, k)) ==> c.status == 10)
    decreases |es|
  {
    hide Inv, Step, Legal, Run, LegalRun, At, Hits, LastAnswer;
    if es == [] {
      NothingYet<K>();
    } else {
      var n := |es| - 1;
      LastStep(es);
      var s := Run(Initial<K>(), es[..n]);
      StepStatus(s, es[n], k);
      AnswersBefore(es, k);
      if k in s.cmds {
        StatusIsLastAnswer(es[..n], k);
      } else {
        NoAnswerYet(es[..n], k);
      }
    }
  }

  /** The last event apart, the answers are those of the run before it. */
  lemma AnswersBefore<K>(es: seq<Event<K>>, k: K)
    requires LegalRun(Initial<K>(), es) && es != []
    ensures var n := |es| - 1;
            && LegalRun(Initial<K>(), es[..n]) && At(es, n) == Run(Initial<K>(), es[..n])
            && forall i: nat ::
                 && (LastAnswer(es, i, k) <==> if Hits(At(es, n), es[n], k) then i == n else LastAnswer(es[..n], i, k))
                 && (LastAnswer(es[..n], i, k) ==> i < n && es[..n][i] == es[i])
  {
    hide At, Hits, LegalRun;
    var n := |es| - 1;
    PrefixLegal(Initial<K>(), es, n);
    AtIs(es, n);
    forall i: nat | i <= n ensures At(es[..n], i) == At(es, i) {
      AtPrefix(es, n, i);
    }
    assert forall i: nat :: i < n ==> es[..n][i] == es[i];
  }

  lemma AtIs<K>(es: seq<Event<K>>, n: nat)
    requires LegalRun(Initial<K>(), es) && n <= |es|
    ensures LegalRun(Initial<K>(), es[..n]) && At(es, n) == Run(Initial<K>(), es[..n])
  {
    PrefixLegal(Initial<K>(), es, n);
  }

  lemma NothingYet<K>()
    ensures LegalRun(Initial<K>(), []) && Run(Initial<K>(), []).cmds == map[]
  {
  }

  lemma NoneAnswered<K>(es: seq<Event<K>>, k: K)
    requires LegalRun(Initial<K>(), es) && es == []
    ensures forall i: nat :: !LastAnswer(es, i, k)
  {
  }

  lemma StepUnknown<K>(s: State<K>, e: Event<K>, k: K)
    requires Inv(s) && Legal(s, e) && k !in Step(s, e).cmds
    ensures k !in s.cmds && !Hits(s, e, k)
  {
    hide Inv, Push, Pop;
    HeadIsIndexed(s);
  }

  /** A command not yet queued was not answered. */
  lemma {:induction false} NoAnswerYet<K>(es: seq<Event<K>>, k: K)
    requires LegalRun(Initial<K>(), es) && k !in Run(Initial<K>(), es).cmds
    ensures forall i: nat :: !LastAnswer(es, i, k)
    decreases |es|
  {
    hide Inv, Step, Legal, Run, LegalRun, At, Hits, LastAnswer;
    if es == [] {
      NoneAnswered(es, k);
    } else {
      var n := |es| - 1;
      LastStep(es);
      var s := Run(Initial<K>(), es[..n]);
      StepUnknown(s, es[n], k);
      AnswersBefore(es, k);
      NoAnswerYet(es[..n], k);
    }
  }

  // ---------- what a tick does ----------

  /**
   A tick on the head k, from the log of events alone: it removes k unsent exactly when the last
   acknowledgement that found k at the head carried result 0, 2, 3 or 4, or k has been sent six times; else
   it sends k and keeps it queued.
   */
  lemma TickDropsExactly<K>(es: seq<Event<K>>, k: K)
    requires LegalRun(Initial<K>(), es + [Tick])
    ensures LegalRun(Initial<K>(), es)
    ensures var s := Run(Initial<K>(), es);
            var t := Run(Initial<K>(), es + [Tick]);
            |s.heap| > 1 && s.heap[1].Item? && s.heap[1].value == k ==>
              if multiset(s.sent)[k] == 6 || exists i: nat :: LastAnswer(es, i, k) && es[i].result in {0, 2, 3, 4} then
                PriorityQueue.Bag(t.heap) == PriorityQueue.Bag(s.heap) - multiset{s.heap[1]} && t.sent == s.sent
              else
                t.heap == s.heap && t.sent == s.sent + [k]
  {
    hide Inv, Run, LegalRun, LastAnswer, Heap.Pop, PriorityQueue.Bag;
    RunSnoc(Initial<K>(), es, Tick);
    InitialInv<K>();
    RunInv(Initial<K>(), es);
    var s := Run(Initial<K>(), es);
    if |s.heap| > 1 && s.heap[1].Item? && s.heap[1].value == k {
      HeadCount(s);
      StatusIsLastAnswer(es, k);
      if s.cmds[k].Done() {
        HeadGoes(s);
      }
    }
  }

  lemma HeadCount<K>(s: State<K>)
    requires Inv(s) && |s.heap| > 1
    ensures s.heap[1].Item? && s.heap[1].value in s.cmds
    ensures multiset(s.sent)[s.heap[1].value] == s.cmds[s.heap[1].value].timesSent <= 6
  {
    HeadIsIndexed(s);
  }

  lemma HeadGoes<K>(s: State<K>)
    requires Inv(s) && |s.heap| > 1
    ensures PriorityQueue.Bag(Pop(MINPQ, s.heap).1) == PriorityQueue.Bag(s.heap) - multiset{s.heap[1]}
  {
    PriorityQueue.PopBag(MINPQ, s.heap);
  }

  // ---------- leaving unsent ----------

  /** Its last answer was final and found it before its first transmission. */
  ghost predicate AnsweredUnsent<K>(es: seq<Event<K>>, k: K)
    requires LegalRun(Initial<K>(), es)
  {
    exists i: nat :: LastAnswer(es, i, k) && k in At(es, i).cmds
      && es[i].result in {0, 2, 3, 4} && At(es, i).cmds[k].timesSent == 0
  }

  lemma InRange<K>(es: seq<Event<K>>, i: nat, k: K)
    requires LegalRun(Initial<K>(), es) && LastAnswer(es, i, k)
    ensures i < |es|
  {
  }

  lemma KeepsKnown<K>(s: State<K>, e: Event<K>, k: K)
    requires Legal(s, e) && k in s.cmds
    ensures k in Step(s, e).cmds
  {
  }

  lemma AtHit<K>(es: seq<Event<K>>, i: nat, n: nat, k: K)
    requires LegalRun(Initial<K>(), es) && LastAnswer(es, i, k) && n == |es| - 1
    ensures Hits(At(es, n), es[n], k) <==> i == n
  {
  }

  lemma {:induction false} AnsweredStaysUnsent<K>(es: seq<Event<K>>, i: nat, k: K)
    requires LegalRun(Initial<K>(), es) && LastAnswer(es, i, k) && k in At(es, i).cmds
    ensures k in Run(Initial<K>(), es).cmds
    ensures Run(Initial<K>(), es).cmds[k].timesSent >= At(es, i).cmds[k].timesSent
    ensures Run(Initial<K>(), es).cmds[k].status == es[i].result
    ensures Cmd(0, es[i].result, 0).Final() ==>
      Run(Initial<K>(), es).cmds[k].timesSent == At(es, i).cmds[k].timesSent
    decreases |es|
  {
    hide Inv, Step, Legal, Run, LegalRun, At, Hits, LastAnswer;
    var n := |es| - 1;
    InRange(es, i, k);
    LastStep(es);
    var s := Run(Initial<K>(), es[..n]);
    AnswersBefore(es, k);
    if i < n {
      AtPrefix(es, n, i);
      assert es[..n][i] == es[i];
      AnsweredStaysUnsent(es[..n], i, k);
    }
    KeepsKnown(s, es[n], k);
    StepStatus(s, es[n], k);
    AtHit(es, i, n, k);
  }

  /**
   A command that has left was never sent exactly when its last answer was final and came before its first
   transmission.
   */
  lemma LeavesUnsentExactly<K>(es: seq<Event<K>>, k: K)
    requires LegalRun(Initial<K>(), es) && k in Run(Initial<K>(), es).cmds && !Queued(Run(Initial<K>(), es), k)
    ensures multiset(Run(Initial<K>(), es).sent)[k] == 0 <==> AnsweredUnsent(es, k)
  {
    hide Step, Legal, Run, LegalRun, At, Hits, LastAnswer, Queued;
    InitialInv<K>();
    RunInv(Initial<K>(), es);
    var t := Run(Initial<K>(), es);
    DoneOnce(t, k);
    StatusIsLastAnswer(es, k);
    forall i: nat | LastAnswer(es, i, k) ensures i < |es| && es[i].Ack? && k in At(es, i).cmds {
      InRange(es, i, k);
      AnsweredIsKnown(es, i, k);
    }
    forall i: nat | LastAnswer(es, i, k)
      ensures t.cmds[k].timesSent >= At(es, i).cmds[k].timesSent
      ensures Cmd(0, es[i].result, 0).Final() ==> t.cmds[k].timesSent == At(es, i).cmds[k].timesSent
    {
      AnsweredStaysUnsent(es, i, k);
    }
  }

  lemma DoneOnce<K>(t: State<K>, k: K)
    requires Inv(t) && k in t.cmds && !Queued(t, k)
    ensures multiset(t.sent)[k] == t.cmds[k].timesSent
    ensures t.cmds[k].timesSent == 0 ==> t.cmds[k].Final()
  {
  }

  lemma AnsweredIsKnown<K>(es: seq<Event<K>>, i: nat, k: K)
    requires LegalRun(Initial<K>(), es) && LastAnswer(es, i, k)
    ensures i < |es| && es[i].Ack? && k in At(es, i).cmds
  {
    AtIs(es, i);
    InitialInv<K>();
    RunInv(Initial<K>(), es[..i]);
    HeadIsIndexed(At(es, i));
  }

  lemma ConsEvent<K>(s: State<K>, e: Event<K>, es: seq<Event<K>>)
    requires Legal(s, e) && LegalRun(Step(s, e), es)
    ensures LegalRun(s, [e] + es) && Run(s, [e] + es) == Run(Step(s, e), es)
  {
    hide Step, Legal;
    var all := [e] + es;
    assert all[0] == e && all[1..] == es;
  }

  lemma ThreeEvents<K>(s: State<K>, a: Event<K>, b: Event<K>, c: Event<K>)
    requires Legal(s, a) && Legal(Step(s, a), b) && Legal(Step(Step(s, a), b), c)
    ensures LegalRun(s, [a, b, c]) && Run(s, [a, b, c]) == Step(Step(Step(s, a), b), c)
  {
    hide Step, Legal;
    var t := Step(s, a);
    var u := Step(t, b);
    ConsEvent(u, c, []);
    ConsEvent(t, b, [c]);
    ConsEvent(s, a, [b, c]);
    assert [c] + [] == [c] && [b] + [c] == [b, c] && [a] + [b, c] == [a, b, c];
  }

  /** An acceptance meant for an earlier command of the same op drops the next one before it is sent. */
  lemma AcceptedUnsent<K>(k: K, op: u16)
    ensures var es := [Enqueue(k, op), Ack(op, ACCEPTED), Tick];
            && LegalRun(Initial<K>(), es)
            && var t := Run(Initial<K>(), es); k in t.cmds && !Queued(t, k) && t.sent == []
  {
    var s0 := Initial<K>();
    var s1 := Enqueued(s0, k, op);
    PushHead(MINPQ, s0.heap, Item(k, op));
    InitialInv<K>();
    EnqueuedInv(s0, k, op);
    InvIsLinked(s0);
    InvIsLinked(s1);
    var s2 := Acked(s1, op, ACCEPTED);
    AckedInv(s1, op, ACCEPTED);
    InvIsLinked(s2);
    Emptied(s2);
    ThreeEvents(s0, Enqueue(k, op), Ack(op, ACCEPTED), Tick);
  }

  lemma Emptied<K>(s: State<K>)
    requires Linked(s) && |s.heap| == 2 && s.cmds[s.heap[1].value].Final()
    ensures PriorityQueue.Bag(Ticked(s).heap) == multiset{} && Ticked(s).sent == s.sent && Ticked(s).cmds == s.cmds
  {
    PriorityQueue.NilOnce(Ticked(s).heap);
  }
}
