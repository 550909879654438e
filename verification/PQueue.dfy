/**
 The priority queue object of src/utils/pqueue.go, and what it guarantees over whole runs: every pop
 serves an extremal element of exactly what is queued, and draining sorts.
 */
module PriorityQueue {
  import opened Heap

  class PQueue<V> {
    var items: Slots<V>
    var elemsCount: nat
    const kind: Kind

    ghost predicate Valid()
      reads this
    {
      |items| == elemsCount + 1 && Ordered(kind, items)
    }

    constructor (kind: Kind)
      ensures Valid() && this.kind == kind && items == [Nil]
    {
      this.kind := kind;
      items := [Nil];
      elemsCount := 0;
    }

    method Push(value: V, priority: int)
      requires Valid()
      modifies this
      ensures Valid()
      ensures items == Heap.Push(kind, old(items), Item(value, priority))
    {
      PushOrders(kind, items, Item(value, priority));
      items := items + [Item(value, priority)];
      elemsCount := elemsCount + 1;
      SwimUp(elemsCount);
    }

    /** The head slot, removed; nil and untouched if the queue is empty. */
    method Pop() returns (max: Slot<V>)
      requires Valid()
      modifies this
      ensures Valid()
      ensures (max, items) == Heap.Pop(kind, old(items))
    {
      if elemsCount < 1 {
        return Nil;
      }
      PopOrders(kind, items);
      max := items[1];
      ExchSlots(1, elemsCount);
      items := items[..elemsCount];
      elemsCount := elemsCount - 1;
      SinkDown(1);
    }

    method Head() returns (head: Slot<V>)
      requires Valid()
      ensures head == if |items| == 1 then Nil else items[1]
    {
      head := if elemsCount < 1 then Nil else items[1];
    }

    method Size() returns (n: nat)
      requires Valid()
      ensures n == |items| - 1
    {
      n := elemsCount;
    }

    method ExchSlots(i: nat, j: nat)
      requires Filled(items) && 1 <= i < |items| && 1 <= j < |items|
      modifies this`items
      ensures items == Exch(old(items), i, j)
    {
      var tmpItem := items[i];
      items := items[i := items[j]];
      items := items[j := tmpItem];
    }

    method SwimUp(k0: nat)
      requires Filled(items) && 1 <= k0 < |items|
      modifies this`items
      ensures items == Swim(kind, old(items), k0)
    {
      var k := k0;
      while k > 1 && Less(kind, items, k / 2, k)
        invariant Filled(items) && 1 <= k < |items|
        invariant Swim(kind, items, k) == Swim(kind, old(items), k0)
      {
        ExchSlots(k / 2, k);
        k := k / 2;
      }
    }

    method SinkDown(k0: nat)
      requires Filled(items) && |items| == elemsCount + 1 && k0 >= 1
      modifies this`items
      ensures items == Sink(kind, old(items), k0)
    {
      hide Sink, Ordered;
      var k := k0;
      while 2 * k <= elemsCount
        invariant Filled(items) && |items| == elemsCount + 1 && k >= 1
        invariant Sink(kind, items, k) == Sink(kind, old(items), k0)
        decreases elemsCount - k
      {
        var j := 2 * k;
        if j < elemsCount && Less(kind, items, j, j + 1) {
          j := j + 1;
        }
        assert j == Child(kind, items, k);
        if !Less(kind, items, k, j) {
          break;
        }
        SinkOnce(kind, items, k);
        ExchSlots(k, j);
        k := j;
      }
      SinkDone(kind, items, k);
    }
  }

  lemma SinkOnce<V>(kind: Kind, h: Slots<V>, k: nat)
    requires Filled(h) && 1 <= k && 2 * k < |h| && Less(kind, h, k, Child(kind, h, k))
    ensures Sink(kind, h, k) == Sink(kind, Exch(h, k, Child(kind, h, k)), Child(kind, h, k))
  {
  }

  lemma SinkDone<V>(kind: Kind, h: Slots<V>, k: nat)
    requires Filled(h) && 1 <= k && (2 * k < |h| ==> !Less(kind, h, k, Child(kind, h, k)))
    ensures Sink(kind, h, k) == h
  {
  }

  // ---------- whole runs ----------

  datatype Op<V> = DoPush(value: V, priority: int) | DoPop

  /** The answers of a run, one per operation (a push answers nil), and the heap it ends with. */
  function Run<V>(kind: Kind, h: Slots<V>, ops: seq<Op<V>>): (seq<Slot<V>>, Slots<V>)
    requires Filled(h)
    decreases |ops|
  {
    if ops == [] then ([], h)
    else
      var (answer, g) := match ops[0]
        case DoPush(v, p) => (Nil, Heap.Push(kind, h, Item(v, p)))
        case DoPop => Heap.Pop(kind, h);
      var (answers, end) := Run(kind, g, ops[1..]);
      ([answer] + answers, end)
  }

  ghost function Bag<V>(h: Slots<V>): multiset<Slot<V>> {
    multiset(h) - multiset{Nil}
  }

  /** x may be served from the bag: it is there, and no priority there is greater, or less in a MINPQ. */
  ghost predicate Extremal<V>(kind: Kind, bag: multiset<Slot<V>>, x: Slot<V>) {
    && x in bag && x.Item?
    && forall y <- bag :: y.Item? ==>
         if kind == MAXPQ then x.priority >= y.priority else x.priority <= y.priority
  }

  /** The answers are those of an ideal priority queue that starts with the bag and ends with `end`. */
  ghost predicate Serves<V>(kind: Kind, bag: multiset<Slot<V>>, ops: seq<Op<V>>, answers: seq<Slot<V>>,
                                  end: multiset<Slot<V>>)
    decreases |ops|
  {
    if ops == [] then answers == [] && end == bag
    else
      && |answers| > 0
      && match ops[0]
         case DoPush(v, p) => answers[0] == Nil && Serves(kind, bag + multiset{Item(v, p)}, ops[1..], answers[1..], end)
         case DoPop =>
           if bag == multiset{} then answers[0] == Nil && Serves(kind, bag, ops[1..], answers[1..], end)
           else Extremal(kind, bag, answers[0]) && Serves(kind, bag - multiset{answers[0]}, ops[1..], answers[1..], end)
  }

  lemma NilOnce<V>(h: Slots<V>)
    requires Filled(h)
    ensures multiset(h)[Nil] == 1 && (|h| == 1 <==> Bag(h) == multiset{})
  {
    assert h == [Nil] + h[1..];
    assert Nil !in h[1..];
    if |h| > 1 {
      assert h[1] in h[1..] && h[1] in Bag(h);
    }
  }

  /** Pushing adds exactly the new item. */
  lemma PushBag<V>(kind: Kind, h: Slots<V>, it: Slot<V>)
    requires Filled(h) && it.Item?
    ensures Bag(Heap.Push(kind, h, it)) == Bag(h) + multiset{it}
  {
    NilOnce(h);
  }

  /** Popping removes exactly the head. */
  lemma PopBag<V>(kind: Kind, h: Slots<V>)
    requires Filled(h) && |h| > 1
    ensures Bag(Heap.Pop(kind, h).1) == Bag(h) - multiset{h[1]}
    ensures Bag(h) == Bag(Heap.Pop(kind, h).1) + multiset{h[1]}
  {
    hide Pop, Filled;
    var g := Heap.Pop(kind, h).1;
    NilOnce(h);
    NilOnce(g);
    WithoutNil(multiset(h), multiset(g), Nil, h[1]);
  }

  lemma WithoutNil<T>(m: multiset<T>, n: multiset<T>, nil: T, x: T)
    requires m == n + multiset{x} && n[nil] == 1 && x != nil
    ensures n - multiset{nil} == m - multiset{nil} - multiset{x}
    ensures m - multiset{nil} == n - multiset{nil} + multiset{x}
  {
  }

  lemma HeadIsExtremal<V>(kind: Kind, h: Slots<V>)
    requires Ordered(kind, h) && |h| > 1
    ensures Extremal(kind, Bag(h), h[1])
  {
    assert h[1] in multiset(h);
    forall y | y in Bag(h) && y.Item?
      ensures if kind == MAXPQ then h[1].priority >= y.priority else h[1].priority <= y.priority
    {
      assert y in multiset(h);
      var i :| 0 <= i < |h| && h[i] == y;
      RootIsExtremal(kind, h, i);
    }
  }

  /** Any run of pushes and pops keeps the heap order and answers as an ideal priority queue does. */
  lemma {:induction false} RunServes<V>(kind: Kind, h: Slots<V>, ops: seq<Op<V>>)
    requires Ordered(kind, h)
    ensures var (answers, end) := Run(kind, h, ops);
            Ordered(kind, end) && Serves(kind, Bag(h), ops, answers, Bag(end))
    decreases |ops|
  {
    hide Extremal, Bag, Push, Pop;
    if ops != [] {
      NilOnce(h);
      match ops[0]
      case DoPush(v, p) =>
        PushOrders(kind, h, Item(v, p));
        PushBag(kind, h, Item(v, p));
        RunServes(kind, Heap.Push(kind, h, Item(v, p)), ops[1..]);
      case DoPop =>
        PopOrders(kind, h);
        if |h| > 1 {
          HeadIsExtremal(kind, h);
          PopBag(kind, h);
        }
        RunServes(kind, Heap.Pop(kind, h).1, ops[1..]);
    }
  }

  // ---------- draining ----------

  function Drain<V>(kind: Kind, h: Slots<V>): seq<Slot<V>>
    requires Filled(h)
    decreases |h|
  {
    if |h| == 1 then [] else [h[1]] + Drain(kind, Heap.Pop(kind, h).1)
  }

  ghost predicate Sorted<V>(kind: Kind, s: seq<Slot<V>>) {
    && (forall x <- s :: x.Item?)
    && forall i, j :: 0 <= i < j < |s| ==>
         if kind == MAXPQ then s[i].priority >= s[j].priority else s[i].priority <= s[j].priority
  }

  /** Popping until the queue is empty yields a sorted permutation of what was in it. */
  lemma {:induction false} DrainSorts<V>(kind: Kind, h: Slots<V>)
    requires Ordered(kind, h)
    ensures multiset(Drain(kind, h)) == Bag(h)
    ensures Sorted(kind, Drain(kind, h))
    decreases |h|
  {
    NilOnce(h);
    if |h| > 1 {
      hide Bag, Push, Pop, Less, Before;
      var (x, g) := Heap.Pop(kind, h);
      PopOrders(kind, h);
      PopBag(kind, h);
      DrainSorts(kind, g);
      HeadIsExtremal(kind, h);
      SortedPlusHead(kind, x, Drain(kind, g));
    }
  }

  lemma SortedPlusHead<V>(kind: Kind, x: Slot<V>, rest: seq<Slot<V>>)
    requires Sorted(kind, rest) && Extremal(kind, multiset(rest) + multiset{x}, x)
    ensures Sorted(kind, [x] + rest) && multiset([x] + rest) == multiset(rest) + multiset{x}
  {
    forall j | 0 <= j < |rest| ensures rest[j] in multiset(rest) + multiset{x} {
      assert rest[j] in multiset(rest);
    }
  }
}
