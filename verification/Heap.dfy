/**
 The array heap of src/utils/pqueue.go on values: slot 0 stays nil, the children of slot k are 2k and
 2k+1, and `swim` and `sink` restore the order by exchanging slots.
 */
module Heap {

  datatype Kind = MAXPQ | MINPQ

  datatype Slot<V> = Nil | Item(value: V, priority: int)

  type Slots<V> = seq<Slot<V>>

  predicate Filled<V>(h: Slots<V>) {
    |h| > 0 && h[0].Nil? && forall i :: 1 <= i < |h| ==> h[i].Item?
  }

  /** The comparator of the queue's kind: a has to give way to b. */
  predicate Before(kind: Kind, a: int, b: int) {
    if kind.MAXPQ? then a < b else a > b
  }

  predicate Less<V>(kind: Kind, h: Slots<V>, i: nat, j: nat)
    requires Filled(h) && 1 <= i < |h| && 1 <= j < |h|
  {
    Before(kind, h[i].priority, h[j].priority)
  }

  function Exch<V>(h: Slots<V>, i: nat, j: nat): (g: Slots<V>)
    requires Filled(h) && 1 <= i < |h| && 1 <= j < |h|
    ensures Filled(g) && |g| == |h| && multiset(g) == multiset(h)
    ensures g[i] == h[j] && g[j] == h[i] && forall k :: 0 <= k < |h| && k != i && k != j ==> g[k] == h[k]
  {
    h[i := h[j]][j := h[i]]
  }

  function Swim<V>(kind: Kind, h: Slots<V>, k: nat): (g: Slots<V>)
    requires Filled(h) && 1 <= k < |h|
    ensures Filled(g) && |g| == |h| && multiset(g) == multiset(h)
    decreases k
  {
    if k > 1 && Less(kind, h, k / 2, k) then Swim(kind, Exch(h, k / 2, k), k / 2) else h
  }

  /** The child of k that gives way to no sibling. */
  function Child<V>(kind: Kind, h: Slots<V>, k: nat): (j: nat)
    requires Filled(h) && 1 <= k && 2 * k < |h|
    ensures j < |h| && j / 2 == k && k < j
  {
    if 2 * k + 1 < |h| && Less(kind, h, 2 * k, 2 * k + 1) then 2 * k + 1 else 2 * k
  }

  function Sink<V>(kind: Kind, h: Slots<V>, k: nat): (g: Slots<V>)
    requires Filled(h) && 1 <= k
    ensures Filled(g) && |g| == |h| && multiset(g) == multiset(h)
    decreases |h| - k
  {
    if 2 * k < |h| then
      var j := Child(kind, h, k);
      if Less(kind, h, k, j) then Sink(kind, Exch(h, k, j), j) else h
    else h
  }

  function Push<V>(kind: Kind, h: Slots<V>, it: Slot<V>): (g: Slots<V>)
    requires Filled(h) && it.Item?
    ensures Filled(g) && |g| == |h| + 1 && multiset(g) == multiset(h) + multiset{it}
  {
    Swim(kind, h + [it], |h|)
  }

  /** The popped slot, nil if there is none, and what is left. */
  function Pop<V>(kind: Kind, h: Slots<V>): (r: (Slot<V>, Slots<V>))
    requires Filled(h)
    ensures Filled(r.1)
    ensures |h| == 1 ==> r == (Nil, h)
    ensures |h| > 1 ==> r.0 == h[1] && |r.1| == |h| - 1 && multiset(h) == multiset(r.1) + multiset{h[1]}
  {
    if |h| == 1 then (Nil, h)
    else
      var n := |h| - 1;
      var g := Exch(h, 1, n);
      assert g == g[..n] + [g[n]];
      (h[1], Sink(kind, g[..n], 1))
  }

  // ---------- the order ----------

  /** No child beats its parent. */
  ghost predicate Ordered<V>(kind: Kind, h: Slots<V>) {
    Filled(h) && forall j {:trigger h[j]} :: 2 <= j < |h| ==> !Less(kind, h, j / 2, j)
  }

  /** Ordered but for the edge above k; k's children do not beat k's parent. */
  ghost predicate OrderedAbove<V>(kind: Kind, h: Slots<V>, k: nat) {
    && Filled(h)
    && (forall j {:trigger h[j]} :: 2 <= j < |h| && j != k ==> !Less(kind, h, j / 2, j))
    && (forall j {:trigger h[j]} :: 2 <= j < |h| && j / 2 == k && k >= 2 ==> !Less(kind, h, k / 2, j))
  }

  /** Ordered but for the edges below k; k's children do not beat k's parent. */
  ghost predicate OrderedBelow<V>(kind: Kind, h: Slots<V>, k: nat) {
    && Filled(h)
    && (forall j {:trigger h[j]} :: 2 <= j < |h| && j / 2 != k ==> !Less(kind, h, j / 2, j))
    && (forall j {:trigger h[j]} :: 2 <= j < |h| && j / 2 == k && k >= 2 ==> !Less(kind, h, k / 2, j))
  }

  lemma {:induction false} SwimOrders<V>(kind: Kind, h: Slots<V>, k: nat)
    requires 1 <= k < |h| && OrderedAbove(kind, h, k)
    ensures Ordered(kind, Swim(kind, h, k))
    decreases k
  {
    if k > 1 && Less(kind, h, k / 2, k) {
      SwimStep(kind, h, k);
      SwimOrders(kind, Exch(h, k / 2, k), k / 2);
    } else {
      forall j | 2 <= j < |h| ensures !Less(kind, h, j / 2, j) {
        assert j != k ==> h[j].Item? && !Less(kind, h, j / 2, j);
      }
    }
  }

  lemma SwimStep<V>(kind: Kind, h: Slots<V>, k: nat)
    requires 1 < k < |h| && OrderedAbove(kind, h, k) && Less(kind, h, k / 2, k)
    ensures OrderedAbove(kind, Exch(h, k / 2, k), k / 2)
  {
    var g, p := Exch(h, k / 2, k), k / 2;
    forall j | 2 <= j < |h| && j != p ensures !Less(kind, g, j / 2, j) {
      if j != k {
        assert h[j] == g[j];
        assert !Less(kind, h, j / 2, j);
        assert j / 2 == k ==> !Less(kind, h, p, j);
      }
    }
    forall j | 2 <= j < |h| && j / 2 == p && p >= 2 ensures !Less(kind, g, p / 2, j) {
      assert h[p] == g[k];
      assert !Less(kind, h, p / 2, p);
      assert j != k ==> !Less(kind, h, j / 2, j);
    }
  }

  lemma {:induction false} SinkOrders<V>(kind: Kind, h: Slots<V>, k: nat)
    requires 1 <= k && OrderedBelow(kind, h, k)
    ensures Ordered(kind, Sink(kind, h, k))
    decreases |h| - k
  {
    if 2 * k < |h| {
      var j := Child(kind, h, k);
      if Less(kind, h, k, j) {
        SinkStep(kind, h, k);
        SinkOrders(kind, Exch(h, k, j), j);
      } else {
        ChildIsBest(kind, h, k);
        forall i | 2 <= i < |h| ensures !Less(kind, h, i / 2, i) {
          assert i / 2 != k ==> h[i].Item? && !Less(kind, h, i / 2, i);
        }
      }
    } else {
      forall i | 2 <= i < |h| ensures !Less(kind, h, i / 2, i) {
        assert i / 2 != k ==> h[i].Item? && !Less(kind, h, i / 2, i);
      }
    }
  }

  lemma ChildIsBest<V>(kind: Kind, h: Slots<V>, k: nat)
    requires Filled(h) && 1 <= k && 2 * k < |h|
    ensures forall i :: 2 <= i < |h| && i / 2 == k ==> !Less(kind, h, Child(kind, h, k), i)
  {
  }

  lemma SinkStep<V>(kind: Kind, h: Slots<V>, k: nat)
    requires 1 <= k && 2 * k < |h| && OrderedBelow(kind, h, k) && Less(kind, h, k, Child(kind, h, k))
    ensures OrderedBelow(kind, Exch(h, k, Child(kind, h, k)), Child(kind, h, k))
  {
    var j := Child(kind, h, k);
    var g := Exch(h, k, j);
    ChildIsBest(kind, h, k);
    forall i | 2 <= i < |h| && i / 2 != j ensures !Less(kind, g, i / 2, i) {
      if i / 2 == k {
        assert i != j ==> h[i] == g[i];
      } else if i == k {
        assert !Less(kind, h, k / 2, j);
      } else {
        assert h[i] == g[i] && !Less(kind, h, i / 2, i);
      }
    }
    forall i | 2 <= i < |h| && i / 2 == j ensures !Less(kind, g, j / 2, i) {
      assert h[i] == g[i] && !Less(kind, h, i / 2, i);
    }
  }

  lemma PushOrders<V>(kind: Kind, h: Slots<V>, it: Slot<V>)
    requires Ordered(kind, h) && it.Item?
    ensures Ordered(kind, Push(kind, h, it))
  {
    var g := h + [it];
    forall j | 2 <= j < |g| && j != |h| ensures !Less(kind, g, j / 2, j) {
      assert g[j] == h[j] && g[j / 2] == h[j / 2];
    }
    SwimOrders(kind, g, |h|);
  }

  lemma PopOrders<V>(kind: Kind, h: Slots<V>)
    requires Ordered(kind, h)
    ensures Ordered(kind, Pop(kind, h).1)
  {
    if |h| > 1 {
      var n := |h| - 1;
      var g := Exch(h, 1, n)[..n];
      forall j | 2 <= j < n && j / 2 != 1 ensures !Less(kind, g, j / 2, j) {
        assert g[j] == h[j] && g[j / 2] == h[j / 2];
      }
      SinkOrders(kind, g, 1);
    }
  }

  /** The root of an ordered heap has the greatest priority of all, or the least. */
  lemma {:induction false} RootIsExtremal<V>(kind: Kind, h: Slots<V>, i: nat)
    requires Ordered(kind, h) && 1 <= i < |h|
    ensures if kind == MAXPQ then h[1].priority >= h[i].priority else h[1].priority <= h[i].priority
  {
    if i > 1 {
      RootIsExtremal(kind, h, i / 2);
      assert !Less(kind, h, i / 2, i);
    }
  }

  // ---------- what a push does to the head ----------

  lemma {:induction false} SwimKeepsRoot<V>(kind: Kind, h: Slots<V>, k: nat)
    requires Filled(h) && 1 < k < |h| && !Less(kind, h, 1, k)
    ensures Swim(kind, h, k)[1] == h[1]
    decreases k
  {
    if Less(kind, h, k / 2, k) {
      SwimKeepsRoot(kind, Exch(h, k / 2, k), k / 2);
    }
  }

  /** A push changes the head exactly when the queue was empty or the new priority is strictly beyond it. */
  lemma PushHead<V>(kind: Kind, h: Slots<V>, it: Slot<V>)
    requires Ordered(kind, h) && it.Item?
    ensures Push(kind, h, it)[1] ==
            if |h| == 1 || (if kind == MAXPQ then it.priority > h[1].priority else it.priority < h[1].priority)
            then it else h[1]
  {
    var g := Push(kind, h, it);
    if |h| > 1 && !Before(kind, h[1].priority, it.priority) {
      SwimKeepsRoot(kind, h + [it], |h|);
    } else {
      PushOrders(kind, h, it);
      assert g[1] in multiset(g) && it in multiset(g);
      RootBeaten(kind, g, it);
      if g[1] != it {
        assert g[1] in multiset(h);
        RootBeaten(kind, h, g[1]);
      }
    }
  }

  lemma RootBeaten<V>(kind: Kind, h: Slots<V>, x: Slot<V>)
    requires Ordered(kind, h) && x.Item? && x in multiset(h)
    ensures |h| > 1 && !Before(kind, h[1].priority, x.priority)
  {
    var i :| 0 <= i < |h| && h[i] == x;
    RootIsExtremal(kind, h, i);
  }
}
