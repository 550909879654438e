/** Orders in which a map may yield its keys. */
module Listing {

  /** The sequence lists each element of the set once. */
  ghost predicate Enumerates<T>(order: seq<T>, elems: set<T>) {
    && (forall x <- order :: x in elems) && (forall x <- elems :: x in order)
    && forall i, j :: 0 <= i < j < |order| ==> order[i] != order[j]
  }

  lemma NoneListed<T>()
    ensures Enumerates<T>([], {})
  {
  }

  lemma OneMoreListed<T>(order: seq<T>, elems: set<T>, x: T)
    requires Enumerates(order, elems) && x !in elems
    ensures Enumerates(order + [x], elems + {x})
  {
  }

  // ---------- sums over an order ----------

  function Total<T>(size: T -> nat, order: seq<T>): nat {
    if order == [] then 0 else size(order[0]) + Total(size, order[1..])
  }

  lemma {:induction false} TotalConcat<T>(size: T -> nat, a: seq<T>, b: seq<T>)
    ensures Total(size, a + b) == Total(size, a) + Total(size, b)
  {
    if a == [] {
      assert a + b == b;
    } else {
      assert (a + b)[1..] == a[1..] + b;
      TotalConcat(size, a[1..], b);
    }
  }

  /** Two orders of one set have one sum. */
  lemma {:induction false} TotalIsOrderFree<T>(size: T -> nat, a: seq<T>, b: seq<T>, elems: set<T>)
    requires Enumerates(a, elems) && Enumerates(b, elems)
    ensures Total(size, a) == Total(size, b) && |a| == |b|
    decreases |a|
  {
    hide Enumerates;
    OrderSize(a, elems);
    OrderSize(b, elems);
    if a != [] {
      var i := Place(a, b, elems);
      var rest := b[..i] + b[i + 1..];
      Dropped(a, elems, 0);
      Dropped(b, elems, i);
      assert a[..0] + a[1..] == a[1..];
      TotalIsOrderFree(size, a[1..], rest, elems - {a[0]});
      TotalWithout(size, b, i);
    }
  }

  lemma {:induction false} OrderSize<T>(order: seq<T>, elems: set<T>)
    requires Enumerates(order, elems)
    ensures |order| == |elems|
    decreases |order|
  {
    if order == [] {
      assert elems <= {};
    } else {
      Dropped(order, elems, 0);
      assert order[..0] + order[1..] == order[1..];
      assert order[0] in order;
      OrderSize(order[1..], elems - {order[0]});
    }
  }

  lemma Place<T>(a: seq<T>, b: seq<T>, elems: set<T>) returns (i: nat)
    requires Enumerates(a, elems) && Enumerates(b, elems) && a != []
    ensures i < |b| && b[i] == a[0]
  {
    assert a[0] in a && a[0] in b;
    i :| 0 <= i < |b| && b[i] == a[0];
  }

  lemma TotalWithout<T>(size: T -> nat, order: seq<T>, i: nat)
    requires i < |order|
    ensures Total(size, order) == size(order[i]) + Total(size, order[..i] + order[i + 1..])
  {
    assert order == order[..i] + ([order[i]] + order[i + 1..]);
    TotalConcat(size, order[..i], order[i + 1..]);
    TotalConcat(size, order[..i], [order[i]] + order[i + 1..]);
    assert ([order[i]] + order[i + 1..])[1..] == order[i + 1..];
  }

  lemma Dropped<T>(order: seq<T>, elems: set<T>, i: nat)
    requires Enumerates(order, elems) && i < |order|
    ensures Enumerates(order[..i] + order[i + 1..], elems - {order[i]})
  {
    var rest := order[..i] + order[i + 1..];
    forall x <- elems - {order[i]} ensures x in rest {
      var k :| 0 <= k < |order| && order[k] == x;
      assert rest[if k < i then k else k - 1] == x;
    }
  }
}
