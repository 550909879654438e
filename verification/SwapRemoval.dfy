/**
 Deleting a value by swapping in the last element while the loop still goes over the old length, as
 DelOutput of src/cloudlink/store.go does: when it runs off the shortened slice, and what it leaves.
 */
module SwapRemoval {
  import opened Bytes

  /** The loop from place i on, over an array of which len elements are left in the slice; None is an index fault. */
  function SweepFrom<T(==)>(now: seq<T>, len: nat, x: T, i: nat): Option<seq<T>>
    requires len <= |now| && i <= |now|
    decreases |now| - i
  {
    if i == |now| then Some(now[..len])
    else if now[i] != x then SweepFrom(now, len, x, i + 1)
    else if i >= len then None
    else SweepFrom(now[i := now[len - 1]], len - 1, x, i + 1)
  }

  function Sweep<T(==)>(s: seq<T>, x: T): Option<seq<T>> {
    SweepFrom(s, |s|, x, 0)
  }

  /** An occurrence stands too far right: its place and the occurrences before it make up the length. */
  predicate RunsOff<T(==)>(s: seq<T>, x: T) {
    exists i :: 0 <= i < |s| && Beyond(s, x, i)
  }

  predicate Beyond<T(==)>(s: seq<T>, x: T, i: nat)
    requires i < |s|
  {
    s[i] == x && i + multiset(s[..i])[x] >= |s|
  }

  ghost predicate Distinct<T>(s: seq<T>) {
    forall i, j :: 0 <= i < j < |s| ==> s[i] != s[j]
  }

  lemma OneMore<T>(s: seq<T>, i: nat)
    requires i < |s|
    ensures multiset(s[..i + 1]) == multiset(s[..i]) + multiset{s[i]}
  {
    assert s[..i + 1] == s[..i] + [s[i]];
  }

  lemma CutAt<T>(now: seq<T>, len: nat, i: nat)
    requires i < len <= |now|
    ensures multiset(now[..len]) == multiset(now[i := now[len - 1]][..len - 1]) + multiset{now[i]}
  {
    var cut := now[i := now[len - 1]][..len - 1];
    assert now[..len] == now[..i] + [now[i]] + now[i + 1..len];
    if i < len - 1 {
      assert now[i + 1..len] == now[i + 1..len - 1] + [now[len - 1]];
      assert cut == now[..i] + [now[len - 1]] + now[i + 1..len - 1];
    } else {
      assert cut == now[..i] && now[i + 1..len] == [];
    }
  }

  /** With n occurrences of x put back. */
  ghost function Restored<T>(m: multiset<T>, x: T, n: nat): multiset<T> {
    m[x := m[x] + n]
  }

  /** The loop's state after i places of s. */
  ghost predicate Midway<T>(s: seq<T>, x: T, i: nat, now: seq<T>, len: nat) {
    && i <= |s| == |now| && len == |s| - multiset(s[..i])[x]
    && now[i..] == s[i..]
    && Restored(multiset(now[..len]), x, multiset(s[..i])[x]) == multiset(s)
  }

  lemma Part<T>(s: seq<T>, x: T, i: nat)
    requires i <= |s|
    ensures multiset(s[..i])[x] <= multiset(s)[x] && multiset(s[..i])[x] <= i
  {
    assert s == s[..i] + s[i..];
    CountAtMost(s[..i], x);
  }

  lemma {:induction false} CountAtMost<T>(s: seq<T>, x: T)
    ensures multiset(s)[x] <= |s|
  {
    if s != [] {
      var n := |s| - 1;
      assert s == s[..n] + [s[n]];
      CountAtMost(s[..n], x);
    }
  }

  lemma PassesOther<T>(s: seq<T>, x: T, i: nat, now: seq<T>, len: nat)
    requires Midway(s, x, i, now, len) && i < |s| && s[i] != x
    ensures now[i] != x && Midway(s, x, i + 1, now, len)
  {
    assert now[i] == now[i..][0] == s[i..][0];
    assert now[i + 1..] == now[i..][1..] && s[i + 1..] == s[i..][1..];
    OneMore(s, i);
  }

  lemma SwapsOne<T>(s: seq<T>, x: T, i: nat, now: seq<T>, len: nat)
    requires Midway(s, x, i, now, len) && i < |s| && s[i] == x
    ensures now[i] == x
    ensures i < len ==> Midway(s, x, i + 1, now[i := now[len - 1]], len - 1)
  {
    assert now[i] == now[i..][0] == s[i..][0];
    assert now[i + 1..] == now[i..][1..] && s[i + 1..] == s[i..][1..];
    OneMore(s, i);
    Part(s, x, i + 1);
    if i < len {
      CutAt(now, len, i);
      var swapped := now[i := now[len - 1]];
      assert swapped[i + 1..] == now[i + 1..];
      var c := multiset(s[..i])[x];
      assert Restored(multiset(swapped[..len - 1]), x, c + 1) == Restored(multiset(now[..len]), x, c);
    }
  }

  lemma {:induction false} SweepFromExactly<T>(s: seq<T>, x: T, i: nat, now: seq<T>, len: nat)
    requires len <= |now| && Midway(s, x, i, now, len)
    ensures SweepFrom(now, len, x, i).None? <==> exists j :: i <= j < |s| && Beyond(s, x, j)
    ensures SweepFrom(now, len, x, i).Some? ==> multiset(SweepFrom(now, len, x, i).value) == multiset(s)[x := 0]
    decreases |s| - i
  {
    hide Midway;
    Lengths(s, x, i, now, len);
    if i == |s| {
      Ends(s, x, now, len);
    } else if s[i] != x {
      PassesOther(s, x, i, now, len);
      SweepFromExactly(s, x, i + 1, now, len);
    } else {
      SwapsOne(s, x, i, now, len);
      if i < len {
        SweepFromExactly(s, x, i + 1, now[i := now[len - 1]], len - 1);
      } else {
        assert Beyond(s, x, i);
      }
    }
  }

  lemma Lengths<T>(s: seq<T>, x: T, i: nat, now: seq<T>, len: nat)
    requires Midway(s, x, i, now, len)
    ensures i <= |s| == |now| && len == |s| - multiset(s[..i])[x]
  {
  }

  lemma Ends<T>(s: seq<T>, x: T, now: seq<T>, len: nat)
    requires Midway(s, x, |s|, now, len)
    ensures |now| == |s| && multiset(now[..len]) == multiset(s)[x := 0]
  {
    assert s[..|s|] == s;
  }

  /**
   The loop faults exactly when some occurrence stands too far right; otherwise it deletes every
   occurrence of the value and nothing else.
   */
  lemma SweepExactly<T>(s: seq<T>, x: T)
    ensures Sweep(s, x).None? <==> RunsOff(s, x)
    ensures Sweep(s, x).Some? ==> multiset(Sweep(s, x).value) == multiset(s)[x := 0]
  {
    assert s[..|s|] == s;
    SweepFromExactly(s, x, 0, s, |s|);
  }

  /** Duplicate-free lists are safe. */
  lemma DistinctNeverRunsOff<T>(s: seq<T>, x: T)
    requires Distinct(s)
    ensures !RunsOff(s, x)
  {
    forall i | 0 <= i < |s| && s[i] == x ensures multiset(s[..i])[x] == 0 {
      assert x !in s[..i];
    }
  }
}
