/**
 The slot between the cloud link and the link loop of src/fmulink/fmulink.go: the loop reads a raw command
 and encodes it, and clears the slot in a second locked step.  A command stored in between is lost; the
 theorems say exactly when.
 */
module CommandSlot {
  import opened Bytes

  /** A command is stored, or the link loop makes its next step. */
  datatype Event = Stored(chunk: seq<u8>) | LinkMoves

  datatype State = State(slot: Option<seq<u8>>, inHand: bool, encoded: seq<seq<u8>>)

  function Initial(): State {
    State(None, false, [])
  }

  /** The loop reads unless it has a command in hand, which it has encoded and now clears away. */
  function Step(s: State, e: Event): State {
    match e
    case Stored(chunk) => s.(slot := Some(chunk))
    case LinkMoves =>
      if s.inHand then s.(slot := None, inHand := false)
      else if s.slot.Some? then s.(inHand := true, encoded := s.encoded + [s.slot.value])
      else s
  }

  function Run(log: seq<Event>): State {
    if log == [] then Initial() else Step(Run(log[..|log| - 1]), log[|log| - 1])
  }

  /** At place k the loop reads the slot. */
  predicate Reads(log: seq<Event>, k: nat) {
    k < |log| && log[k].LinkMoves? && !Run(log[..k]).inHand
  }

  /** At place k the loop clears the slot. */
  predicate Clears(log: seq<Event>, k: nat) {
    k < |log| && log[k].LinkMoves? && Run(log[..k]).inHand
  }

  /** At place k the slot's content goes. */
  predicate Replaces(log: seq<Event>, k: nat) {
    k < |log| && (log[k].Stored? || Clears(log, k))
  }

  /** Command j is in the slot. */
  ghost predicate Waits(log: seq<Event>, j: nat) {
    && j < |log| && log[j].Stored?
    && forall k :: j < k < |log| ==> !Replaces(log, k)
  }

  /** Command j was read while it was in the slot, and so encoded. */
  ghost predicate Encoded(log: seq<Event>, j: nat) {
    exists k: nat :: j < k < |log| && Reads(log, k) && Waits(log[..k], j)
  }

  lemma PrefixSame(log: seq<Event>, n: nat, k: nat)
    requires k < n <= |log|
    ensures log[..n][k] == log[k] && log[..n][..k] == log[..k]
    ensures Replaces(log[..n], k) == Replaces(log, k) && Reads(log[..n], k) == Reads(log, k)
  {
    assert log[..n][..k] == log[..k];
  }

  lemma {:induction false} WaitsAfter(log: seq<Event>, j: nat)
    requires Waits(log, j)
    ensures Run(log).slot == Some(log[j].chunk)
    decreases |log|
  {
    hide Run;
    var n := |log| - 1;
    RunLast(log);
    assert log[..n + 1] == log;
    if j < n {
      forall k | j < k < n ensures !Replaces(log[..n], k) {
        PrefixSame(log, n, k);
      }
      PrefixSame(log, n, j);
      WaitsAfter(log[..n], j);
      assert !Replaces(log, n);
    }
  }

  lemma RunLast(log: seq<Event>)
    requires log != []
    ensures Run(log) == Step(Run(log[..|log| - 1]), log[|log| - 1])
  {
  }

  lemma {:induction false} WaitsBy(log: seq<Event>) returns (j: nat)
    requires Run(log).slot.Some?
    ensures Waits(log, j)
    decreases |log|
  {
    var n := |log| - 1;
    if log[n].Stored? {
      j := n;
    } else {
      j := WaitsBy(log[..n]);
      forall k | j < k < |log| ensures !Replaces(log, k) {
        if k < n {
          PrefixSame(log, n, k);
        }
      }
      PrefixSame(log, n, j);
    }
  }

  /** A step of the loop encodes a command exactly when it reads, and then the latest one not cleared. */
  lemma EncodesExactly(log: seq<Event>, chunk: seq<u8>)
    ensures Run(log + [LinkMoves]).encoded == Run(log).encoded + [chunk]
       <==> Reads(log + [LinkMoves], |log|) && exists j: nat :: Waits(log, j) && log[j] == Stored(chunk)
  {
    hide Run, Waits;
    var more, now := log + [LinkMoves], Run(log);
    assert more[..|log|] == log && more[|log|] == LinkMoves;
    RunLast(more);
    Longer(now.encoded, chunk);
    assert Reads(more, |log|) <==> !now.inHand;
    if Run(more).encoded == now.encoded + [chunk] {
      assert !now.inHand && now.slot.Some?;
      Longer(now.encoded, now.slot.value);
      var j := WaitsBy(log);
      WaitsAfter(log, j);
      WaitsInside(log, j);
      assert log[j] == Stored(chunk);
    }
    if j: nat :| Waits(log, j) && j < |log| && log[j] == Stored(chunk) {
      WaitsAfter(log, j);
    } else {
      forall j: nat | Waits(log, j) ensures j < |log| {
        WaitsInside(log, j);
      }
    }
  }

  lemma WaitsInside(log: seq<Event>, j: nat)
    requires Waits(log, j)
    ensures j < |log| && log[j].Stored?
  {
  }

  lemma Longer(s: seq<seq<u8>>, x: seq<u8>)
    ensures s + [x] != s && (forall y :: s + [y] == s + [x] ==> x == y)
  {
    assert |s + [x]| == |s| + 1;
    forall y | s + [y] == s + [x] ensures x == y {
      assert (s + [y])[|s|] == (s + [x])[|s|];
    }
  }

  /** A command is lost exactly when another replaces it, or the loop clears it away, before the loop reads. */
  lemma CommandLostExactly(log: seq<Event>, j: nat)
    requires j < |log| && log[j].Stored?
    ensures !Waits(log, j) && !Encoded(log, j)
       <==> exists m: nat :: j < m < |log| && Replaces(log, m) && forall k :: j < k < m ==> !Reads(log, k)
  {
    hide Run, Replaces, Reads;
    if !Waits(log, j) && !Encoded(log, j) {
      var m := FirstReplaced(log, j);
      forall k: nat | j < k < m ensures !Reads(log, k) {
        if Reads(log, k) {
          StillWaits(log, j, k);
        }
      }
    }
    if m: nat :| j < m < |log| && Replaces(log, m) && forall k :: j < k < m ==> !Reads(log, k) {
      forall k: nat | j < k < |log| && Reads(log, k) ensures !Waits(log[..k], j) {
        ReplacedEarlier(log, j, m, k);
      }
    }
  }

  lemma FirstReplaced(log: seq<Event>, j: nat) returns (m: nat)
    requires j < |log| && log[j].Stored? && !Waits(log, j)
    ensures j < m < |log| && Replaces(log, m) && forall k :: j < k < m ==> !Replaces(log, k)
  {
    m := j + 1;
    while !Replaces(log, m)
      invariant j < m <= |log| && forall k :: j < k < m ==> !Replaces(log, k)
      decreases |log| - m
    {
      m := m + 1;
    }
  }

  lemma StillWaits(log: seq<Event>, j: nat, n: nat)
    requires j < n <= |log| && log[j].Stored? && forall k :: j < k < n ==> !Replaces(log, k)
    ensures Waits(log[..n], j)
  {
    hide Run;
    PrefixSame(log, n, j);
    forall k | j < k < n ensures !Replaces(log[..n], k) {
      PrefixSame(log, n, k);
    }
  }

  lemma ReplacedEarlier(log: seq<Event>, j: nat, m: nat, k: nat)
    requires j < m < |log| && Replaces(log, m) && j < k < |log| && Reads(log, k)
    requires forall i :: j < i < m ==> !Reads(log, i)
    ensures !Waits(log[..k], j)
  {
    assert m != k;
    PrefixSame(log, k, m);
  }

  // ---------- the gap between read and clear ----------

  lemma {:induction false} ReadBefore(log: seq<Event>) returns (r: nat)
    requires Run(log).inHand
    ensures Reads(log, r) && forall k :: r < k < |log| ==> log[k].Stored?
    decreases |log|
  {
    var n := |log| - 1;
    assert log[..n + 1] == log;
    if log[n].LinkMoves? {
      r := n;
    } else {
      r := ReadBefore(log[..n]);
      PrefixSame(log, n, r);
      assert forall k :: r < k < n ==> log[k] == log[..n][k];
    }
  }

  /** The clear takes away an unread command exactly when that was stored after the read. */
  lemma ClearLosesExactly(log: seq<Event>, j: nat)
    requires Run(log).inHand && Waits(log, j)
    ensures !Encoded(log, j)
       <==> exists r: nat :: r < j && Reads(log, r) && forall k :: r < k < |log| ==> log[k].Stored?
  {
    var r := ReadBefore(log);
    if r < j {
      assert forall k :: j < k < |log| ==> !Reads(log, k);
    } else {
      forall k | j < k < r ensures !Replaces(log, k) {
      }
      StillWaits(log, j, r);
      assert Encoded(log, j);
    }
  }

  /** Two commands and two steps of the loop: the second command is never encoded. */
  lemma SecondCommandLost(a: seq<u8>, b: seq<u8>)
    ensures var s := Run([Stored(a), LinkMoves, Stored(b), LinkMoves]); s.slot == None && s.encoded == [a]
  {
    var log := [Stored(a), LinkMoves, Stored(b), LinkMoves];
    assert log[..3] == [Stored(a), LinkMoves, Stored(b)] && log[..3][..2] == [Stored(a), LinkMoves];
    assert log[..3][..2][..1] == [Stored(a)];
    assert Run([Stored(a)]) == State(Some(a), false, []);
    assert Run([Stored(a), LinkMoves]) == State(Some(a), true, [a]);
    assert Run(log[..3]) == State(Some(b), true, [a]);
  }
}
