/**
 The two throttles: the cloud link keeps the latest packet of each message id until the next flush, the
 flight log the first packet of each id until the timer wakes.  Each is a small machine over a log of
 events, proved equal to what the log says by itself.
 */
module Throttles {
  import opened Bytes

  // ---------- latest of each id, flushed to the cloud ----------

  /** Flush stands for one that reaches the connection. */
  datatype Traffic = Put(packet: seq<u8>) | Flush

  /** Every waiting packet is filed under its own message id. */
  ghost predicate Keyed(msgs: map<u8, seq<u8>>) {
    forall op <- msgs :: |msgs[op]| > 5 && msgs[op][5] == op
  }

  function Pending(msgs: map<u8, seq<u8>>, t: Traffic): map<u8, seq<u8>> {
    match t
    case Put(p) => if |p| > 5 then msgs[p[5] := p] else msgs
    case Flush => map[]
  }

  function Waiting(log: seq<Traffic>): map<u8, seq<u8>> {
    if log == [] then map[] else Pending(Waiting(log[..|log| - 1]), log[|log| - 1])
  }

  predicate Carries(t: Traffic, op: u8) {
    t.Put? && |t.packet| > 5 && t.packet[5] == op
  }

  /** Entry j is the latest packet of its id, with no flush since. */
  ghost predicate Latest(log: seq<Traffic>, j: nat, op: u8) {
    && j < |log| && Carries(log[j], op)
    && forall k :: j < k < |log| ==> !Carries(log[k], op) && !log[k].Flush?
  }

  lemma {:induction false} LatestWaits(log: seq<Traffic>, j: nat, op: u8)
    requires Latest(log, j, op)
    ensures op in Waiting(log) && Waiting(log)[op] == log[j].packet
    decreases |log|
  {
    var shorter := log[..|log| - 1];
    if j < |shorter| {
      assert forall k :: j <= k < |shorter| ==> shorter[k] == log[k];
      LatestWaits(shorter, j, op);
    }
  }

  lemma {:induction false} WaitingIsLatest(log: seq<Traffic>, op: u8) returns (j: nat)
    requires op in Waiting(log)
    ensures Latest(log, j, op)
    decreases |log|
  {
    var shorter := log[..|log| - 1];
    if Carries(log[|log| - 1], op) {
      j := |log| - 1;
    } else {
      j := WaitingIsLatest(shorter, op);
      assert forall k :: j <= k < |shorter| ==> shorter[k] == log[k];
    }
  }

  /** What a flush sends for an id is exactly the latest packet of that id stored since the last flush. */
  lemma FlushSendsLatestExactly(log: seq<Traffic>, op: u8, p: seq<u8>)
    ensures op in Waiting(log) && Waiting(log)[op] == p
       <==> exists j: nat :: Latest(log, j, op) && log[j] == Put(p)
  {
    if op in Waiting(log) {
      var j := WaitingIsLatest(log, op);
      LatestWaits(log, j, op);
    }
    if j: nat :| Latest(log, j, op) && log[j] == Put(p) {
      LatestWaits(log, j, op);
    }
  }

  // ---------- first of each id, written to the flight log ----------

  datatype Sighting = Seen(hdr: u8, data: seq<u8>) | Wake

  /** The message set and the file after the log. */
  function Logged(log: seq<Sighting>): (set<u8>, seq<seq<u8>>) {
    if log == [] then ({}, [])
    else Persisted(Logged(log[..|log| - 1]), log[|log| - 1])
  }

  function Persisted(s: (set<u8>, seq<seq<u8>>), e: Sighting): (set<u8>, seq<seq<u8>>) {
    match e
    case Wake => ({}, s.1)
    case Seen(hdr, data) => if hdr in s.0 then s else (s.0 + {hdr}, s.1 + [data])
  }

  /** Since the last wake nothing with this id was seen. */
  ghost predicate FirstOfWindow(before: seq<Sighting>, hdr: u8) {
    forall j :: 0 <= j < |before| && before[j].Seen? && before[j].hdr == hdr ==> WakesAfter(before, j)
  }

  ghost predicate WakesAfter(log: seq<Sighting>, j: nat) {
    exists k :: j < k < |log| && log[k].Wake?
  }

  ghost function Firsts(log: seq<Sighting>): seq<seq<u8>> {
    if log == [] then []
    else
      var before, e := log[..|log| - 1], log[|log| - 1];
      if e.Seen? && FirstOfWindow(before, e.hdr) then Firsts(before) + [e.data] else Firsts(before)
  }

  lemma {:induction false} SetIsWindow(log: seq<Sighting>, hdr: u8)
    ensures hdr in Logged(log).0 <==> !FirstOfWindow(log, hdr)
  {
    if log != [] {
      var before, e := log[..|log| - 1], log[|log| - 1];
      SetIsWindow(before, hdr);
      if !FirstOfWindow(before, hdr) {
        var j :| 0 <= j < |before| && before[j].Seen? && before[j].hdr == hdr && !WakesAfter(before, j);
        assert log[j] == before[j];
        assert forall k :: 0 <= k < |before| ==> log[k] == before[k];
        assert WakesAfter(log, j) ==> e.Wake?;
      } else {
        forall j | 0 <= j < |before| && log[j].Seen? && log[j].hdr == hdr ensures WakesAfter(log, j) {
          assert before[j] == log[j];
          var k :| j < k < |before| && before[k].Wake?;
          assert log[k].Wake?;
        }
      }
      if e.Wake? {
        assert forall j :: 0 <= j < |before| ==> WakesAfter(log, j) by {
          assert log[|before|].Wake?;
        }
      }
    }
  }

  /** The flight log holds exactly the first packet of each id between wakes, in arrival order. */
  lemma {:induction false} FileHoldsFirsts(log: seq<Sighting>)
    ensures Logged(log).1 == Firsts(log)
  {
    if log != [] {
      var before, e := log[..|log| - 1], log[|log| - 1];
      FileHoldsFirsts(before);
      if e.Seen? {
        SetIsWindow(before, e.hdr);
      }
    }
  }
}
