/**
 Parameter accounting of src/vehicle/vehicle.go: which indices below the announced total are still
 missing, how many were found, and what the count test of the initialisation gate amounts to.
 */
module ParameterAccounting {

  /** The indices below total that were not received, in ascending order. */
  function Missing(total: nat, found: set<nat>): seq<nat> {
    if total == 0 then []
    else if total - 1 in found then Missing(total - 1, found)
    else Missing(total - 1, found) + [total - 1]
  }

  function Below(total: nat, found: set<nat>): set<nat> {
    set i <- found | i < total
  }

  function Beyond(total: nat, found: set<nat>): set<nat> {
    set i <- found | i >= total
  }

  /** Precisely the unreceived indices, each once, ascending. */
  lemma {:induction false} MissingIsExact(total: nat, found: set<nat>)
    ensures var m := Missing(total, found);
            && (forall i: nat :: i in m <==> i < total && i !in found)
            && (forall i, j :: 0 <= i < j < |m| ==> m[i] < m[j])
  {
    if total > 0 {
      MissingIsExact(total - 1, found);
      var m, n := Missing(total, found), Missing(total - 1, found);
      forall i | 0 <= i < |n| ensures n[i] < total - 1 {
        assert n[i] in n;
      }
    }
  }

  /** Missing and received indices add up to the total, however many names share an index. */
  lemma {:induction false} MissingPlusReceived(total: nat, found: set<nat>)
    ensures |Missing(total, found)| + |Below(total, found)| == total
  {
    if total == 0 {
      assert Below(total, found) == {};
    } else {
      MissingPlusReceived(total - 1, found);
      if total - 1 in found {
        assert Below(total, found) == Below(total - 1, found) + {total - 1};
      } else {
        assert Below(total, found) == Below(total - 1, found);
      }
    }
  }

  /** The gate's test on the number of distinct indices. */
  predicate CountMatches(total: nat, found: set<nat>) {
    |found| - 1 == total
  }

  /**
   The test passes exactly when the indices received beyond the announced range outnumber the missing
   ones by one: with one such index (PX4 sends one) it means that nothing is missing.
   */
  lemma CountMatchesExactly(total: nat, found: set<nat>)
    ensures CountMatches(total, found) <==> |Beyond(total, found)| == |Missing(total, found)| + 1
  {
    MissingPlusReceived(total, found);
    assert found == Below(total, found) + Beyond(total, found);
  }

  /** The found count the API reports: an int difference converted to a 64-bit uint. */
  function ReportedFound(total: nat, missing: seq<nat>): nat {
    (total - |missing|) % 0x1_0000_0000_0000_0000
  }

  /** The report stands or falls with the length of the recorded list. */
  lemma ReportIsRight(total: nat, found: set<nat>, missing: seq<nat>)
    requires total < 65536 && |missing| < 65536
    ensures ReportedFound(total, missing) == |Below(total, found)| <==> |missing| == |Missing(total, found)|
  {
    MissingPlusReceived(total, found);
  }
}
