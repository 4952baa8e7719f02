/**
 * Sums of the counts of a tally map, taken over an enumeration of its keys
 * (each key listed exactly once), so that the sum does not depend on any
 * choice of order.
 */
module Sums {

  /** ids lists every key of the tally exactly once. */
  predicate Enumerates(ids: seq<int>, tally: map<int, int>)
  {
    && (forall i :: 0 <= i < |ids| ==> ids[i] in tally)
    && (forall k :: k in tally ==> k in ids)
    && (forall i, j :: 0 <= i < j < |ids| ==> ids[i] != ids[j])
  }

  /** The sum of the counts of the listed keys. */
  function SumOver(tally: map<int, int>, ids: seq<int>): int
    requires forall i :: 0 <= i < |ids| ==> ids[i] in tally
    decreases |ids|
  {
    if |ids| == 0 then 0 else tally[ids[0]] + SumOver(tally, ids[1..])
  }

  /** Changing the count of one listed key changes the sum by the difference. */
  lemma {:induction false} SumOverUpdate(tally: map<int, int>, ids: seq<int>, k: int, v: int)
    requires forall i :: 0 <= i < |ids| ==> ids[i] in tally
    requires forall i, j :: 0 <= i < j < |ids| ==> ids[i] != ids[j]
    requires k in tally
    ensures SumOver(tally[k := v], ids) == SumOver(tally, ids) + (if k in ids then v - tally[k] else 0)
    decreases |ids|
  {
    if |ids| > 0 {
      SumOverUpdate(tally, ids[1..], k, v);
      if ids[0] == k {
        assert k !in ids[1..] by {
          forall i | 0 <= i < |ids[1..]| ensures ids[1..][i] != k {
            assert ids[1..][i] == ids[i + 1];
          }
        }
      } else {
        assert k in ids ==> k in ids[1..] by {
          if k in ids {
            var i :| 0 <= i < |ids| && ids[i] == k;
            assert ids[1..][i - 1] == k;
          }
        }
      }
    }
  }

  /** Changing one count changes the total by the difference. */
  lemma TotalUpdate(tally: map<int, int>, ids: seq<int>, k: int, v: int)
    requires Enumerates(ids, tally) && k in tally
    ensures Enumerates(ids, tally[k := v])
    ensures SumOver(tally[k := v], ids) == SumOver(tally, ids) - tally[k] + v
  {
    SumOverUpdate(tally, ids, k, v);
  }
}
