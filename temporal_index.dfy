/**
 * The nearest-epoch search behind `/now`: a bisection over the dataset's
 * instants that keeps a two-index window, returns at once on an exact hit,
 * and finally picks the closer of the two surviving neighbours, the right
 * one on a tie.
 */
module TemporalIndex {
  import opened Timestamps
  import opened Epochs

  /** The absolute time between two instants, in microseconds. */
  function Distance(t: int, q: int): (d: nat)
    ensures d == 0 <==> t == q
    ensures t + d == q || t - d == q
  {
    if t < q then q - t else t - q
  }

  /**
   * Reference definition of the answer: a left-to-right scan of all
   * instants that keeps the later index when two are equally close.
   */
  function NearestIndex(ts: seq<int>, q: int): (k: nat)
    requires |ts| > 0
    ensures k < |ts|
  {
    if |ts| == 1 then 0
    else
      var k := NearestIndex(ts[..|ts| - 1], q);
      if Distance(ts[|ts| - 1], q) <= Distance(ts[k], q) then |ts| - 1 else k
  }

  /** `k` is as close to `q` as any index, and strictly closer than every later one. */
  ghost predicate IsNearest(ts: seq<int>, q: int, k: int) {
    && 0 <= k < |ts|
    && (forall i :: 0 <= i < |ts| ==> Distance(ts[k], q) <= Distance(ts[i], q))
    && (forall i :: k < i < |ts| ==> Distance(ts[k], q) < Distance(ts[i], q))
  }

  /** The scan finds the closest instant, and the last one among equally close instants. */
  lemma {:induction false} NearestIndexIsNearest(ts: seq<int>, q: int)
    requires |ts| > 0
    ensures IsNearest(ts, q, NearestIndex(ts, q))
  {
    if |ts| > 1 {
      var init := ts[..|ts| - 1];
      NearestIndexIsNearest(init, q);
      assert forall i :: 0 <= i < |init| ==> init[i] == ts[i];
    }
  }

  lemma NearestIsUnique(ts: seq<int>, q: int, k1: int, k2: int)
    requires IsNearest(ts, q, k1) && IsNearest(ts, q, k2)
    ensures k1 == k2
  {
    assert Distance(ts[k1], q) == Distance(ts[k2], q);
  }

  /** Any index that is nearest in the sense above is the one the scan finds. */
  lemma NearestIndexCharacterized(ts: seq<int>, q: int, k: int)
    requires |ts| > 0
    ensures IsNearest(ts, q, k) <==> k == NearestIndex(ts, q)
  {
    NearestIndexIsNearest(ts, q);
    if IsNearest(ts, q, k) {
      NearestIsUnique(ts, q, k, NearestIndex(ts, q));
    }
  }

  /** On strictly increasing instants, an instant equal to the query is the answer. */
  lemma ExactHit(ts: seq<int>, q: int, i: int)
    requires Ascending(ts) && 0 <= i < |ts| && ts[i] == q
    ensures NearestIndex(ts, q) == i
  {
    AscendingAll(ts);
    assert IsNearest(ts, q, i);
    NearestIndexCharacterized(ts, q, i);
  }

  /** A query exactly half-way between two neighbours gets the later one. */
  lemma TieGoesRight(ts: seq<int>, q: int, i: int)
    requires Ascending(ts) && 0 <= i < |ts| - 1
    requires ts[i] < q < ts[i + 1] && q - ts[i] == ts[i + 1] - q
    ensures NearestIndex(ts, q) == i + 1
  {
    AscendingAll(ts);
    assert IsNearest(ts, q, i + 1);
    NearestIndexCharacterized(ts, q, i + 1);
  }

  /**
   * The final comparison of the search: once every instant left of `left`
   * lies before the query and every instant right of `right` after it,
   * the closer of the two neighbours (the right one on a tie) is nearest.
   */
  lemma WindowIsNearest(ts: seq<int>, q: int, left: int, right: int)
    requires Ascending(ts) && 0 <= left <= right < |ts|
    requires right == left + 1 || (left == 0 && right == 0 && |ts| == 1)
    requires left == 0 || ts[left] < q
    requires right == |ts| - 1 || q < ts[right]
    ensures IsNearest(ts, q, if Distance(ts[left], q) < Distance(ts[right], q) then left else right)
  {
    AscendingAll(ts);
  }

  /**
   * `dich_index_finder`: bisection over a non-empty, chronological list of
   * state vectors for the instant `searched`. The result is the index the
   * reference scan picks: no other epoch is closer, and no later epoch is
   * as close.
   */
  method DichIndexFinder(svs: seq<StateVector>, searched: int) returns (k: nat)
    requires |svs| > 0 && Chronological(svs)
    ensures k < |svs|
    ensures k == NearestIndex(Instants(svs), searched)
  {
    ghost var ts := Instants(svs);
    var left, right := 0, |svs| - 1;
    while right - left >= 2
      invariant 0 <= left <= right < |svs|
      invariant left < right || |svs| == 1
      invariant left == 0 || ts[left] < searched
      invariant right == |svs| - 1 || searched < ts[right]
      decreases right - left
    {
      var current := left + (right - left) / 2;
      var value := InstantAt(svs, current);
      if value < searched {
        left := current;
      }
      if value == searched {
        ExactHit(ts, searched, current);
        return current;
      }
      if value > searched {
        right := current;
      }
    }
    var distanceLeft := Distance(InstantAt(svs, left), searched);
    var distanceRight := Distance(InstantAt(svs, right), searched);
    if distanceLeft < distanceRight {
      k := left;
    } else {
      k := right;
    }
    WindowIsNearest(ts, searched, left, right);
    NearestIndexCharacterized(ts, searched, k);
  }

  /**
   * `closest_epoch`: the state vector nearest to `now`. The Python
   * function reads `now` from the wall clock; here it is a parameter.
   */
  method ClosestEpoch(svs: seq<StateVector>, now: int) returns (e: StateVector)
    requires |svs| > 0 && Chronological(svs)
    ensures e in svs
    ensures e == svs[NearestIndex(Instants(svs), now)]
  {
    var index := DichIndexFinder(svs, now);
    e := svs[index];
  }

  /** The instant of 00:00:00 plus `micro` microseconds on day `day` of `year`. */
  function Midnight(year: int, day: int, micro: int): int
    requires ValidFields(TimeFields(year, day, 0, 0, 0, micro))
  {
    ToMicros(TimeFields(year, day, 0, 0, 0, micro))
  }

  /**
   * The search fixtures queried at 2025-002T01:00:00.000: one epoch gives
   * index 0; epochs at days 1-2 (at .001), 1-3 and 1-4 (at .000) of 2025
   * all give index 1.
   */
  lemma SearchFixtures(q: int)
    requires q == ToMicros(TimeFields(2025, 2, 1, 0, 0, 0))
    ensures NearestIndex([Midnight(2025, 1, 1000)], q) == 0
    ensures NearestIndex([Midnight(2025, 1, 1000), Midnight(2025, 2, 1000)], q) == 1
    ensures NearestIndex([Midnight(2025, 1, 0), Midnight(2025, 2, 0), Midnight(2025, 3, 0)], q) == 1
    ensures NearestIndex([Midnight(2025, 1, 0), Midnight(2025, 2, 0), Midnight(2025, 3, 0), Midnight(2025, 4, 0)], q) == 1
  {
  }

  /**
   * The `closest_epoch` fixtures: for any current instant from 2025-001
   * onwards, epochs at 2024-001 and 2025-001 give the second one; with a
   * third epoch at 9999-001 the second is still nearest up to year 5000.
   */
  lemma ClosestFixtures(now: int)
    requires Midnight(2025, 1, 0) <= now <= Midnight(5000, 1, 0)
    ensures NearestIndex([Midnight(2024, 1, 0), Midnight(2025, 1, 0)], now) == 1
    ensures NearestIndex([Midnight(2024, 1, 0), Midnight(2025, 1, 0), Midnight(9999, 1, 0)], now) == 1
  {
  }
}
