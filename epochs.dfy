/**
 * The dataset's state vectors and the ordering the nearest-epoch search
 * relies on.
 */
module Epochs {
  import opened Timestamps

  /**
   * One state vector: its `EPOCH` text and every other field of the record
   * (`X`, `Y`, `Z`, `X_DOT`, ...), carried through untouched.
   */
  datatype StateVector = StateVector(epoch: string, fields: map<string, string>)

  /** Every `EPOCH` text converts to an instant. */
  predicate AllWellFormed(svs: seq<StateVector>) {
    forall i :: 0 <= i < |svs| ==> ValidFormat(svs[i].epoch)
  }

  /** The instant of the state vector at `index` (`get_datetime_from_index`). */
  function InstantAt(svs: seq<StateVector>, index: int): (t: int)
    requires 0 <= index < |svs| && ValidFormat(svs[index].epoch)
    ensures 0 <= t < DaysInRange * MicrosPerDay
  {
    Instant(svs[index].epoch)
  }

  function Instants(svs: seq<StateVector>): (ts: seq<int>)
    requires AllWellFormed(svs)
    ensures |ts| == |svs|
    ensures forall i :: 0 <= i < |svs| ==> ts[i] == InstantAt(svs, i)
  {
    seq(|svs|, i requires 0 <= i < |svs| && ValidFormat(svs[i].epoch) => InstantAt(svs, i))
  }

  /** Each instant is strictly later than the one before it. */
  ghost predicate Ascending(ts: seq<int>) {
    forall i :: 0 <= i < |ts| - 1 ==> ts[i] < ts[i + 1]
  }

  /** The order the dataset is delivered in: well-formed, strictly increasing epochs. */
  ghost predicate Chronological(svs: seq<StateVector>) {
    AllWellFormed(svs) && Ascending(Instants(svs))
  }

  /** Adjacent increase gives increase between any two positions. */
  lemma {:induction false} AscendingPairwise(ts: seq<int>, i: int, j: int)
    requires Ascending(ts) && 0 <= i < j < |ts|
    ensures ts[i] < ts[j]
    decreases j - i
  {
    if i + 1 < j {
      AscendingPairwise(ts, i + 1, j);
    }
  }

  lemma AscendingAll(ts: seq<int>)
    requires Ascending(ts)
    ensures forall i, j :: 0 <= i < j < |ts| ==> ts[i] < ts[j]
  {
    forall i, j | 0 <= i < j < |ts| ensures ts[i] < ts[j] {
      AscendingPairwise(ts, i, j);
    }
  }

  /**
   * A dataset whose `EPOCH` fields are in strictly increasing field order
   * (year, day, hour, minute, second, fraction) is chronological, and
   * conversely.
   */
  lemma ChronologicalByFields(svs: seq<StateVector>)
    requires AllWellFormed(svs)
    ensures Chronological(svs) <==>
      forall i :: 0 <= i < |svs| - 1 ==>
        Precedes(Parse(RemoveZ(svs[i].epoch)).value, Parse(RemoveZ(svs[i + 1].epoch)).value)
  {
    var ts := Instants(svs);
    forall i | 0 <= i < |svs| - 1
      ensures ts[i] < ts[i + 1] <==>
        Precedes(Parse(RemoveZ(svs[i].epoch)).value, Parse(RemoveZ(svs[i + 1].epoch)).value)
    {
      ToMicrosOrder(Parse(RemoveZ(svs[i].epoch)).value, Parse(RemoveZ(svs[i + 1].epoch)).value);
    }
  }

  /** In a chronological dataset, distinct positions hold distinct `EPOCH` texts. */
  lemma DistinctEpochTexts(svs: seq<StateVector>, i: int, j: int)
    requires Chronological(svs) && 0 <= i < |svs| && 0 <= j < |svs|
    requires svs[i].epoch == svs[j].epoch
    ensures i == j
  {
    var ts := Instants(svs);
    if i < j {
      AscendingPairwise(ts, i, j);
    } else if j < i {
      AscendingPairwise(ts, j, i);
    }
  }
}
