/**
 * The worker command's extract stage as a whole: `main` hands each of the
 * four extractors one id range, and each extractor emits its share of the
 * window's rows. Which rows reach the pipeline depends on the partition.
 */
module Pipeline {
  import opened EtlTypes
  import Partition
  import Extract

  /** The rows the extractor given range `k` is responsible for. */
  function Share(src: seq<Record>, k: Partition.KeyRange, w: Extract.Window): seq<Record> {
    Extract.Eligible(src, k.start, k.end, w)
  }

  /** A row of the window's interval: inside `[minID, maxID]` and inside the time window. */
  predicate InWindow(r: Record, minID: int, maxID: int, w: Extract.Window) {
    minID <= r.id <= maxID && w.startAt <= r.timestamp < w.endAt
  }

  /** A row is in a range's share exactly when the range covers its id and it is in the time window. */
  lemma InShare(src: seq<Record>, k: Partition.KeyRange, w: Extract.Window, r: Record)
    requires Extract.IdsAscending(src)
    ensures r in Share(src, k, w) <==>
      r in src && Partition.Covers(k, r.id) && w.startAt <= r.timestamp < w.endAt
  {
    Extract.EligibleSpec(src, k.start, k.end, w);
  }

  /**
   * With the last range absorbing the remainder, every row of the window
   * lands in the share of exactly one extractor.
   */
  lemma {:induction false} SharesCoverOnce(src: seq<Record>, minID: int, maxID: int, w: Extract.Window, r: Record)
    requires Extract.IdsAscending(src) && minID <= maxID
    requires r in src && InWindow(r, minID, maxID, w)
    ensures var ab := Partition.AbsorbingRanges(minID, maxID);
      exists i :: 0 <= i < Partition.ExtractWorkers && r in Share(src, ab[i], w)
    ensures var ab := Partition.AbsorbingRanges(minID, maxID);
      forall i, j :: 0 <= i < j < Partition.ExtractWorkers ==> !(r in Share(src, ab[i], w) && r in Share(src, ab[j], w))
  {
    var ab := Partition.AbsorbingRanges(minID, maxID);
    Partition.AbsorbingRangesPartition(minID, maxID, r.id);
    var i :| 0 <= i < |ab| && Partition.Covers(ab[i], r.id);
    InShare(src, ab[i], w, r);
    forall i, j | 0 <= i < j < Partition.ExtractWorkers
      ensures !(r in Share(src, ab[i], w) && r in Share(src, ab[j], w))
    {
      InShare(src, ab[i], w, r);
      InShare(src, ab[j], w, r);
    }
  }

  /**
   * With the ranges as the loop computes them, a row of the window whose id
   * lies among the top `(maxID - minID + 1) % 4` ids reaches no extractor.
   */
  lemma {:induction false} RowLostAsWritten(src: seq<Record>, minID: int, maxID: int, w: Extract.Window, r: Record)
    requires Extract.IdsAscending(src) && minID <= maxID
    requires r in src && InWindow(r, minID, maxID, w)
    requires r.id > maxID - (maxID - minID + 1) % Partition.ExtractWorkers
    ensures forall i :: 0 <= i < Partition.ExtractWorkers ==> r !in Share(src, Partition.Ranges(minID, maxID)[i], w)
  {
    var rs := Partition.Ranges(minID, maxID);
    Partition.RemainderDropped(minID, maxID, r.id);
    forall i | 0 <= i < Partition.ExtractWorkers ensures r !in Share(src, rs[i], w) {
      InShare(src, rs[i], w, r);
    }
  }
}
