/**
 * How the worker command splits the id interval `[minID, maxID]` of the
 * window's rows among its extractor workers (`main`, the extract loop).
 */
module Partition {

  const ExtractWorkers: nat := 4

  /** An inclusive id range handed to one extractor; empty when `start > end`. */
  datatype KeyRange = KeyRange(start: int, end: int)

  predicate Covers(r: KeyRange, id: int) {
    r.start <= id <= r.end
  }

  predicate IsEmpty(r: KeyRange) {
    r.start > r.end
  }

  /**
   * Go's integer `/`: the quotient truncated toward zero, so the remainder
   * `a - b * q` has the sign of the dividend and is smaller than the divisor.
   */
  function GoQuo(a: int, b: int): (q: int)
    requires b > 0
    ensures a >= 0 ==> 0 <= a - b * q < b
    ensures a < 0 ==> -b < a - b * q <= 0
  {
    if a >= 0 then a / b
    else
      var p := (-a) / b;
      assert 0 <= -a - b * p < b;
      -p
  }

  /** `rangeSize := (maxID - minID + 1) / int64(extractWorker)`. */
  function RangeSize(minID: int, maxID: int): (size: int)
    ensures var span := maxID - minID + 1;
      span >= 0 ==> 0 <= ExtractWorkers * size <= span < ExtractWorkers * size + ExtractWorkers
    ensures var span := maxID - minID + 1;
      span < 0 ==> ExtractWorkers * size - ExtractWorkers < span <= ExtractWorkers * size <= 0
  {
    GoQuo(maxID - minID + 1, ExtractWorkers)
  }

  /** The range worker `i` receives, as the loop computes `rangeStart` and `rangeEnd`. */
  function RangeOf(minID: int, maxID: int, i: int): (r: KeyRange)
    ensures r.end - r.start + 1 == RangeSize(minID, maxID)
    ensures IsEmpty(r) <==> RangeSize(minID, maxID) <= 0
  {
    var size := RangeSize(minID, maxID);
    KeyRange(minID + i * size, minID + i * size + size - 1)
  }

  /** The ranges of all workers, in worker order. */
  function Ranges(minID: int, maxID: int): (rs: seq<KeyRange>)
    ensures |rs| == ExtractWorkers
  {
    seq(ExtractWorkers, i requires 0 <= i < ExtractWorkers => RangeOf(minID, maxID, i))
  }

  predicate CoveredBy(rs: seq<KeyRange>, id: int) {
    exists i :: 0 <= i < |rs| && Covers(rs[i], id)
  }

  /**
   * The partition loop. Each range has `RangeSize` ids, the first starts at
   * `minID`, and each next range starts right after the previous one ends.
   */
  method Partition(minID: int, maxID: int) returns (ranges: seq<KeyRange>)
    ensures |ranges| == ExtractWorkers
    ensures ranges[0].start == minID
    ensures forall i :: 0 <= i < |ranges| ==>
      ranges[i].end - ranges[i].start + 1 == RangeSize(minID, maxID)
    ensures forall i :: 0 <= i < |ranges| - 1 ==> ranges[i].end + 1 == ranges[i + 1].start
    ensures ranges == Ranges(minID, maxID)
  {
    var rangeSize := GoQuo(maxID - minID + 1, ExtractWorkers);
    ranges := [];
    for i := 0 to ExtractWorkers
      invariant |ranges| == i
      invariant forall k :: 0 <= k < i ==> ranges[k] == RangeOf(minID, maxID, k)
    {
      var rangeStart := minID + i * rangeSize;
      var rangeEnd := rangeStart + rangeSize - 1;
      ranges := ranges + [KeyRange(rangeStart, rangeEnd)];
    }
  }

  /** When the interval holds fewer ids than workers, every worker gets an empty range. */
  lemma SmallSpanAllEmpty(minID: int, maxID: int)
    requires maxID - minID + 1 < ExtractWorkers
    ensures RangeSize(minID, maxID) <= 0
    ensures minID <= maxID ==> RangeSize(minID, maxID) == 0
    ensures forall i :: 0 <= i < ExtractWorkers ==> IsEmpty(Ranges(minID, maxID)[i])
    ensures forall id :: !CoveredBy(Ranges(minID, maxID), id)
  {
  }

  /** Two different workers never share an id. */
  lemma {:induction false} RangesDisjoint(minID: int, maxID: int, i: int, j: int, id: int)
    requires 0 <= i < j < ExtractWorkers
    ensures !(Covers(Ranges(minID, maxID)[i], id) && Covers(Ranges(minID, maxID)[j], id))
  {
    var size := RangeSize(minID, maxID);
    if size > 0 {
      MulMonotone(i + 1, j, size);
      assert (i + 1) * size == i * size + size;
    }
  }

  /**
   * The ids handed out are exactly `[minID, minID + 4 * rangeSize - 1]`.
   */
  lemma {:induction false} RangesUnion(minID: int, maxID: int, id: int)
    ensures CoveredBy(Ranges(minID, maxID), id) <==>
      minID <= id <= minID + ExtractWorkers * RangeSize(minID, maxID) - 1
  {
    if CoveredBy(Ranges(minID, maxID), id) {
      CoveredInUnion(minID, maxID, id);
    }
    if minID <= id <= minID + ExtractWorkers * RangeSize(minID, maxID) - 1 {
      UnionCovered(minID, maxID, id);
    }
  }

  lemma CoveredInUnion(minID: int, maxID: int, id: int)
    requires CoveredBy(Ranges(minID, maxID), id)
    ensures minID <= id <= minID + ExtractWorkers * RangeSize(minID, maxID) - 1
  {
    // only the shape of the ranges matters here, not how `rangeSize` is computed
    hide RangeSize, GoQuo;
    var size := RangeSize(minID, maxID);
    var rs := Ranges(minID, maxID);
    var i :| 0 <= i < |rs| && Covers(rs[i], id);
    assert rs[i] == KeyRange(minID + i * size, minID + i * size + size - 1);
    assert size > 0;
    MulMonotone(0, i, size);
    MulMonotone(i + 1, ExtractWorkers, size);
    assert (i + 1) * size == i * size + size;
  }

  lemma UnionCovered(minID: int, maxID: int, id: int)
    requires minID <= id <= minID + ExtractWorkers * RangeSize(minID, maxID) - 1
    ensures CoveredBy(Ranges(minID, maxID), id)
  {
    var size := RangeSize(minID, maxID);
    var rs := Ranges(minID, maxID);
    var off := id - minID;
    if size <= 0 {
      MulMonotone(0, ExtractWorkers, -size);
      assert false;
    }
    var i := off / size;
    var rem := off % size;
    assert off == i * size + rem && 0 <= rem < size;
    assert 0 <= i;
    if i >= ExtractWorkers {
      MulMonotone(ExtractWorkers, i, size);
      assert false;
    }
    assert rs[i] == KeyRange(minID + i * size, minID + i * size + size - 1);
    assert Covers(rs[i], id);
  }

  /**
   * The handed-out ids stay inside `[minID, maxID]`, and exactly the top
   * `(maxID - minID + 1) % 4` ids of the interval go to no worker.
   */
  lemma {:induction false} RemainderDropped(minID: int, maxID: int, id: int)
    requires minID <= maxID
    ensures CoveredBy(Ranges(minID, maxID), id) ==> minID <= id <= maxID
    ensures minID <= id <= maxID ==>
      (!CoveredBy(Ranges(minID, maxID), id) <==> id > maxID - (maxID - minID + 1) % ExtractWorkers)
  {
    var span := maxID - minID + 1;
    assert span == ExtractWorkers * (span / ExtractWorkers) + span % ExtractWorkers;
    RangesUnion(minID, maxID, id);
  }

  /** An instance: ids 1..7 leave 5, 6 and 7 to nobody. */
  lemma SevenIdsDropThree()
    ensures Ranges(1, 7) == [KeyRange(1, 1), KeyRange(2, 2), KeyRange(3, 3), KeyRange(4, 4)]
    ensures !CoveredBy(Ranges(1, 7), 5) && !CoveredBy(Ranges(1, 7), 6) && !CoveredBy(Ranges(1, 7), 7)
  {
    RemainderDropped(1, 7, 5);
    RemainderDropped(1, 7, 6);
    RemainderDropped(1, 7, 7);
  }

  /**
   * The intended partition: as `Ranges`, except that the last worker's range
   * ends at `maxID` and so absorbs the remainder of the division.
   */
  function AbsorbingRanges(minID: int, maxID: int): (rs: seq<KeyRange>)
    ensures |rs| == ExtractWorkers
  {
    var rs := Ranges(minID, maxID);
    rs[ExtractWorkers - 1 := KeyRange(rs[ExtractWorkers - 1].start, maxID)]
  }

  /** With the last range absorbing the remainder, every id of `[minID, maxID]` has exactly one worker. */
  lemma {:induction false} AbsorbingRangesPartition(minID: int, maxID: int, id: int)
    requires minID <= maxID
    ensures CoveredBy(AbsorbingRanges(minID, maxID), id) <==> minID <= id <= maxID
    ensures forall i, j :: 0 <= i < j < ExtractWorkers ==>
      !(Covers(AbsorbingRanges(minID, maxID)[i], id) && Covers(AbsorbingRanges(minID, maxID)[j], id))
  {
    var size := RangeSize(minID, maxID);
    var rs := Ranges(minID, maxID);
    var ab := AbsorbingRanges(minID, maxID);
    var last := ExtractWorkers - 1;
    assert size >= 0;
    MulMonotone(0, last, size);
    assert ab[last].start == minID + last * size;
    var span := maxID - minID + 1;
    assert span == ExtractWorkers * size + span % ExtractWorkers;
    assert ab[last].start <= maxID + 1;
    forall i, j | 0 <= i < j < ExtractWorkers
      ensures !(Covers(ab[i], id) && Covers(ab[j], id))
    {
      RangesDisjoint(minID, maxID, i, j, id);
      if j == last && Covers(ab[i], id) {
        MulMonotone(i + 1, last, size);
        assert (i + 1) * size == i * size + size;
      }
    }
    RangesUnion(minID, maxID, id);
    if minID <= id <= maxID {
      if CoveredBy(rs, id) {
        var i :| 0 <= i < ExtractWorkers && Covers(rs[i], id);
        assert Covers(ab[i], id);
      } else {
        assert Covers(ab[last], id);
      }
      assert CoveredBy(ab, id);
    }
    if CoveredBy(ab, id) {
      var i :| 0 <= i < ExtractWorkers && Covers(ab[i], id);
      if i < last {
        assert Covers(rs[i], id);
        assert CoveredBy(rs, id);
        assert id <= minID + ExtractWorkers * size - 1;
      } else {
        assert ab[i] == KeyRange(minID + last * size, maxID);
      }
    }
  }

  lemma MulMonotone(a: int, b: int, c: int)
    requires a <= b && c >= 0
    ensures a * c <= b * c
  {
  }
}
