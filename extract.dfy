/**
 * `Extractor` of the worker command: keyset pagination over the source table.
 * The table is a sequence of rows in primary-key order; the page query
 * "WHERE id > lastID AND id <= maxID AND timestamp in [startAt, endAt)
 * ORDER BY id LIMIT chunkSize" is `Page`, and the output channel is the
 * returned sequence of emitted rows.
 */
module Extract {
  import opened Wrappers
  import opened EtlTypes

  /** The time window `[startAt, endAt)`. */
  datatype Window = Window(startAt: Instant, endAt: Instant)

  /** The source table is ordered by a strictly increasing primary key. */
  predicate IdsAscending(rows: seq<Record>) {
    forall i, j :: 0 <= i < j < |rows| ==> rows[i].id < rows[j].id
  }

  /** The WHERE clause of the page query. */
  predicate Wanted(r: Record, lo: int, hi: int, w: Window) {
    lo < r.id <= hi && w.startAt <= r.timestamp < w.endAt
  }

  /** The rows of `src` the WHERE clause keeps, in source (= id) order. */
  function Select(src: seq<Record>, lo: int, hi: int, w: Window): (r: seq<Record>)
    ensures |r| <= |src|
    ensures forall i :: 0 <= i < |r| ==> Wanted(r[i], lo, hi, w)
    decreases |src|
  {
    if src == [] then []
    else (if Wanted(src[0], lo, hi, w) then [src[0]] else []) + Select(src[1..], lo, hi, w)
  }

  /** Everything a worker with range `[minID, maxID]` is responsible for. */
  function Eligible(src: seq<Record>, minID: int, maxID: int, w: Window): (e: seq<Record>)
    ensures forall i :: 0 <= i < |e| ==> minID <= e[i].id <= maxID && w.startAt <= e[i].timestamp < w.endAt
  {
    Select(src, minID - 1, maxID, w)
  }


  /** One page: the first `chunkSize` rows with `lastID < id <= maxID` inside the window. */
  function Page(src: seq<Record>, lastID: int, maxID: int, w: Window, chunkSize: nat): (p: seq<Record>)
    ensures |p| <= chunkSize
    // a page shorter than the limit holds everything left after the cursor
    ensures |p| < chunkSize ==> p == Select(src, lastID, maxID, w)
  {
    var e := Select(src, lastID, maxID, w);
    e[..Min(chunkSize, |e|)]
  }

  /** A page holds at most `chunkSize` source rows, each satisfying the query, in ascending id order. */
  lemma PageSpec(src: seq<Record>, lastID: int, maxID: int, w: Window, chunkSize: nat)
    ensures var p := Page(src, lastID, maxID, w, chunkSize);
      && |p| <= chunkSize
      && (forall i :: 0 <= i < |p| ==> Wanted(p[i], lastID, maxID, w) && p[i] in src)
      && (IdsAscending(src) ==> IdsAscending(p))
  {
    var e := Select(src, lastID, maxID, w);
    SelectSound(src, lastID, maxID, w);
    SelectAscending(src, lastID, maxID, w);
    var p := e[..Min(chunkSize, |e|)];
    assert forall i :: 0 <= i < |p| ==> p[i] in e;
  }

  lemma {:induction false} SelectSound(src: seq<Record>, lo: int, hi: int, w: Window)
    ensures forall r :: r in Select(src, lo, hi, w) <==> r in src && Wanted(r, lo, hi, w)
    decreases |src|
  {
    if src != [] {
      SelectSound(src[1..], lo, hi, w);
      assert src == [src[0]] + src[1..];
    }
  }

  lemma {:induction false} SelectAscending(src: seq<Record>, lo: int, hi: int, w: Window)
    ensures IdsAscending(src) ==> IdsAscending(Select(src, lo, hi, w))
    decreases |src|
  {
    if src != [] && IdsAscending(src) {
      var rest := Select(src[1..], lo, hi, w);
      SelectAscending(src[1..], lo, hi, w);
      SelectSound(src[1..], lo, hi, w);
      forall r | r in rest ensures src[0].id < r.id {
        var k :| 0 <= k < |src[1..]| && src[1..][k] == r;
        assert src[k + 1] == r;
      }
    }
  }

  /** Selecting twice intersects the two id intervals. */
  lemma {:induction false} SelectCompose(src: seq<Record>, a: int, b: int, c: int, d: int, w: Window)
    ensures Select(Select(src, a, b, w), c, d, w)
         == Select(src, if a < c then c else a, Min(b, d), w)
    decreases |src|
  {
    if src != [] {
      SelectCompose(src[1..], a, b, c, d, w);
      var head := if Wanted(src[0], a, b, w) then [src[0]] else [];
      SelectAppend(head, Select(src[1..], a, b, w), c, d, w);
    }
  }

  lemma {:induction false} SelectAppend(s: seq<Record>, t: seq<Record>, lo: int, hi: int, w: Window)
    ensures Select(s + t, lo, hi, w) == Select(s, lo, hi, w) + Select(t, lo, hi, w)
    decreases |s|
  {
    if s != [] {
      SelectAppend(s[1..], t, lo, hi, w);
      assert (s + t)[0] == s[0] && (s + t)[1..] == s[1..] + t;
      var head := if Wanted(s[0], lo, hi, w) then [s[0]] else [];
      assert Select(s + t, lo, hi, w) == head + (Select(s[1..], lo, hi, w) + Select(t, lo, hi, w));
    } else {
      assert s + t == t;
    }
  }

  /** A selection that already satisfies the clause is kept whole. */
  lemma {:induction false} SelectKeepsAll(s: seq<Record>, lo: int, hi: int, w: Window)
    requires forall i :: 0 <= i < |s| ==> Wanted(s[i], lo, hi, w)
    ensures Select(s, lo, hi, w) == s
    decreases |s|
  {
    if s != [] {
      SelectKeepsAll(s[1..], lo, hi, w);
    }
  }

  /**
   * In an ascending selection whose rows all satisfy `(lo, hi]` and the window,
   * raising the lower bound to the id of row `k` keeps exactly the rows after `k`.
   */
  lemma {:induction false} SelectAfter(s: seq<Record>, lo: int, hi: int, w: Window, k: nat)
    requires IdsAscending(s) && k < |s|
    requires forall i :: 0 <= i < |s| ==> Wanted(s[i], lo, hi, w)
    ensures Select(s, s[k].id, hi, w) == s[k + 1..]
    decreases |s|
  {
    if k == 0 {
      SelectKeepsAll(s[1..], s[0].id, hi, w);
    } else {
      SelectAfter(s[1..], lo, hi, w, k - 1);
    }
  }

  /** The reference definition's guarantees: ascending, within `[minID, maxID]` and the window, complete. */
  lemma EligibleSpec(src: seq<Record>, minID: int, maxID: int, w: Window)
    requires IdsAscending(src)
    ensures IdsAscending(Eligible(src, minID, maxID, w))
    ensures forall r :: r in Eligible(src, minID, maxID, w) <==>
      r in src && minID <= r.id <= maxID && w.startAt <= r.timestamp < w.endAt
    ensures minID > maxID ==> Eligible(src, minID, maxID, w) == []
  {
    SelectAscending(src, minID - 1, maxID, w);
    SelectSound(src, minID - 1, maxID, w);
    if minID > maxID {
      SelectEmpty(src, minID - 1, maxID, w);
    }
  }

  lemma {:induction false} SelectEmpty(src: seq<Record>, lo: int, hi: int, w: Window)
    requires lo >= hi
    ensures Select(src, lo, hi, w) == []
    decreases |src|
  {
    if src != [] {
      SelectEmpty(src[1..], lo, hi, w);
    }
  }

  /**
   * The cursor of the extractor loop after `pos` rows of the worker's share
   * `full` have been emitted: `minID - 1` at first, then the last emitted id.
   */
  function CursorAfter(full: seq<Record>, minID: int, pos: nat): int
    requires pos <= |full|
  {
    if pos == 0 then minID - 1 else full[pos - 1].id
  }

  /** Every row of the worker's share satisfies the WHERE clause with the initial cursor. */
  lemma EligibleWanted(src: seq<Record>, minID: int, maxID: int, w: Window)
    ensures var full := Eligible(src, minID, maxID, w);
      forall i :: 0 <= i < |full| ==> Wanted(full[i], minID - 1, maxID, w)
  {
    var full := Eligible(src, minID, maxID, w);
    SelectSound(src, minID - 1, maxID, w);
    assert forall i :: 0 <= i < |full| ==> full[i] in full;
  }

  /** Re-selecting the share from the cursor leaves exactly the rows not yet emitted. */
  lemma ShareFromCursor(full: seq<Record>, minID: int, maxID: int, w: Window, pos: nat)
    requires IdsAscending(full) && pos <= |full|
    requires forall i :: 0 <= i < |full| ==> Wanted(full[i], minID - 1, maxID, w)
    ensures minID - 1 <= CursorAfter(full, minID, pos)
    ensures Select(full, CursorAfter(full, minID, pos), maxID, w) == full[pos..]
  {
    if pos == 0 {
      SelectKeepsAll(full, minID - 1, maxID, w);
    } else {
      SelectAfter(full, minID - 1, maxID, w, pos - 1);
    }
  }

  /**
   * The page fetched at the cursor is the next slice of the worker's share:
   * keyset pagination neither skips nor repeats a row.
   */
  lemma PageAtCursor(src: seq<Record>, minID: int, maxID: int, w: Window, pos: nat, chunkSize: nat)
    requires IdsAscending(src)
    requires pos <= |Eligible(src, minID, maxID, w)|
    ensures var full := Eligible(src, minID, maxID, w);
      Page(src, CursorAfter(full, minID, pos), maxID, w, chunkSize)
        == full[pos..pos + Min(chunkSize, |full| - pos)]
  {
    var full := Eligible(src, minID, maxID, w);
    var lastID := CursorAfter(full, minID, pos);
    SelectAscending(src, minID - 1, maxID, w);
    EligibleWanted(src, minID, maxID, w);
    ShareFromCursor(full, minID, maxID, w, pos);
    SelectCompose(src, minID - 1, maxID, lastID, maxID, w);
    var e := Select(src, lastID, maxID, w);
    assert e == full[pos..];
  }

  datatype ExtractError = QueryFailed | ScanFailed | ContextCanceled

  /**
   * The one thing that can go wrong during a run, located by the chunk number
   * (`chunkCount`) and the row's position within that chunk's page.
   */
  datatype Interrupt =
    | QueryError(chunk: nat)            // `db.QueryContext` fails
    | ScanError(chunk: nat, row: nat)   // `rows.Scan` fails on that row
    | Cancel(chunk: nat, row: nat)      // `ctx.Done()` is seen before sending that row

  function CauseOf(i: Interrupt): ExtractError {
    match i
    case QueryError(_) => QueryFailed
    case ScanError(_, _) => ScanFailed
    case Cancel(_, _) => ContextCanceled
  }

  /** The number of rows in `chunks` full pages (`chunks * chunkSize`, counted page by page). */
  function FullPages(chunks: nat, chunkSize: nat): (n: nat)
    ensures chunks > 0 && chunkSize > 0 ==> n >= chunkSize
  {
    if chunks == 0 then 0 else FullPages(chunks - 1, chunkSize) + chunkSize
  }

  /** How many rows have been emitted when the interrupt strikes, given that all earlier pages were full. */
  function RowsBefore(i: Interrupt, chunkSize: nat): nat {
    match i
    case QueryError(c) => FullPages(c, chunkSize)
    case ScanError(c, j) => FullPages(c, chunkSize) + j
    case Cancel(c, j) => FullPages(c, chunkSize) + j
  }

  /**
   * `db.QueryContext` with the page query: the database answers with `Page`,
   * which at the loop's cursor is the next slice of the worker's share.
   */
  method QueryPage(src: seq<Record>, lastID: int, maxID: int, w: Window, chunkSize: nat,
                   ghost minID: int, ghost pos: nat)
    returns (rows: seq<Record>)
    requires IdsAscending(src)
    requires pos <= |Eligible(src, minID, maxID, w)|
    requires lastID == CursorAfter(Eligible(src, minID, maxID, w), minID, pos)
    ensures var full := Eligible(src, minID, maxID, w);
      rows == full[pos..pos + Min(chunkSize, |full| - pos)]
  {
    rows := Page(src, lastID, maxID, w, chunkSize);
    PageAtCursor(src, minID, maxID, w, pos, chunkSize);
  }

  /** Emitting the first `k` rows of the slice `full[pos..pos + n]` extends the emitted prefix. */
  lemma PrefixExtend(full: seq<Record>, pos: nat, k: nat, n: nat)
    requires k <= n && pos + n <= |full|
    ensures full[..pos] + full[pos..pos + n][..k] == full[..pos + k]
  {
  }

  /** True when the interrupt strikes while row `j` of chunk `c` is being handled. */
  predicate StrikesAtRow(interrupt: Option<Interrupt>, c: nat, j: nat) {
    interrupt == Some(ScanError(c, j)) || interrupt == Some(Cancel(c, j))
  }

  /**
   * The inner `rows.Next()` loop of one chunk: scan each row, check for
   * cancellation, send it, count it (twice) and remember its id.
   */
  method SendRows(rows: seq<Record>, chunkCount: nat, interrupt: Option<Interrupt>, sent: seq<Record>)
    returns (out: seq<Record>, count: nat, maxFetchedID: int, err: Option<ExtractError>)
    ensures err.None? ==>
      && out == sent + rows && count == 2 * |rows|
      && (|rows| > 0 ==> maxFetchedID == rows[|rows| - 1].id)
      && forall j :: 0 <= j < |rows| ==> !StrikesAtRow(interrupt, chunkCount, j)
    ensures err.Some? ==>
      && interrupt.Some? && err.value == CauseOf(interrupt.value)
      && interrupt.value.chunk == chunkCount && !interrupt.value.QueryError?
      && interrupt.value.row < |rows|
      && out == sent + rows[..interrupt.value.row]
  {
    out := sent;
    count := 0;
    maxFetchedID := 0;
    err := None;
    var j := 0;
    while j < |rows|
      invariant 0 <= j <= |rows|
      invariant count == 2 * j
      invariant out == sent + rows[..j]
      invariant j > 0 ==> maxFetchedID == rows[j - 1].id
      invariant forall k :: 0 <= k < j ==> !StrikesAtRow(interrupt, chunkCount, k)
    {
      var r := rows[j];
      if interrupt == Some(ScanError(chunkCount, j)) {
        return out, count, maxFetchedID, Some(ScanFailed);
      }
      if interrupt == Some(Cancel(chunkCount, j)) {
        return out, count, maxFetchedID, Some(ContextCanceled);
      }
      out := out + [r];
      count := count + 1;
      maxFetchedID := r.id;
      count := count + 1;
      j := j + 1;
    }
    assert rows[..j] == rows;
  }

  /** The row of its chunk at which an interrupt strikes (a failed query strikes before row 0). */
  function StrikeRow(i: Interrupt): nat {
    match i
    case QueryError(_) => 0
    case ScanError(_, j) => j
    case Cancel(_, j) => j
  }

  /**
   * One iteration of the extractor loop: query the page after the cursor and
   * emit its rows. `pos` rows of the worker's share `full` were emitted before.
   */
  method FetchChunk(src: seq<Record>, chunkSize: nat, maxID: int, w: Window, interrupt: Option<Interrupt>,
                    chunkCount: nat, lastID: int, sent: seq<Record>,
                    ghost minID: int, ghost full: seq<Record>, ghost pos: nat)
    returns (out: seq<Record>, n: nat, maxFetchedID: int, err: Option<ExtractError>)
    requires IdsAscending(src) && full == Eligible(src, minID, maxID, w)
    requires pos <= |full| && lastID == CursorAfter(full, minID, pos) && sent == full[..pos]
    ensures err.None? ==>
      && n == Min(chunkSize, |full| - pos) && out == full[..pos + n]
      && (n > 0 ==> maxFetchedID == CursorAfter(full, minID, pos + n))
      && interrupt != Some(QueryError(chunkCount))
      && forall j :: 0 <= j < n ==> !StrikesAtRow(interrupt, chunkCount, j)
    ensures err.Some? ==>
      && interrupt.Some? && err.value == CauseOf(interrupt.value)
      && interrupt.value.chunk == chunkCount
      && StrikeRow(interrupt.value) < Min(chunkSize, |full| - pos) + (if interrupt.value.QueryError? then 1 else 0)
      && out == full[..pos + StrikeRow(interrupt.value)]
  {
    hide Select;
    hide IdsAscending;
    if interrupt == Some(QueryError(chunkCount)) {
      return sent, 0, 0, Some(QueryFailed);
    }
    var rows := QueryPage(src, lastID, maxID, w, chunkSize, minID, pos);
    var count;
    n := 0;
    out, count, maxFetchedID, err := SendRows(rows, chunkCount, interrupt, sent);
    if err.Some? {
      PrefixExtend(full, pos, interrupt.value.row, |rows|);
      return;
    }
    PrefixExtend(full, pos, |rows|, |rows|);
    n := |rows|;
    if n > 0 {
      assert rows[n - 1] == full[pos + n - 1];
    }
  }

  /**
   * The extractor loop. The cursor starts at `minID - 1`; each page is emitted
   * row by row in id order and the cursor moves to its last id; the first
   * empty page ends the run.
   */
  method Extractor(src: seq<Record>, chunkSize: nat, minID: int, maxID: int, w: Window,
                   interrupt: Option<Interrupt>)
    returns (out: seq<Record>, err: Option<ExtractError>)
    requires IdsAscending(src)
    // ascending, exactly-once emission: always a prefix of the rows the worker is responsible for
    ensures |out| <= |Eligible(src, minID, maxID, w)| && out == Eligible(src, minID, maxID, w)[..|out|]
    // normal exit: the whole range was covered
    ensures err.None? ==> out == (if chunkSize == 0 then [] else Eligible(src, minID, maxID, w))
    // an error comes only from the interrupt, after the rows before it were emitted
    ensures err.Some? ==>
      && interrupt.Some? && err.value == CauseOf(interrupt.value)
      && out == Eligible(src, minID, maxID, w)[..Min(RowsBefore(interrupt.value, chunkSize),
                                                     |Eligible(src, minID, maxID, w)|)]
    // the run fails exactly when it gets as far as the interrupt
    ensures err.Some? <==> interrupt.Some? && Reached(interrupt.value, chunkSize, |Eligible(src, minID, maxID, w)|)
  {
    ghost var full := Eligible(src, minID, maxID, w);
    // the loop needs only that `full` is the share, not how the share is computed
    hide Select;
    hide IdsAscending;
    var lastID := minID - 1;
    var chunkCount: nat := 0;
    ghost var pos: nat := 0;
    out := [];
    err := None;
    while true
      invariant pos <= |full| && lastID == CursorAfter(full, minID, pos)
      invariant out == full[..pos]
      invariant pos == Min(FullPages(chunkCount, chunkSize), |full|)
      invariant chunkCount > 0 ==> chunkSize > 0 && FullPages(chunkCount - 1, chunkSize) < |full|
      invariant ClearBefore(interrupt, chunkCount, chunkSize, |full|)
      decreases |full| - pos
    {
      var n, maxFetchedID;
      out, n, maxFetchedID, err := ChunkStep(src, chunkSize, maxID, w, interrupt, chunkCount, lastID, out,
                                             minID, full, pos);
      if err.Some? || n == 0 {
        return;
      }
      lastID := maxFetchedID;
      chunkCount := chunkCount + 1;
      pos := pos + n;
    }
  }

  /**
   * The body of the extractor loop for chunk `chunkCount`, with what it means
   * for the whole run: a stop is the interrupt the run reached, an empty page
   * is the end of the share with no interrupt reached, and a non-empty page
   * moves the cursor one chunk further.
   */
  method ChunkStep(src: seq<Record>, chunkSize: nat, maxID: int, w: Window, interrupt: Option<Interrupt>,
                   chunkCount: nat, lastID: int, sent: seq<Record>,
                   ghost minID: int, ghost full: seq<Record>, ghost pos: nat)
    returns (out: seq<Record>, n: nat, maxFetchedID: int, err: Option<ExtractError>)
    requires IdsAscending(src) && full == Eligible(src, minID, maxID, w)
    requires pos <= |full| && lastID == CursorAfter(full, minID, pos) && sent == full[..pos]
    requires pos == Min(FullPages(chunkCount, chunkSize), |full|)
    requires chunkCount > 0 ==> chunkSize > 0 && FullPages(chunkCount - 1, chunkSize) < |full|
    requires ClearBefore(interrupt, chunkCount, chunkSize, |full|)
    ensures err.Some? ==>
      && interrupt.Some? && err.value == CauseOf(interrupt.value)
      && Reached(interrupt.value, chunkSize, |full|)
      && out == full[..Min(RowsBefore(interrupt.value, chunkSize), |full|)]
    ensures err.None? && n == 0 ==>
      && out == (if chunkSize == 0 then [] else full)
      && (interrupt.Some? ==> !Reached(interrupt.value, chunkSize, |full|))
    ensures err.None? && n > 0 ==>
      && pos + n <= |full| && out == full[..pos + n]
      && maxFetchedID == CursorAfter(full, minID, pos + n)
      && pos + n == Min(FullPages(chunkCount + 1, chunkSize), |full|)
      && chunkSize > 0 && FullPages(chunkCount, chunkSize) < |full|
      && ClearBefore(interrupt, chunkCount + 1, chunkSize, |full|)
  {
    out, n, maxFetchedID, err := FetchChunk(src, chunkSize, maxID, w, interrupt, chunkCount, lastID, sent,
                                            minID, full, pos);
    // the counting is done by the three lemmas below
    hide *;
    if err.Some? {
      StopIsReached(interrupt.value, chunkCount, chunkSize, |full|, pos);
    } else if n == 0 {
      EndIsClear(interrupt, chunkCount, chunkSize, |full|, pos);
    } else {
      NextIsClear(interrupt, chunkCount, chunkSize, |full|, pos, n);
    }
  }

  /**
   * Whether a run over a share of `total` rows gets as far as the interrupt:
   * the query of chunk `c` is issued when `c` is the first chunk or chunk
   * `c - 1` was not empty, and row `j` of chunk `c` exists when the page has it.
   */
  predicate Reached(i: Interrupt, chunkSize: nat, total: nat) {
    match i
    case QueryError(c) => c == 0 || (chunkSize > 0 && FullPages(c - 1, chunkSize) < total)
    case ScanError(c, j) => j < chunkSize && FullPages(c, chunkSize) + j < total
    case Cancel(c, j) => j < chunkSize && FullPages(c, chunkSize) + j < total
  }

  /** No interrupt located in a chunk before `chunkCount` is one the run reaches. */
  predicate ClearBefore(interrupt: Option<Interrupt>, chunkCount: nat, chunkSize: nat, total: nat) {
    interrupt.Some? && interrupt.value.chunk < chunkCount ==> !Reached(interrupt.value, chunkSize, total)
  }

  lemma {:induction false} FullPagesMonotone(a: nat, b: nat, chunkSize: nat)
    requires a <= b
    ensures FullPages(a, chunkSize) <= FullPages(b, chunkSize)
    decreases b
  {
    if a < b {
      FullPagesMonotone(a, b - 1, chunkSize);
    }
  }

  lemma {:induction false} FullPagesZero(c: nat)
    ensures FullPages(c, 0) == 0
  {
    if c > 0 {
      FullPagesZero(c - 1);
    }
  }

  /** An interrupt that stops chunk `c` is one the run reaches. */
  lemma StopIsReached(i: Interrupt, c: nat, chunkSize: nat, total: nat, pos: nat)
    requires pos == Min(FullPages(c, chunkSize), total)
    requires c > 0 ==> chunkSize > 0 && FullPages(c - 1, chunkSize) < total
    requires i.chunk == c && StrikeRow(i) < Min(chunkSize, total - pos) + (if i.QueryError? then 1 else 0)
    ensures Reached(i, chunkSize, total)
    ensures pos + StrikeRow(i) == Min(RowsBefore(i, chunkSize), total)
  {
  }

  /** An empty chunk `c` ends the run before any interrupt it has not yet met. */
  lemma EndIsClear(interrupt: Option<Interrupt>, c: nat, chunkSize: nat, total: nat, pos: nat)
    requires pos == Min(FullPages(c, chunkSize), total) && Min(chunkSize, total - pos) == 0
    requires ClearBefore(interrupt, c, chunkSize, total) && interrupt != Some(QueryError(c))
    ensures interrupt.Some? ==> !Reached(interrupt.value, chunkSize, total)
    ensures chunkSize == 0 ==> pos == 0
    ensures chunkSize > 0 ==> pos == total
  {
    if chunkSize == 0 {
      FullPagesZero(c);
    }
    if interrupt.Some? && interrupt.value.chunk > c && chunkSize > 0 {
      var d := interrupt.value.chunk;
      FullPagesMonotone(c, d - 1, chunkSize);
      FullPagesMonotone(c, d, chunkSize);
    }
  }

  /** A non-empty chunk `c` that went through extends the clear prefix to chunk `c + 1`. */
  lemma NextIsClear(interrupt: Option<Interrupt>, c: nat, chunkSize: nat, total: nat, pos: nat, n: nat)
    requires pos == Min(FullPages(c, chunkSize), total) && n == Min(chunkSize, total - pos) && n > 0
    requires ClearBefore(interrupt, c, chunkSize, total) && interrupt != Some(QueryError(c))
    requires forall j :: 0 <= j < n ==> !StrikesAtRow(interrupt, c, j)
    ensures ClearBefore(interrupt, c + 1, chunkSize, total)
    ensures chunkSize > 0 && FullPages(c, chunkSize) < total
    ensures pos + n == Min(FullPages(c + 1, chunkSize), total)
  {
    if interrupt.Some? && interrupt.value.chunk == c && !interrupt.value.QueryError? {
      var j := interrupt.value.row;
      assert !StrikesAtRow(interrupt, c, j) ==> j >= n;
    }
  }
}
