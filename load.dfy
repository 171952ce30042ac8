/**
 * `LoaderBulkUpsert` of the worker command: records are buffered, every full
 * buffer of `bulkSize` records is written with one multi-row
 * INSERT ... ON DUPLICATE KEY UPDATE inside a transaction, and whatever is
 * left is flushed once more on exit. The target table is a map from its
 * unique key (date, timestamp, device_type, event_type) to `message`; the
 * database's answer to each transaction step is an input (`TxFault`).
 */
module Load {
  import opened Wrappers
  import opened EtlTypes
  import Text
  import Transform

  // ----- statement and arguments -----

  /** A value bound to a placeholder: `database/sql` receives `time.Time` and `string` values. */
  datatype Arg = TimeArg(t: Instant) | TextArg(s: string)

  /** The five columns written for one record; the source's `ID` is not among them. */
  datatype Row = Row(date: Instant, timestamp: Instant, deviceType: string, eventType: string, message: string)

  function RowOf(r: Record): Row {
    Row(r.date, r.timestamp, r.deviceType, r.eventType, r.message)
  }

  function RowsOf(rs: seq<Record>): (rows: seq<Row>)
    ensures |rows| == |rs|
    ensures forall i :: 0 <= i < |rs| ==> rows[i] == RowOf(rs[i])
  {
    seq(|rs|, i requires 0 <= i < |rs| => RowOf(rs[i]))
  }

  /** The arguments one record contributes, in column order. */
  function ArgsOf(r: Record): seq<Arg> {
    [TimeArg(r.date), TimeArg(r.timestamp), TextArg(r.deviceType), TextArg(r.eventType), TextArg(r.message)]
  }

  /** The argument list of a batch: the records' arguments one after the other. */
  function FlatArgs(rs: seq<Record>): (args: seq<Arg>)
    ensures |args| == 5 * |rs|
  {
    if rs == [] then [] else ArgsOf(rs[0]) + FlatArgs(rs[1..])
  }

  /** How the database binds an argument list to rows: five arguments per `(?, ?, ?, ?, ?)` group. */
  function DecodeRows(args: seq<Arg>): (r: Option<seq<Row>>)
    ensures r.Some? ==> |args| == 5 * |r.value|
    decreases |args|
  {
    if |args| == 0 then Some([])
    else if |args| < 5 then None
    else if args[0].TimeArg? && args[1].TimeArg? && args[2].TextArg? && args[3].TextArg? && args[4].TextArg? then
      match DecodeRows(args[5..])
      case None => None
      case Some(rest) => Some([Row(args[0].t, args[1].t, args[2].s, args[3].s, args[4].s)] + rest)
    else None
  }

  lemma {:induction false} FlatArgsAppend(a: seq<Record>, b: seq<Record>)
    ensures FlatArgs(a + b) == FlatArgs(a) + FlatArgs(b)
    decreases |a|
  {
    if a == [] {
      assert a + b == b;
    } else {
      assert (a + b)[0] == a[0] && (a + b)[1..] == a[1..] + b;
      FlatArgsAppend(a[1..], b);
    }
  }

  /** Decoding consumes one record's five arguments at a time. */
  lemma DecodeStep(r: Record, rest: seq<Arg>)
    ensures DecodeRows(ArgsOf(r) + rest) ==
      match DecodeRows(rest)
      case None => None
      case Some(rows) => Some([RowOf(r)] + rows)
  {
    var a := ArgsOf(r) + rest;
    assert a[5..] == rest;
    assert a[0] == TimeArg(r.date) && a[1] == TimeArg(r.timestamp);
    assert a[2] == TextArg(r.deviceType) && a[3] == TextArg(r.eventType) && a[4] == TextArg(r.message);
  }

  /** The argument list decodes back to exactly the batch's rows, in order. */
  lemma {:induction false} ArgsRoundTrip(rs: seq<Record>)
    ensures DecodeRows(FlatArgs(rs)) == Some(RowsOf(rs))
    decreases |rs|
  {
    if rs != [] {
      ArgsRoundTrip(rs[1..]);
      DecodeStep(rs[0], FlatArgs(rs[1..]));
      assert RowsOf(rs) == [RowOf(rs[0])] + RowsOf(rs[1..]);
    }
  }

  /** The record's `ID` is never sent: batches with the same rows have the same arguments. */
  lemma {:induction false} ArgsIgnoreId(a: seq<Record>, b: seq<Record>)
    requires RowsOf(a) == RowsOf(b)
    ensures FlatArgs(a) == FlatArgs(b)
    decreases |a|
  {
    assert |a| == |RowsOf(a)| == |b|;
    if a != [] {
      assert RowOf(a[0]) == RowsOf(a)[0] == RowOf(b[0]);
      assert RowsOf(a[1..]) == RowsOf(b[1..]) by {
        forall i | 0 <= i < |a| - 1 ensures RowsOf(a[1..])[i] == RowsOf(b[1..])[i] {
          assert RowsOf(a)[i + 1] == RowsOf(b)[i + 1];
        }
      }
      ArgsIgnoreId(a[1..], b[1..]);
    }
  }

  /** One `VALUES` group: a placeholder for each of the five columns. */
  const Placeholder: string := "(?, ?, ?, ?, ?)"

  // the statement template, in pieces short enough to be inspected character by character
  const HeadInsert: string := "\n\t\t\tINSERT INTO records"
  const HeadColumns1: string := " (date, timestamp, "
  const HeadColumns2: string := "device_type, event_type, "
  const HeadValues: string := "message)\n\t\t\tVALUES "
  const TailDuplicate: string := "\n\t\t\tON DUPLICATE KEY "
  const TailUpdate: string := "UPDATE\n\t\t\t\tmessage = "
  const TailValues: string := "VALUES(message)\n\t\t"
  const UpsertHead: string := HeadInsert + HeadColumns1 + HeadColumns2 + HeadValues
  const UpsertTail: string := TailDuplicate + TailUpdate + TailValues

  /** The statement text for the given `VALUES` groups. */
  function UpsertQuery(values: seq<string>): (q: string)
    ensures |q| >= |UpsertHead| + |UpsertTail|
    ensures q[..|UpsertHead|] == UpsertHead && q[|q| - |UpsertTail|..] == UpsertTail
  {
    UpsertHead + Text.Join(values, ",") + UpsertTail
  }

  /** One placeholder group per record. */
  function Placeholders(n: nat): (v: seq<string>)
    ensures |v| == n && forall i :: 0 <= i < n ==> v[i] == Placeholder
  {
    seq(n, _ => Placeholder)
  }

  lemma HeadInsertNoPlaceholder() ensures '?' !in HeadInsert {}
  lemma HeadColumns1NoPlaceholder() ensures '?' !in HeadColumns1 {}
  lemma HeadColumns2NoPlaceholder() ensures '?' !in HeadColumns2 {}
  lemma HeadValuesNoPlaceholder() ensures '?' !in HeadValues {}
  lemma TailDuplicateNoPlaceholder() ensures '?' !in TailDuplicate {}
  lemma TailUpdateNoPlaceholder() ensures '?' !in TailUpdate {}
  lemma TailValuesNoPlaceholder() ensures '?' !in TailValues {}

  /** The fixed text before the `VALUES` groups contains no placeholder. */
  lemma HeadHasNoPlaceholder()
    ensures multiset(UpsertHead)['?'] == 0
  {
    HeadInsertNoPlaceholder();
    HeadColumns1NoPlaceholder();
    HeadColumns2NoPlaceholder();
    HeadValuesNoPlaceholder();
    assert '?' !in UpsertHead;
  }

  /** The fixed text after the `VALUES` groups contains no placeholder. */
  lemma TailHasNoPlaceholder()
    ensures multiset(UpsertTail)['?'] == 0
  {
    TailDuplicateNoPlaceholder();
    TailUpdateNoPlaceholder();
    TailValuesNoPlaceholder();
    assert '?' !in UpsertTail;
  }

  lemma PlaceholderHasFive() ensures multiset(Placeholder)['?'] == 5 {}

  /** The statement of a non-empty batch has exactly one placeholder per argument. */
  lemma PlaceholderCount(n: nat)
    requires n > 0
    ensures multiset(UpsertQuery(Placeholders(n)))['?'] == 5 * n
  {
    // only the placeholder counts of the pieces matter, not their text
    hide UpsertHead, UpsertTail, Placeholder;
    PlaceholderHasFive();
    HeadHasNoPlaceholder();
    TailHasNoPlaceholder();
    var v := Placeholders(n);
    assert multiset(",")['?'] == 0;
    Text.JoinCount(v, ",", '?', 5);
    var j := Text.Join(v, ",");
    assert multiset(UpsertHead + j + UpsertTail) == multiset(UpsertHead) + multiset(j) + multiset(UpsertTail);
  }

  /** The `values`/`args` loop of `flush`. */
  method BuildStatement(recs: seq<Record>) returns (query: string, args: seq<Arg>)
    ensures args == FlatArgs(recs)
    ensures query == UpsertQuery(Placeholders(|recs|))
  {
    var values: seq<string> := [];
    args := [];
    var i := 0;
    while i < |recs|
      invariant 0 <= i <= |recs|
      invariant values == Placeholders(i)
      invariant args == FlatArgs(recs[..i])
    {
      var r := recs[i];
      values := values + [Placeholder];
      args := args + [TimeArg(r.date), TimeArg(r.timestamp), TextArg(r.deviceType), TextArg(r.eventType), TextArg(r.message)];
      FlatArgsAppend(recs[..i], [r]);
      assert recs[..i + 1] == recs[..i] + [r];
      assert FlatArgs([r]) == ArgsOf(r);
      i := i + 1;
    }
    assert recs[..i] == recs;
    query := UpsertQuery(values);
  }

  // ----- the target table -----

  /** The target table's unique key. */
  datatype Key = Key(date: Instant, timestamp: Instant, deviceType: string, eventType: string)

  /** The target table: the `message` stored under each key. */
  type Table = map<Key, string>

  function KeyOf(row: Row): Key {
    Key(row.date, row.timestamp, row.deviceType, row.eventType)
  }

  /**
   * The multi-row INSERT ... ON DUPLICATE KEY UPDATE message = VALUES(message):
   * rows are applied in order; a new key is inserted, an existing key gets the
   * row's message and keeps its key columns.
   */
  function Upsert(t: Table, rows: seq<Row>): Table
    decreases |rows|
  {
    if rows == [] then t else Upsert(t[KeyOf(rows[0]) := rows[0].message], rows[1..])
  }

  /** The keys a batch of rows carries. */
  function KeysOf(rows: seq<Row>): set<Key> {
    set i | 0 <= i < |rows| :: KeyOf(rows[i])
  }

  /** No key is ever deleted, and the keys an upsert adds are exactly the rows' keys. */
  lemma {:induction false} UpsertKeys(t: Table, rows: seq<Row>)
    ensures Upsert(t, rows).Keys == t.Keys + KeysOf(rows)
    decreases |rows|
  {
    if rows != [] {
      UpsertKeys(t[KeyOf(rows[0]) := rows[0].message], rows[1..]);
      assert KeysOf(rows) == {KeyOf(rows[0])} + KeysOf(rows[1..]) by {
        forall k | k in KeysOf(rows) ensures k in {KeyOf(rows[0])} + KeysOf(rows[1..]) {
          var i :| 0 <= i < |rows| && KeyOf(rows[i]) == k;
          if i > 0 {
            assert rows[1..][i - 1] == rows[i];
          }
        }
        forall k | k in KeysOf(rows[1..]) ensures k in KeysOf(rows) {
          var i :| 0 <= i < |rows[1..]| && KeyOf(rows[1..][i]) == k;
          assert rows[1..][i] == rows[i + 1];
        }
      }
    }
  }

  /** Upserting overrides the old table with what the rows alone would produce. */
  lemma {:induction false} UpsertAsUnion(t: Table, rows: seq<Row>)
    ensures Upsert(t, rows) == t + Upsert(map[], rows)
    decreases |rows|
  {
    if rows != [] {
      var k := KeyOf(rows[0]);
      var v := rows[0].message;
      UpsertAsUnion(t[k := v], rows[1..]);
      UpsertAsUnion(map[k := v], rows[1..]);
      var u := Upsert(map[], rows[1..]);
      assert t[k := v] + u == t + (map[k := v] + u);
    }
  }

  /** Applying the same batch twice leaves the table as applying it once. */
  lemma UpsertIdempotent(t: Table, rows: seq<Row>)
    ensures Upsert(Upsert(t, rows), rows) == Upsert(t, rows)
  {
    var u := Upsert(map[], rows);
    UpsertAsUnion(t, rows);
    UpsertAsUnion(t + u, rows);
    assert (t + u) + u == t + u;
  }

  /** Two batches in a row are one batch of both. */
  lemma {:induction false} UpsertAppend(t: Table, a: seq<Row>, b: seq<Row>)
    ensures Upsert(t, a + b) == Upsert(Upsert(t, a), b)
    decreases |a|
  {
    if a == [] {
      assert a + b == b;
    } else {
      assert (a + b)[0] == a[0] && (a + b)[1..] == a[1..] + b;
      UpsertAppend(t[KeyOf(a[0]) := a[0].message], a[1..], b);
    }
  }

  /** The last row with a given key decides that key's message. */
  lemma {:induction false} UpsertLastWins(t: Table, rows: seq<Row>, i: nat)
    requires i < |rows|
    requires forall j :: i < j < |rows| ==> KeyOf(rows[j]) != KeyOf(rows[i])
    ensures KeyOf(rows[i]) in Upsert(t, rows) && Upsert(t, rows)[KeyOf(rows[i])] == rows[i].message
    decreases |rows|
  {
    var k := KeyOf(rows[i]);
    if i == 0 {
      UpsertUntouched(t[k := rows[0].message], rows[1..], k);
    } else {
      forall j | i - 1 < j < |rows[1..]| ensures KeyOf(rows[1..][j]) != KeyOf(rows[1..][i - 1]) {
        assert rows[1..][j] == rows[j + 1];
      }
      UpsertLastWins(t[KeyOf(rows[0]) := rows[0].message], rows[1..], i - 1);
    }
  }

  /** A key no row carries keeps its entry (or its absence). */
  lemma {:induction false} UpsertUntouched(t: Table, rows: seq<Row>, k: Key)
    requires forall j :: 0 <= j < |rows| ==> KeyOf(rows[j]) != k
    ensures k in Upsert(t, rows) <==> k in t
    ensures k in t ==> Upsert(t, rows)[k] == t[k]
    decreases |rows|
  {
    if rows != [] {
      assert KeyOf(rows[0]) != k;
      forall j | 0 <= j < |rows[1..]| ensures KeyOf(rows[1..][j]) != k {
        assert rows[1..][j] == rows[j + 1];
      }
      UpsertUntouched(t[KeyOf(rows[0]) := rows[0].message], rows[1..], k);
    }
  }

  /**
   * `tx.ExecContext(ctx, query, args...)` as the database performs it: the
   * driver rejects a placeholder/argument count mismatch, otherwise the rows
   * bound to the placeholders are upserted.
   */
  function Execute(t: Table, query: string, args: seq<Arg>): Option<Table> {
    if multiset(query)['?'] != |args| then None
    else match DecodeRows(args)
      case None => None
      case Some(rows) => Some(Upsert(t, rows))
  }

  /**
   * A statement the database accepts has one placeholder per argument and
   * five arguments per row, and its upsert keeps every key of the table.
   */
  lemma ExecuteAccepts(t: Table, query: string, args: seq<Arg>)
    ensures var r := Execute(t, query, args);
      r.Some? ==> multiset(query)['?'] == |args| && |args| % 5 == 0 && t.Keys <= r.value.Keys
  {
    if Execute(t, query, args).Some? {
      UpsertKeys(t, DecodeRows(args).value);
    }
  }

  /** The statement and arguments `flush` builds for a non-empty batch upsert exactly its rows. */
  lemma BatchStatementExecutes(t: Table, recs: seq<Record>)
    requires recs != []
    ensures Execute(t, UpsertQuery(Placeholders(|recs|)), FlatArgs(recs)) == Some(Upsert(t, RowsOf(recs)))
  {
    PlaceholderCount(|recs|);
    ArgsRoundTrip(recs);
  }

  // ----- flush -----

  /** What the database answers to the transaction of one flush. */
  datatype TxFault = NoFault | BeginFails | ExecFails | CommitFails

  datatype LoadError = BeginTxError | BulkUpsertError | CommitError

  /**
   * The `flush` closure. An empty batch returns nil without touching the
   * database; otherwise the statement is executed in a transaction that is
   * rolled back if the statement fails. A failed commit leaves the table as it was.
   */
  method Flush(table: Table, recs: seq<Record>, fault: TxFault) returns (table': Table, err: Option<LoadError>)
    ensures recs == [] ==> table' == table && err.None?
    ensures recs != [] ==>
      && (fault == BeginFails ==> err == Some(BeginTxError))
      && (fault == ExecFails ==> err == Some(BulkUpsertError))
      && (fault == CommitFails ==> err == Some(CommitError))
      && (fault == NoFault ==> err.None?)
    ensures err.None? ==> table' == Upsert(table, RowsOf(recs))
    ensures err.Some? ==> table' == table
  {
    if |recs| == 0 {
      return table, None;
    }
    // the statement and the table are used through `BatchStatementExecutes`, not unfolded
    hide *;
    var query, args := BuildStatement(recs);
    if fault == BeginFails {
      return table, Some(BeginTxError);
    }
    BatchStatementExecutes(table, recs);
    var staged := Execute(table, query, args);
    if fault == ExecFails {
      // tx.Rollback(): the staged changes are discarded
      return table, Some(BulkUpsertError);
    }
    if fault == CommitFails {
      return table, Some(CommitError);
    }
    table' := staged.value;
    err := None;
  }

  // ----- the buffering loop -----

  /** The number of records at which the buffer is flushed: `len(buffer) >= bulkSize` after an append. */
  function Width(bulkSize: int): (w: nat)
    ensures w >= 1 && (bulkSize >= 1 ==> w == bulkSize)
  {
    if bulkSize < 1 then 1 else bulkSize
  }

  /** The records of a sequence of batches, in order. */
  function Flatten(bs: seq<seq<Record>>): seq<Record> {
    if bs == [] then [] else Flatten(bs[..|bs| - 1]) + bs[|bs| - 1]
  }

  /** The table after the flushes of `bs`, where flush `b` meets `outcome(b)`. */
  function Applied(t: Table, bs: seq<seq<Record>>, outcome: nat -> TxFault): Table {
    if bs == [] then t
    else
      var prev := Applied(t, bs[..|bs| - 1], outcome);
      if outcome(|bs| - 1) == NoFault then Upsert(prev, RowsOf(bs[|bs| - 1])) else prev
  }

  /** True when the loop head sees the context cancelled before the input is closed. */
  predicate Cancelled(received: nat, cancelAt: Option<nat>) {
    cancelAt.Some? && cancelAt.value <= received
  }

  /**
   * What each flush meets: the in-loop flushes meet `faults`; the deferred
   * final flush after a cancellation fails at `BeginTx`, because the context is done.
   */
  function Outcomes(faults: nat -> TxFault, inLoop: nat, cancelled: bool): nat -> TxFault {
    (b: nat) => if b == inLoop && cancelled then BeginFails else faults(b)
  }

  /** The reference batching of `s` into full batches of `w` records and a final shorter one. */
  function Batches(s: seq<Record>, w: nat): seq<seq<Record>>
    requires w >= 1
    decreases |s|
  {
    if |s| < w then (if s == [] then [] else [s])
    else [s[..w]] + Batches(s[w..], w)
  }

  /**
   * One received record: append it to the buffer and, once the buffer holds
   * `bulkSize` records, flush it (logging any error) and reset it.
   */
  method Receive(t: Table, batches: seq<seq<Record>>, buffer: seq<Record>, r: Record, bulkSize: int,
                 faults: nat -> TxFault, ghost table: Table)
    returns (t': Table, batches': seq<seq<Record>>, buffer': seq<Record>)
    requires |buffer| < Width(bulkSize)
    requires t == Applied(table, batches, faults)
    ensures Flatten(batches') + buffer' == Flatten(batches) + buffer + [r]
    ensures batches' == batches || (batches' == batches + [buffer + [r]] && |buffer + [r]| == Width(bulkSize))
    ensures |buffer'| < Width(bulkSize)
    ensures t' == Applied(table, batches', faults)
  {
    t', batches', buffer' := t, batches, buffer + [r];
    if |buffer'| >= bulkSize {
      var err;
      t', err := Flush(t, buffer', faults(|batches|));
      batches' := batches + [buffer'];
      assert batches'[..|batches'| - 1] == batches;
      buffer' := [];
    }
  }

  /**
   * The buffering loop with its deferred final flush. Flush errors are only
   * logged; the buffer is reset whether or not its flush succeeded.
   */
  method LoaderBulkUpsert(table: Table, input: seq<Record>, bulkSize: int, cancelAt: Option<nat>,
                          faults: nat -> TxFault)
    returns (table': Table, batches: seq<seq<Record>>, inLoop: nat)
    // `make([]Record, 0, bulkSize)` panics on a negative capacity
    requires bulkSize >= 0
    // every received record is handed to exactly one flush, in order
    ensures Flatten(batches) == input[..Transform.Handled(|input|, cancelAt)]
    // in-loop flushes get exactly `Width(bulkSize)` records (`bulkSize` when positive, one when it is 0),
    // the final flush a non-empty remainder
    ensures inLoop <= |batches| <= inLoop + 1
    ensures forall j :: 0 <= j < inLoop ==> |batches[j]| == Width(bulkSize)
    ensures |batches| == inLoop + 1 ==> 0 < |batches[inLoop]| < Width(bulkSize)
    ensures batches == Batches(input[..Transform.Handled(|input|, cancelAt)], Width(bulkSize))
    // the table holds exactly the batches whose transaction went through
    ensures table' == Applied(table, batches, Outcomes(faults, inLoop, Cancelled(|input|, cancelAt)))
  {
    var w := Width(bulkSize);
    var buffer: seq<Record> := [];
    batches := [];
    table' := table;
    var i := 0;
    var cancelled := false;
    while true
      invariant 0 <= i <= |input|
      invariant cancelAt.Some? ==> i <= cancelAt.value
      invariant !cancelled
      invariant Flatten(batches) + buffer == input[..i]
      invariant forall j :: 0 <= j < |batches| ==> |batches[j]| == w
      invariant |buffer| < w
      invariant table' == Applied(table, batches, faults)
      decreases |input| - i
    {
      if cancelAt == Some(i) {
        // case <-ctx.Done()
        cancelled := true;
        break;
      }
      if i == |input| {
        // the channel is closed and drained
        break;
      }
      assert input[..i + 1] == input[..i] + [input[i]];
      table', batches, buffer := Receive(table', batches, buffer, input[i], bulkSize, faults, table);
      i := i + 1;
    }
    inLoop := |batches|;
    assert i == Transform.Handled(|input|, cancelAt);
    assert cancelled == Cancelled(|input|, cancelAt);
    table', batches := FinalFlush(table', batches, buffer, faults, cancelled, table);
    BatchesUnique(batches, input[..i], w, inLoop);
  }

  /**
   * The deferred flush of the partial buffer on exit. After cancellation its
   * transaction cannot begin, because the context is already done.
   */
  method FinalFlush(t: Table, batches: seq<seq<Record>>, buffer: seq<Record>, faults: nat -> TxFault,
                    cancelled: bool, ghost table: Table)
    returns (t': Table, batches': seq<seq<Record>>)
    requires t == Applied(table, batches, faults)
    ensures batches' == if buffer == [] then batches else batches + [buffer]
    ensures Flatten(batches') == Flatten(batches) + buffer
    ensures t' == Applied(table, batches', Outcomes(faults, |batches|, cancelled))
  {
    var outcome := Outcomes(faults, |batches|, cancelled);
    AppliedAgree(table, batches, faults, outcome);
    var err;
    t', err := Flush(t, buffer, outcome(|batches|));
    batches' := batches;
    if buffer != [] {
      batches' := batches + [buffer];
      assert batches'[..|batches'| - 1] == batches;
    } else {
      assert Flatten(batches) + buffer == Flatten(batches);
    }
  }

  /** `Applied` only looks at the outcomes of the batches it is given. */
  lemma {:induction false} AppliedAgree(t: Table, bs: seq<seq<Record>>, f: nat -> TxFault, g: nat -> TxFault)
    requires forall b: nat :: b < |bs| ==> f(b) == g(b)
    ensures Applied(t, bs, f) == Applied(t, bs, g)
    decreases |bs|
  {
    if bs != [] {
      AppliedAgree(t, bs[..|bs| - 1], f, g);
    }
  }

  lemma {:induction false} FlattenCons(b: seq<Record>, bs: seq<seq<Record>>)
    ensures Flatten([b] + bs) == b + Flatten(bs)
    decreases |bs|
  {
    if bs == [] {
      assert [b] + bs == [b];
      assert [b][..0] == [];
    } else {
      var n := |bs| - 1;
      assert ([b] + bs)[..|[b] + bs| - 1] == [b] + bs[..n];
      FlattenCons(b, bs[..n]);
    }
  }

  /**
   * The shape the loader produces (full batches, then at most one shorter
   * non-empty batch) determines the batches: they are `Batches`.
   */
  lemma {:induction false} BatchesUnique(bs: seq<seq<Record>>, s: seq<Record>, w: nat, full: nat)
    requires w >= 1 && Flatten(bs) == s
    requires full <= |bs| <= full + 1
    requires forall j :: 0 <= j < full ==> |bs[j]| == w
    requires |bs| == full + 1 ==> 0 < |bs[full]| < w
    ensures bs == Batches(s, w)
    decreases |bs|
  {
    if bs != [] {
      FlattenCons(bs[0], bs[1..]);
      assert [bs[0]] + bs[1..] == bs;
      var rest := Flatten(bs[1..]);
      assert s == bs[0] + rest;
      if full == 0 {
        assert |bs| == 1 && bs[1..] == [];
        assert s == bs[0];
      } else {
        assert |bs[0]| == w;
        assert s[..w] == bs[0] && s[w..] == rest;
        forall j | 0 <= j < full - 1 ensures |bs[1..][j]| == w {
          assert bs[1..][j] == bs[j + 1];
        }
        BatchesUnique(bs[1..], rest, w, full - 1);
        if |s| < w {
          assert false;
        }
      }
    }
  }

  /** With every transaction going through, batching does not change the result: one upsert of everything. */
  lemma {:induction false} AllAppliedIsOneUpsert(t: Table, bs: seq<seq<Record>>, outcome: nat -> TxFault)
    requires forall b: nat :: b < |bs| ==> outcome(b) == NoFault
    ensures Applied(t, bs, outcome) == Upsert(t, RowsOf(Flatten(bs)))
    decreases |bs|
  {
    if bs != [] {
      var init := bs[..|bs| - 1];
      var last := bs[|bs| - 1];
      AllAppliedIsOneUpsert(t, init, outcome);
      UpsertAppend(t, RowsOf(Flatten(init)), RowsOf(last));
      assert RowsOf(Flatten(init) + last) == RowsOf(Flatten(init)) + RowsOf(last);
    }
  }

  /** 25000 records with `bulkSize` 10000 are written as 10000, 10000 and 5000. */
  lemma TwentyFiveThousand(s: seq<Record>)
    requires |s| == 25000
    ensures var bs := Batches(s, Width(10000));
      |bs| == 3 && |bs[0]| == 10000 && |bs[1]| == 10000 && |bs[2]| == 5000
      && bs[0] + bs[1] + bs[2] == s
  {
    var s1 := s[10000..];
    var s2 := s1[10000..];
    assert Batches(s2, 10000) == [s2];
    assert Batches(s1, 10000) == [s1[..10000]] + [s2];
    assert s[..10000] + s1[..10000] + s2 == s;
  }
}
