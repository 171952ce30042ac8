/**
 * The serial command: pages of the id-ordered result set are read with
 * LIMIT/OFFSET, upper-cased in place and written with one literal INSERT
 * statement per page, until the first empty page. The result set of the
 * query is the input sequence; the target table is the sequence of rows
 * the run has inserted.
 */
module Serial {
  import opened Wrappers
  import opened EtlTypes
  import Text

  /** The serial command's record: the worker's record without `ID`. */
  datatype SerialRecord = SerialRecord(
    date: Instant,
    timestamp: Instant,
    deviceType: string,
    eventType: string,
    message: string)


  // ----- extract -----

  datatype SerialError = QueryError | ScanError | InsertError

  /** The rows `LIMIT chunkSize OFFSET offset` returns from the ordered result set. */
  function OffsetPage(src: seq<SerialRecord>, chunkSize: nat, offset: nat): (p: seq<SerialRecord>)
    ensures |p| == (if offset >= |src| then 0 else Min(chunkSize, |src| - offset))
    ensures forall i :: 0 <= i < |p| ==> p[i] == src[offset + i]
  {
    if offset >= |src| then [] else src[offset..offset + Min(chunkSize, |src| - offset)]
  }

  /**
   * `Extractor`: run the page query and scan its rows. A failing query
   * returns nil; a failing scan returns the rows scanned so far.
   */
  method Extractor(src: seq<SerialRecord>, chunkSize: nat, offset: nat, queryFails: bool, scanFailAt: Option<nat>)
    returns (records: seq<SerialRecord>, err: Option<SerialError>)
    ensures queryFails ==> records == [] && err == Some(QueryError)
    ensures !queryFails && scanFailAt.Some? && scanFailAt.value < |OffsetPage(src, chunkSize, offset)| ==>
      records == OffsetPage(src, chunkSize, offset)[..scanFailAt.value] && err == Some(ScanError)
    ensures !queryFails && (scanFailAt.None? || scanFailAt.value >= |OffsetPage(src, chunkSize, offset)|) ==>
      records == OffsetPage(src, chunkSize, offset) && err.None?
  {
    if queryFails {
      return [], Some(QueryError);
    }
    var rows := OffsetPage(src, chunkSize, offset);
    records := [];
    var j := 0;
    while j < |rows|
      invariant 0 <= j <= |rows|
      invariant records == rows[..j]
      invariant scanFailAt.Some? ==> j <= scanFailAt.value
    {
      if scanFailAt == Some(j) {
        return records, Some(ScanError);
      }
      records := records + [rows[j]];
      assert rows[..j + 1] == rows[..j] + [rows[j]];
      j := j + 1;
    }
    assert rows[..j] == rows;
    err := None;
  }

  // ----- transform -----

  /** A record with its message upper-cased and every other field kept. */
  function UpperRecord(r: SerialRecord): (u: SerialRecord)
    ensures u.date == r.date && u.timestamp == r.timestamp
    ensures u.deviceType == r.deviceType && u.eventType == r.eventType
    ensures |u.message| == |r.message|
    ensures forall i :: 0 <= i < |u.message| ==> u.message[i] == Text.UpperChar(r.message[i])
  {
    r.(message := Text.Upper(r.message))
  }

  function UpperAll(rs: seq<SerialRecord>): (us: seq<SerialRecord>)
    ensures |us| == |rs| && forall i :: 0 <= i < |rs| ==> us[i] == UpperRecord(rs[i])
  {
    seq(|rs|, i requires 0 <= i < |rs| => UpperRecord(rs[i]))
  }

  /** Upper-casing a page piece by piece upper-cases the whole. */
  lemma UpperAllAppend(a: seq<SerialRecord>, b: seq<SerialRecord>)
    ensures UpperAll(a + b) == UpperAll(a) + UpperAll(b)
  {
    assert forall i :: 0 <= i < |a + b| ==> UpperAll(a + b)[i] == (UpperAll(a) + UpperAll(b))[i];
  }

  /** Upper-casing twice is upper-casing once. */
  lemma UpperAllIdempotent(rs: seq<SerialRecord>)
    ensures UpperAll(UpperAll(rs)) == UpperAll(rs)
  {
    forall i | 0 <= i < |rs| ensures UpperRecord(UpperRecord(rs[i])) == UpperRecord(rs[i]) {
      Text.UpperIdempotent(rs[i].message);
    }
  }

  /** `Transformer`: upper-case every element's message in place. */
  method Transformer(a: array<SerialRecord>)
    modifies a
    ensures a[..] == UpperAll(old(a[..]))
  {
    var i := 0;
    while i < a.Length
      invariant 0 <= i <= a.Length
      invariant forall k :: 0 <= k < i ==> a[k] == UpperRecord(old(a[k]))
      invariant forall k :: i <= k < a.Length ==> a[k] == old(a[k])
    {
      a[i] := a[i].(message := Text.Upper(a[i].message));
      i := i + 1;
    }
  }

  // ----- load -----

  /** The layouts `"2006-01-02"` and `"2006-01-02 15:04:05"` the dates and timestamps are formatted with. */
  datatype Layout = Layout(date: Instant -> string, time: Instant -> string)

  /** The five values spliced into a record's tuple, in column order. */
  function Fields(r: SerialRecord, layout: Layout): (fs: seq<string>)
    ensures |fs| == 5
  {
    [layout.date(r.date), layout.time(r.timestamp), r.deviceType, r.eventType, r.message]
  }

  /** A value between single quotes, as `'%s'` splices it: unescaped. */
  function Quote(f: string): string {
    "'" + f + "'"
  }

  /** The tuple `('%s', '%s', '%s', '%s', '%s')` of one record. */
  function TupleText(r: SerialRecord, layout: Layout): (t: string)
    ensures |t| >= 2 && t[0] == '(' && t[|t| - 1] == ')'
    ensures forall k :: 0 <= k < 5 ==> |Fields(r, layout)[k]| + 2 <= |t|
  {
    var fs := Fields(r, layout);
    "(" + Quote(fs[0]) + ", " + Quote(fs[1]) + ", " + Quote(fs[2]) + ", " + Quote(fs[3]) + ", " + Quote(fs[4]) + ")"
  }

  const InsertPrefix: string := "INSERT INTO records (date, timestamp, device_type, event_type, message) VALUES "

  /** The tuples of a page, in input order. */
  function Tuples(rs: seq<SerialRecord>, layout: Layout): (ts: seq<string>)
    ensures |ts| == |rs| && forall i :: 0 <= i < |rs| ==> ts[i] == TupleText(rs[i], layout)
  {
    seq(|rs|, i requires 0 <= i < |rs| => TupleText(rs[i], layout))
  }

  /** The page's statement: the fixed INSERT head, then the tuples joined by commas. */
  function InsertStatement(rs: seq<SerialRecord>, layout: Layout): (q: string)
    ensures |q| >= |InsertPrefix| && q[..|InsertPrefix|] == InsertPrefix
    ensures rs == [] <==> q == InsertPrefix
  {
    InsertPrefix + Text.Join(Tuples(rs, layout), ",")
  }

  /**
   * `Loader`: no records means no statement; otherwise the statement is
   * executed once. The database reads it as `DecodeInsert` does: unless the
   * execution fails or the values it reads are not the page's own, the
   * page's rows are appended to the target.
   */
  method Loader(target: seq<SerialRecord>, records: seq<SerialRecord>, layout: Layout, execFails: bool)
    returns (target': seq<SerialRecord>, executed: Option<string>, err: Option<SerialError>)
    ensures records == [] ==> target' == target && executed.None? && err.None?
    ensures records != [] ==> executed == Some(InsertStatement(records, layout))
    ensures records != [] && (execFails || !AllPlain(records, layout)) ==>
      target' == target && err == Some(InsertError)
    ensures records != [] && !execFails && AllPlain(records, layout) ==>
      target' == target + records && err.None?
  {
    if |records| == 0 {
      return target, None, None;
    }
    var values: seq<string> := [];
    var i := 0;
    while i < |records|
      invariant 0 <= i <= |records|
      invariant values == Tuples(records[..i], layout)
    {
      var r := records[i];
      var v := "(" + Quote(layout.date(r.date)) + ", " + Quote(layout.time(r.timestamp)) + ", "
        + Quote(r.deviceType) + ", " + Quote(r.eventType) + ", " + Quote(r.message) + ")";
      values := values + [v];
      i := i + 1;
    }
    assert records[..i] == records;
    var query := InsertPrefix + Text.Join(values, ",");
    executed := Some(query);
    InsertRoundTrip(records, layout);
    if execFails || DecodeInsert(query) != Some(FieldsOf(records, layout)) {
      return target, executed, Some(InsertError);
    }
    target' := target + records;
    err := None;
  }

  // ----- reading the statement back -----

  /** A value the quoting survives: no quote that would end it and no backslash MySQL would treat as an escape. */
  predicate Plain(f: string) {
    '\'' !in f && '\\' !in f
  }

  /**
   * Reads a quoted value up to its closing quote, returning the value and
   * what follows the quote. A backslash is rejected.
   */
  function ReadQuoted(s: string): (r: Option<(string, string)>)
    ensures r.Some? ==> |r.value.1| < |s|
    decreases |s|
  {
    if s == [] then None
    else if s[0] == '\'' then Some(([], s[1..]))
    else if s[0] == '\\' then None
    else
      match ReadQuoted(s[1..])
      case None => None
      case Some((v, rest)) => Some(([s[0]] + v, rest))
  }

  /** Reads `n` quoted values separated by `, ` and closed by `)`. */
  function ParseFields(s: string, n: nat): (r: Option<(seq<string>, string)>)
    requires n >= 1
    ensures r.Some? ==> |r.value.1| < |s| && |r.value.0| == n
    decreases n
  {
    if |s| == 0 || s[0] != '\'' then None
    else
      match ReadQuoted(s[1..])
      case None => None
      case Some((v, rest)) =>
        if n == 1 then
          (if |rest| > 0 && rest[0] == ')' then Some(([v], rest[1..])) else None)
        else if |rest| >= 2 && rest[0] == ',' && rest[1] == ' ' then
          match ParseFields(rest[2..], n - 1)
          case None => None
          case Some((vs, rest')) => Some(([v] + vs, rest'))
        else None
  }

  /** Reads one parenthesised five-value tuple. */
  function ParseTuple(s: string): (r: Option<(seq<string>, string)>)
    ensures r.Some? ==> |r.value.1| < |s| && |r.value.0| == 5
  {
    if |s| > 0 && s[0] == '(' then ParseFields(s[1..], 5) else None
  }

  /** Reads comma-separated tuples up to the end of the text. */
  function ParseTuples(s: string): (r: Option<seq<seq<string>>>)
    ensures r.Some? ==> |r.value| >= 1 && forall i :: 0 <= i < |r.value| ==> |r.value[i]| == 5
    decreases |s|
  {
    match ParseTuple(s)
    case None => None
    case Some((t, rest)) =>
      if rest == [] then Some([t])
      else if rest[0] == ',' then
        match ParseTuples(rest[1..])
        case None => None
        case Some(ts) => Some([t] + ts)
      else None
  }

  /** How the database reads an INSERT statement: the fixed prefix, then the tuples' values. */
  function DecodeInsert(q: string): (r: Option<seq<seq<string>>>)
    ensures r.Some? ==> |q| > |InsertPrefix| && q[..|InsertPrefix|] == InsertPrefix
    ensures r.Some? ==> |r.value| >= 1 && forall i :: 0 <= i < |r.value| ==> |r.value[i]| == 5
  {
    if |q| >= |InsertPrefix| && q[..|InsertPrefix|] == InsertPrefix then ParseTuples(q[|InsertPrefix|..])
    else None
  }

  /** The quoted values of a page, record by record. */
  function FieldsOf(rs: seq<SerialRecord>, layout: Layout): (fss: seq<seq<string>>)
    ensures |fss| == |rs| && forall i :: 0 <= i < |rs| ==> fss[i] == Fields(rs[i], layout)
  {
    seq(|rs|, i requires 0 <= i < |rs| => Fields(rs[i], layout))
  }

  /** Every value spliced into the page's statement survives the quoting. */
  predicate AllPlain(rs: seq<SerialRecord>, layout: Layout) {
    forall i, k :: 0 <= i < |rs| && 0 <= k < 5 ==> Plain(Fields(rs[i], layout)[k])
  }

  /** A plain value is read back exactly, up to its closing quote. */
  lemma {:induction false} ReadPlain(f: string, rest: string)
    requires Plain(f)
    ensures ReadQuoted(f + "'" + rest) == Some((f, rest))
    decreases |f|
  {
    if f == [] {
      assert f + "'" + rest == "'" + rest;
    } else {
      assert (f + "'" + rest)[1..] == f[1..] + "'" + rest;
      assert f == [f[0]] + f[1..];
      ReadPlain(f[1..], rest);
    }
  }

  /** A value with a quote or a backslash is not read back as itself. */
  lemma {:induction false} ReadNotPlain(f: string, rest: string)
    requires !Plain(f)
    ensures var r := ReadQuoted(f + "'" + rest); r.None? || r.value.0 != f
    decreases |f|
  {
    var s := f + "'" + rest;
    assert s[0] == f[0];
    if f[0] == '\'' || f[0] == '\\' {
    } else {
      assert s[1..] == f[1..] + "'" + rest;
      assert f == [f[0]] + f[1..];
      ReadNotPlain(f[1..], rest);
    }
  }

  /** A quoted value opens with a quote, after which come the value, the closing quote and what follows. */
  lemma QuoteSplit(f: string, t: string)
    ensures |Quote(f) + t| > 0 && (Quote(f) + t)[0] == '\''
    ensures (Quote(f) + t)[1..] == f + "'" + t
  {
    assert Quote(f) + t == ['\''] + (f + "'" + t);
  }

  /** The text of a tuple's values from the given one on: each quoted, separated by `, `, closed by `)`. */
  function QuotedList(fs: seq<string>): string
    requires |fs| >= 1
    decreases |fs|
  {
    Quote(fs[0]) + (if |fs| == 1 then ")" else ", " + QuotedList(fs[1..]))
  }

  /** The format string lays out the five values as `QuotedList` does. */
  lemma TupleShape(r: SerialRecord, layout: Layout)
    ensures TupleText(r, layout) == "(" + QuotedList(Fields(r, layout))
  {
    var fs := Fields(r, layout);
    var q4 := QuotedList(fs[4..]);
    assert q4 == Quote(fs[4]) + ")";
    var q3 := QuotedList(fs[3..]);
    assert fs[3..][1..] == fs[4..];
    assert q3 == Quote(fs[3]) + ", " + q4;
    var q2 := QuotedList(fs[2..]);
    assert fs[2..][1..] == fs[3..];
    assert q2 == Quote(fs[2]) + ", " + q3;
    var q1 := QuotedList(fs[1..]);
    assert fs[1..][1..] == fs[2..];
    assert q1 == Quote(fs[1]) + ", " + q2;
    assert QuotedList(fs) == Quote(fs[0]) + ", " + q1;
  }

  /** The text after a tuple's first value: `)` for the last value, otherwise `, ` and the remaining values. */
  function AfterFirst(fs: seq<string>): string
    requires |fs| >= 1
  {
    if |fs| == 1 then ")" else ", " + QuotedList(fs[1..])
  }

  /** `ParseFields` after the last value has been read. */
  lemma ParseFieldsLast(s: string, v: string, rest: string)
    requires |s| > 0 && s[0] == '\'' && ReadQuoted(s[1..]) == Some((v, ")" + rest))
    ensures ParseFields(s, 1) == Some(([v], rest))
  {
    assert (")" + rest)[1..] == rest;
  }

  /** `ParseFields` after a value followed by `, ` has been read. */
  lemma ParseFieldsMore(s: string, n: nat, v: string, u: string)
    requires n >= 2 && |s| > 0 && s[0] == '\'' && ReadQuoted(s[1..]) == Some((v, ", " + u))
    ensures ParseFields(s, n) ==
      match ParseFields(u, n - 1)
      case None => None
      case Some((vs, r)) => Some(([v] + vs, r))
  {
    assert (", " + u)[2..] == u;
  }

  /** `ParseFields` fails when the first value cannot be read. */
  lemma ParseFieldsNoValue(s: string, n: nat)
    requires n >= 1 && |s| > 0 && s[0] == '\'' && ReadQuoted(s[1..]).None?
    ensures ParseFields(s, n).None?
  {
  }

  /** The tuple text splits into the first quoted value and what follows it. */
  lemma QuotedListSplit(fs: seq<string>, rest: string)
    requires |fs| >= 1
    ensures QuotedList(fs) + rest == Quote(fs[0]) + (AfterFirst(fs) + rest)
    ensures |fs| == 1 ==> AfterFirst(fs) + rest == ")" + rest
    ensures |fs| > 1 ==> AfterFirst(fs) + rest == ", " + (QuotedList(fs[1..]) + rest)
  {
    var q := Quote(fs[0]);
    var a := AfterFirst(fs);
    assert QuotedList(fs) == q + a;
    assert |fs| > 1 ==> a == ", " + QuotedList(fs[1..]);
    hide *;
    Assoc(q, a, rest);
    if |fs| > 1 {
      Assoc(", ", QuotedList(fs[1..]), rest);
    }
  }

  /** Concatenation regroups freely. */
  lemma Assoc(a: string, b: string, c: string)
    ensures (a + b) + c == a + (b + c)
  {
  }

  /** The quoted values of a tuple are read back exactly when all are plain. */
  lemma {:induction false} ParsePlain(fs: seq<string>, rest: string)
    requires |fs| >= 1 && forall k :: 0 <= k < |fs| ==> Plain(fs[k])
    ensures ParseFields(QuotedList(fs) + rest, |fs|) == Some((fs, rest))
    decreases |fs|
  {
    if |fs| == 1 {
      var t := AfterFirst(fs) + rest;
      var s := QuotedList(fs) + rest;
      QuotedListSplit(fs, rest);
      hide *;
      QuoteSplit(fs[0], t);
      ReadPlain(fs[0], t);
      ParseFieldsLast(s, fs[0], rest);
      assert fs == [fs[0]];
    } else {
      PlainFirst(fs, rest);
      ParsePlain(fs[1..], rest);
      assert [fs[0]] + fs[1..] == fs;
    }
  }

  /** A tuple with a value that is not plain is not read back as its values. */
  lemma {:induction false} ParseNotPlain(fs: seq<string>, rest: string, k: nat)
    requires |fs| >= 1 && k < |fs| && !Plain(fs[k])
    ensures var r := ParseFields(QuotedList(fs) + rest, |fs|); r.None? || r.value.0 != fs
    decreases |fs|, 1
  {
    if Plain(fs[0]) {
      ParseNotPlainLater(fs, rest, k);
    } else {
      ParseNotPlainFirst(fs, rest);
    }
  }

  /** The first value is not plain: reading it fails or yields another value. */
  lemma ParseNotPlainFirst(fs: seq<string>, rest: string)
    requires |fs| >= 1 && !Plain(fs[0])
    ensures var r := ParseFields(QuotedList(fs) + rest, |fs|); r.None? || r.value.0 != fs
  {
    var t := AfterFirst(fs) + rest;
    var s := QuotedList(fs) + rest;
    QuotedListSplit(fs, rest);
    hide *;
    QuoteSplit(fs[0], t);
    ReadNotPlain(fs[0], t);
    var r := ReadQuoted(s[1..]);
    if r.Some? {
      ParseFieldsFirst(s, |fs|, r.value.0, r.value.1);
    } else {
      ParseFieldsNoValue(s, |fs|);
    }
  }

  /** The first value `ParseFields` returns is the one read first. */
  lemma ParseFieldsFirst(s: string, n: nat, v: string, t: string)
    requires n >= 1 && |s| > 0 && s[0] == '\'' && ReadQuoted(s[1..]) == Some((v, t))
    ensures var r := ParseFields(s, n); r.Some? ==> |r.value.0| >= 1 && r.value.0[0] == v
  {
  }

  /** The first value is plain and a later one is not: the difference shows up later. */
  lemma {:induction false} ParseNotPlainLater(fs: seq<string>, rest: string, k: nat)
    requires |fs| >= 1 && 0 < k < |fs| && !Plain(fs[k]) && Plain(fs[0])
    ensures var r := ParseFields(QuotedList(fs) + rest, |fs|); r.None? || r.value.0 != fs
    decreases |fs|, 0
  {
    hide *;
    PlainFirst(fs, rest);
    assert fs[1..][k - 1] == fs[k];
    ParseNotPlain(fs[1..], rest, k - 1);
    PrependOther(fs, ParseFields(QuotedList(fs[1..]) + rest, |fs| - 1));
  }

  /** A plain first value is read and the others follow from the remaining text. */
  lemma PlainFirst(fs: seq<string>, rest: string)
    requires |fs| >= 2 && Plain(fs[0])
    ensures ParseFields(QuotedList(fs) + rest, |fs|) ==
      match ParseFields(QuotedList(fs[1..]) + rest, |fs| - 1)
      case None => None
      case Some((vs, r)) => Some(([fs[0]] + vs, r))
  {
    var t := AfterFirst(fs) + rest;
    var s := QuotedList(fs) + rest;
    var u := QuotedList(fs[1..]) + rest;
    QuotedListSplit(fs, rest);
    hide *;
    QuoteSplit(fs[0], t);
    ReadPlain(fs[0], t);
    ParseFieldsMore(s, |fs|, fs[0], u);
  }

  /** Prepending the first value to anything but the others is not the whole list. */
  lemma PrependOther(fs: seq<string>, r: Option<(seq<string>, string)>)
    requires |fs| >= 1 && (r.None? || r.value.0 != fs[1..])
    ensures var m := match r case None => None case Some((vs, x)) => Some(([fs[0]] + vs, x));
      m.None? || m.value.0 != fs
  {
    if r.Some? {
      assert ([fs[0]] + r.value.0)[1..] == r.value.0;
    }
  }

  /** What follows the first tuple of a page's joined tuples. */
  function RestText(rs: seq<SerialRecord>, layout: Layout): string
    requires |rs| >= 1
  {
    if |rs| == 1 then "" else "," + Text.Join(Tuples(rs[1..], layout), ",")
  }

  /** The joined tuples are the first tuple's quoted values and then the rest. */
  lemma JoinedSplit(rs: seq<SerialRecord>, layout: Layout)
    requires |rs| >= 1
    ensures Text.Join(Tuples(rs, layout), ",") == "(" + (QuotedList(Fields(rs[0], layout)) + RestText(rs, layout))
    ensures |rs| == 1 ==> RestText(rs, layout) == []
    ensures |rs| > 1 ==> var rest := RestText(rs, layout);
      |rest| > 0 && rest[0] == ',' && rest[1..] == Text.Join(Tuples(rs[1..], layout), ",")
  {
    var ts := Tuples(rs, layout);
    TupleShape(rs[0], layout);
    if |rs| > 1 {
      assert Tuples(rs[1..], layout) == ts[1..];
      var x := Text.Join(ts[1..], ",");
      assert ("," + x)[1..] == x;
    }
  }

  /** The values of a page are the first record's and then the others'. */
  lemma FieldsOfSplit(rs: seq<SerialRecord>, layout: Layout)
    requires |rs| >= 1
    ensures FieldsOf(rs, layout) == [Fields(rs[0], layout)] + FieldsOf(rs[1..], layout)
  {
  }

  /** A tuple of plain values is read back up to its closing parenthesis. */
  lemma TuplePlain(s: string, fs: seq<string>, rest: string)
    requires |fs| == 5 && forall k :: 0 <= k < 5 ==> Plain(fs[k])
    requires s == "(" + (QuotedList(fs) + rest)
    ensures ParseTuple(s) == Some((fs, rest))
  {
    assert s[1..] == QuotedList(fs) + rest;
    hide *;
    ParsePlain(fs, rest);
  }

  /** A tuple with a value that is not plain is not read back as its values. */
  lemma TupleNotPlain(s: string, fs: seq<string>, rest: string, k: nat)
    requires |fs| == 5 && k < 5 && !Plain(fs[k])
    requires s == "(" + (QuotedList(fs) + rest)
    ensures ParseTuple(s).None? || ParseTuple(s).value.0 != fs
  {
    assert s[1..] == QuotedList(fs) + rest;
    hide *;
    ParseNotPlain(fs, rest, k);
  }

  /** The first tuple `ParseTuples` returns is the one `ParseTuple` reads. */
  lemma ParseTuplesFirst(s: string)
    ensures var r := ParseTuples(s);
      r.Some? ==> ParseTuple(s).Some? && |r.value| >= 1 && r.value[0] == ParseTuple(s).value.0
  {
  }

  /** `ParseTuples` after a first tuple followed by nothing or by a comma. */
  lemma ParseTuplesNext(s: string, t: seq<string>, rest: string)
    requires ParseTuple(s) == Some((t, rest))
    ensures rest == [] ==> ParseTuples(s) == Some([t])
    ensures |rest| > 0 && rest[0] == ',' ==> forall ts ::
      ParseTuples(s) == Some([t] + ts) <==> ParseTuples(rest[1..]) == Some(ts)
  {
    if |rest| > 0 && rest[0] == ',' {
      forall ts ensures ParseTuples(s) == Some([t] + ts) <==> ParseTuples(rest[1..]) == Some(ts) {
        if ParseTuples(s) == Some([t] + ts) {
          var r := ParseTuples(rest[1..]);
          assert r.Some?;
          assert ([t] + r.value)[1..] == r.value;
          assert ([t] + ts)[1..] == ts;
        }
      }
    }
  }

  /**
   * Reading back the tuples of a non-empty page yields the page's values
   * exactly when every value is plain.
   */
  lemma {:induction false} ParseTuplesRoundTrip(rs: seq<SerialRecord>, layout: Layout)
    requires |rs| >= 1
    ensures ParseTuples(Text.Join(Tuples(rs, layout), ",")) == Some(FieldsOf(rs, layout)) <==> AllPlain(rs, layout)
    decreases |rs|
  {
    var fs := Fields(rs[0], layout);
    var rest := RestText(rs, layout);
    var joined := Text.Join(Tuples(rs, layout), ",");
    JoinedSplit(rs, layout);
    FieldsOfSplit(rs, layout);
    AllPlainSplit(rs, layout);
    if |rs| > 1 {
      ParseTuplesRoundTrip(rs[1..], layout);
    }
    hide *;
    if forall k :: 0 <= k < 5 ==> Plain(fs[k]) {
      TuplePlain(joined, fs, rest);
      ParseTuplesNext(joined, fs, rest);
      if |rs| == 1 {
        assert FieldsOf(rs[1..], layout) == [];
        assert [fs] + [] == [fs];
      }
    } else {
      var k :| 0 <= k < 5 && !Plain(fs[k]);
      TupleNotPlain(joined, fs, rest, k);
      ParseTuplesFirst(joined);
    }
  }

  /** A page is plain exactly when its first record and the rest are. */
  lemma AllPlainSplit(rs: seq<SerialRecord>, layout: Layout)
    requires |rs| >= 1
    ensures AllPlain(rs, layout) <==>
      (forall k :: 0 <= k < 5 ==> Plain(Fields(rs[0], layout)[k])) && AllPlain(rs[1..], layout)
  {
    if (forall k :: 0 <= k < 5 ==> Plain(Fields(rs[0], layout)[k])) && AllPlain(rs[1..], layout) {
      forall i, k | 0 <= i < |rs| && 0 <= k < 5 ensures Plain(Fields(rs[i], layout)[k]) {
        if i > 0 {
          assert rs[i] == rs[1..][i - 1];
        }
      }
    }
    if AllPlain(rs, layout) {
      forall i, k | 0 <= i < |rs[1..]| && 0 <= k < 5 ensures Plain(Fields(rs[1..][i], layout)[k]) {
        assert rs[1..][i] == rs[i + 1];
      }
    }
  }

  /**
   * The INSERT statement of a non-empty page is read back as the page's
   * values if and only if no value contains a quote or a backslash.
   */
  lemma InsertRoundTrip(rs: seq<SerialRecord>, layout: Layout)
    requires |rs| >= 1
    ensures DecodeInsert(InsertStatement(rs, layout)) == Some(FieldsOf(rs, layout)) <==> AllPlain(rs, layout)
  {
    var q := InsertStatement(rs, layout);
    assert q[..|InsertPrefix|] == InsertPrefix;
    assert q[|InsertPrefix|..] == Text.Join(Tuples(rs, layout), ",");
    ParseTuplesRoundTrip(rs, layout);
  }

  /** A message with a quote breaks the statement: the example `it's`. */
  lemma QuoteBreaksStatement(r: SerialRecord, layout: Layout)
    requires r.message == "it's"
    ensures DecodeInsert(InsertStatement([r], layout)) != Some(FieldsOf([r], layout))
  {
    assert Fields(r, layout)[4] == r.message;
    assert r.message[2] == '\'';
    assert !Plain(r.message);
    InsertRoundTrip([r], layout);
  }

  // ----- the offset loop -----

  /** What can go wrong in a run, located by the page it happens on; each ends the run with `log.Fatalf`. */
  datatype SerialFault = QueryFails(page: nat) | ScanFails(page: nat, row: nat) | InsertFails(page: nat)

  function ScanFailAt(fault: Option<SerialFault>, page: nat): Option<nat> {
    if fault.Some? && fault.value.ScanFails? && fault.value.page == page then Some(fault.value.row) else None
  }

  /**
   * Whether page `p` (at offset `p * chunkSize`) ends the run: its query
   * fails, its scan fails on one of its rows, or it is non-empty and its
   * insert fails or its upper-cased values do not survive the quoting.
   */
  predicate PageFails(src: seq<SerialRecord>, chunkSize: nat, layout: Layout, fault: Option<SerialFault>, p: nat) {
    var page := OffsetPage(src, chunkSize, p * chunkSize);
    || fault == Some(QueryFails(p))
    || (ScanFailAt(fault, p).Some? && ScanFailAt(fault, p).value < |page|)
    || (page != [] && (fault == Some(InsertFails(p)) || !AllPlain(UpperAll(page), layout)))
  }

  /**
   * `main`: from offset 0, extract a page, stop at the first empty page,
   * transform it in place, insert it, and advance the offset by `chunkSize`.
   * `inserted` is what the run appended to the target table.
   */
  method SerialRun(src: seq<SerialRecord>, chunkSize: nat, layout: Layout, fault: Option<SerialFault>)
    returns (inserted: seq<SerialRecord>, pages: nat, err: Option<SerialError>)
    ensures inserted == UpperAll(src[..Min(pages * chunkSize, |src|)])
    // a run that ends normally processed every row exactly once, in order
    ensures err.None? ==> inserted == UpperAll(if chunkSize == 0 then [] else src)
    ensures err.None? ==> chunkSize == 0 || pages * chunkSize >= |src|
    ensures fault.None? && AllPlain(UpperAll(src), layout) ==> err.None?
    // the run fails exactly when the page it stopped at fails
    ensures err.Some? <==> PageFails(src, chunkSize, layout, fault, pages)
    // every page before the last was non-empty and went through
    ensures forall q: nat :: q < pages ==> q * chunkSize < |src| && !PageFails(src, chunkSize, layout, fault, q)
  {
    var offset: nat := 0;
    inserted := [];
    pages := 0;
    err := None;
    while true
      invariant offset == pages * chunkSize
      invariant inserted == UpperAll(src[..Min(offset, |src|)])
      invariant chunkSize == 0 ==> pages == 0
      invariant forall q: nat :: q < pages ==> q * chunkSize < |src| && !PageFails(src, chunkSize, layout, fault, q)
      decreases |src| - Min(offset, |src|)
    {
      var n;
      inserted, n, err := RunPage(src, chunkSize, offset, layout, fault, pages, inserted);
      if err.Some? {
        return;
      }
      if n == 0 {
        break;
      }
      NextOffset(pages, chunkSize);
      offset := offset + chunkSize;
      pages := pages + 1;
    }
  }

  /**
   * One iteration of `main`'s loop at `offset`: extract the page, and unless
   * it is empty transform it in place and insert it. `n` is the page size.
   */
  method RunPage(src: seq<SerialRecord>, chunkSize: nat, offset: nat, layout: Layout,
                 fault: Option<SerialFault>, pages: nat, inserted: seq<SerialRecord>)
    returns (inserted': seq<SerialRecord>, n: nat, err: Option<SerialError>)
    requires offset == pages * chunkSize
    requires inserted == UpperAll(src[..Min(offset, |src|)])
    ensures err.Some? <==> PageFails(src, chunkSize, layout, fault, pages)
    ensures fault.None? && AllPlain(UpperAll(src), layout) ==> err.None?
    ensures err.Some? ==> inserted' == inserted
    ensures err.None? ==> inserted' == UpperAll(src[..Min(offset + chunkSize, |src|)])
    ensures err.None? && n == 0 ==> offset >= |src| || chunkSize == 0
    ensures err.None? && n > 0 ==> offset < |src| && chunkSize > 0
  {
    var records;
    records, err := Extractor(src, chunkSize, offset, fault == Some(QueryFails(pages)), ScanFailAt(fault, pages));
    n := |records|;
    inserted' := inserted;
    PagePlain(src, chunkSize, offset, layout);
    if err.Some? || n == 0 {
      return;
    }
    inserted', err := TransformLoad(inserted, records, layout, fault == Some(InsertFails(pages)));
    if err.None? {
      assert src[..Min(offset + chunkSize, |src|)] == src[..offset] + records;
      UpperAllAppend(src[..offset], records);
    }
  }

  /** The rest of an iteration for a non-empty page: transform it in place, then insert it. */
  method TransformLoad(inserted: seq<SerialRecord>, records: seq<SerialRecord>, layout: Layout, insertFails: bool)
    returns (inserted': seq<SerialRecord>, err: Option<SerialError>)
    requires records != []
    ensures err.Some? <==> insertFails || !AllPlain(UpperAll(records), layout)
    ensures err.Some? ==> inserted' == inserted
    ensures err.None? ==> inserted' == inserted + UpperAll(records)
  {
    // the page as a slice the transformer updates in place
    var a := new SerialRecord[|records|](i requires 0 <= i < |records| => records[i]);
    assert a[..] == records;
    Transformer(a);
    var executed;
    inserted', executed, err := Loader(inserted, a[..], layout, insertFails);
  }

  /** A page of rows that all survive the quoting once upper-cased survives it too. */
  lemma PagePlain(src: seq<SerialRecord>, chunkSize: nat, offset: nat, layout: Layout)
    ensures AllPlain(UpperAll(src), layout) ==> AllPlain(UpperAll(OffsetPage(src, chunkSize, offset)), layout)
  {
    var page := OffsetPage(src, chunkSize, offset);
    if AllPlain(UpperAll(src), layout) {
      forall i, k | 0 <= i < |page| && 0 <= k < 5 ensures Plain(Fields(UpperAll(page)[i], layout)[k]) {
        assert UpperAll(page)[i] == UpperAll(src)[offset + i];
      }
    }
  }

  /** One more page moves the offset by one chunk. */
  lemma NextOffset(pages: nat, chunkSize: nat)
    ensures (pages + 1) * chunkSize == pages * chunkSize + chunkSize
  {
  }
}
