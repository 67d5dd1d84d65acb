/**
 The record parser of the tutorial adapter and of adapter 11: every MITAB
 line not dropped by the blocklist becomes one `IRefIndexInteraction`
 record, in input order, without any merging. The taxon is read from the
 second interactor's field only.
 */
module Records {
  import opened Wrappers
  import opened Mitab
  import Seqs

  /** The `IRefIndexInteraction` named tuple. */
  datatype Record = Record(
    partnerA: string,
    partnerB: string,
    pmid: string,
    methodName: string,
    taxon: string,
    relationshipId: string)

  /** The record read from a line that has its 40 fields. */
  function RecordOf(fields: seq<string>): Record
    requires |fields| >= MinFields
  {
    Record(
      PartnerId(fields[FinalReferenceA]),
      PartnerId(fields[FinalReferenceB]),
      PubmedId(fields[PublicationField]),
      MethodOf(fields[MethodField]),
      TaxonOf(fields[TaxonBField]),
      RigidOf(fields[InteractionIdField]))
  }

  /** What one well-formed line contributes: its record, or nothing when it is blocked. */
  function LineRecords(fields: seq<string>, prefixes: seq<string>): (r: seq<Record>)
    requires |fields| >= MinFields
    ensures |r| <= 1
  {
    if LineBlocked(fields, prefixes) then [] else [RecordOf(fields)]
  }

  /** Every row has the 40 fields the parser reads. */
  predicate Complete(rows: seq<seq<string>>) {
    forall i :: 0 <= i < |rows| ==> |rows[i]| >= MinFields
  }

  /**
   The loop of `irefindex_process` over lines already split on tabs, with
   what a complete row contributes given by `step`: the contributions in
   order, or the first row with too few fields (indexing it raises
   `IndexError`).
   */
  function Scan<R>(rows: seq<seq<string>>, step: seq<string> -> seq<R>): (r: Result<seq<R>, seq<string>>)
    ensures r.Failure? ==> r.error in rows && |r.error| < MinFields
    decreases |rows|
  {
    if rows == [] then Success([])
    else if |rows[0]| < MinFields then Failure(rows[0])
    else
      match Scan(rows[1..], step)
      case Failure(row) => Failure(row)
      case Success(rest) => Success(step(rows[0]) + rest)
  }

  /** The per-row step of both parsers: the record of an unblocked row. */
  function RowStep(prefixes: seq<string>): seq<string> -> seq<Record> {
    row => if |row| >= MinFields then LineRecords(row, prefixes) else []
  }

  /** `irefindex_process` on the rows of the file. */
  function ParseRows(rows: seq<seq<string>>, prefixes: seq<string>): Result<seq<Record>, seq<string>> {
    Scan(rows, RowStep(prefixes))
  }

  /** `irefindex_process` on the lines of the file. */
  function ParseRecords(lines: seq<string>, prefixes: seq<string>): Result<seq<Record>, seq<string>> {
    ParseRows(Seqs.MapSeq(lines, Fields), prefixes)
  }

  /** The scan fails exactly when some row has fewer than 40 fields. */
  lemma {:induction false} ScanSucceedsIffComplete<R>(rows: seq<seq<string>>, step: seq<string> -> seq<R>)
    ensures Scan(rows, step).Success? <==> Complete(rows)
    decreases |rows|
  {
    if rows != [] {
      ScanSucceedsIffComplete(rows[1..], step);
      assert Complete(rows) <==> |rows[0]| >= MinFields && Complete(rows[1..]) by {
        assert forall i :: 0 < i < |rows| ==> rows[1..][i - 1] == rows[i];
      }
    }
  }

  /** The parse of a file fails exactly when one of its lines has fewer than 40 fields. */
  lemma {:induction false} ParseSucceedsIffWellFormed(lines: seq<string>, prefixes: seq<string>)
    ensures ParseRecords(lines, prefixes).Success? <==> WellFormedLines(lines)
  {
    ScanSucceedsIffComplete(Seqs.MapSeq(lines, Fields), RowStep(prefixes));
  }

  /** The error is the first short row: every row before it is complete. */
  lemma {:induction false} ScanFailsAtFirstShortRow<R>(rows: seq<seq<string>>, step: seq<string> -> seq<R>)
    requires Scan(rows, step).Failure?
    ensures exists n :: 0 <= n < |rows| && rows[n] == Scan(rows, step).error && Complete(rows[..n])
    decreases |rows|
  {
    if |rows[0]| >= MinFields {
      ScanFailsAtFirstShortRow(rows[1..], step);
      var n :| 0 <= n < |rows[1..]| && rows[1..][n] == Scan(rows[1..], step).error && Complete(rows[1..][..n]);
      assert rows[..n + 1] == [rows[0]] + rows[1..][..n];
      assert rows[n + 1] == rows[1..][n];
    } else {
      assert rows[..0] == [];
    }
  }

  /** A single complete row gives its record, or nothing when it is blocked. */
  lemma {:induction false} ParseOneRow(row: seq<string>, prefixes: seq<string>)
    requires |row| >= MinFields
    ensures LineBlocked(row, prefixes) ==> ParseRows([row], prefixes) == Success([])
    ensures !LineBlocked(row, prefixes) ==> ParseRows([row], prefixes) == Success([RecordOf(row)])
  {
    assert [row][1..] == [];
    assert Scan([], RowStep(prefixes)) == Success([]);
    assert LineRecords(row, prefixes) + [] == LineRecords(row, prefixes);
  }

  /**
   The scan is row by row: the result for `xs + ys` is that of `xs`
   followed by that of `ys`.
   */
  lemma {:induction false} ScanAppend<R>(xs: seq<seq<string>>, ys: seq<seq<string>>, step: seq<string> -> seq<R>)
    requires Scan(xs, step).Success? && Scan(ys, step).Success?
    ensures Scan(xs + ys, step) == Success(Scan(xs, step).value + Scan(ys, step).value)
    decreases |xs|
  {
    var tail := Scan(ys, step).value;
    if xs == [] {
      assert [] + ys == ys;
      assert [] + tail == tail;
    } else {
      ScanAppend(xs[1..], ys, step);
      var head := step(xs[0]);
      var mid := Scan(xs[1..], step).value;
      assert (xs + ys)[0] == xs[0] && (xs + ys)[1..] == xs[1..] + ys;
      assert head + (mid + tail) == (head + mid) + tail;
    }
  }

  /** An error in `ys` is the error of `xs + ys` when `xs` scans. */
  lemma {:induction false} ScanAppendFailure<R>(xs: seq<seq<string>>, ys: seq<seq<string>>, step: seq<string> -> seq<R>)
    requires Scan(xs, step).Success? && Scan(ys, step).Failure?
    ensures Scan(xs + ys, step) == Scan(ys, step)
    decreases |xs|
  {
    if xs == [] {
      assert [] + ys == ys;
    } else {
      ScanAppendFailure(xs[1..], ys, step);
      assert (xs + ys)[0] == xs[0] && (xs + ys)[1..] == xs[1..] + ys;
    }
  }

  /** The rows of the data frame: the parsed records without the first, which is taken as a header. */
  function WithoutHeader(records: seq<Record>): (body: seq<Record>)
    ensures records == [] ==> body == []
    ensures records != [] ==> [records[0]] + body == records
  {
    if records == [] then [] else records[1..]
  }
}
