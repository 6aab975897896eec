/**
 * The table of the csv tool: a header line and the records below it, the
 * column index built from the header, and reading a table.
 *
 * The csv reader is replaced by the sequence of results its successive
 * Read calls return; reading past the end of that sequence reports EOF.
 */
module CsvCommon {
  import opened Wrappers

  /** CsvRecord: the fields of one line. */
  datatype CsvRecord = CsvRecord(fields: seq<string>)

  /** CsvInfo: a table read into memory; sorting reorders its records in place. */
  class CsvInfo {
    var header: seq<string>
    var records: seq<CsvRecord>

    constructor (header: seq<string>, records: seq<CsvRecord>)
      ensures this.header == header && this.records == records
    {
      this.header := header;
      this.records := records;
    }
  }

  /**
   * What getColIndex computes: every header name mapped to its position,
   * the last one when a name occurs more than once.
   */
  function ColIndex(title: seq<string>): (m: map<string, int>)
    ensures forall name :: name in m <==> name in title
    ensures forall name :: name in m ==>
      0 <= m[name] < |title| && title[m[name]] == name
      && forall j :: m[name] < j < |title| ==> title[j] != name
  {
    if title == [] then map[]
    else
      var init := title[..|title| - 1];
      assert title == init + [title[|title| - 1]];
      ColIndex(init)[title[|title| - 1] := |title| - 1]
  }

  /** One more header name maps to the new last position; the other names keep theirs. */
  lemma ColIndexSnoc(title: seq<string>, name: string)
    ensures ColIndex(title + [name]) == ColIndex(title)[name := |title|]
  {
    assert (title + [name])[..|title|] == title;
  }

  /** The index of a header prefix one name longer: that name moves to the new last position. */
  lemma ColIndexPrefixStep(title: seq<string>, n: nat)
    requires 0 < n <= |title|
    ensures ColIndex(title[..n]) == ColIndex(title[..n - 1])[title[n - 1] := n - 1]
  {
    assert title[..n] == title[..n - 1] + [title[n - 1]];
    ColIndexSnoc(title[..n - 1], title[n - 1]);
  }

  /** getColIndex */
  method GetColIndex(title: seq<string>) returns (colIdx: map<string, int>)
    ensures colIdx == ColIndex(title)
  {
    colIdx := map[];
    var i := 0;
    while i < |title|
      invariant 0 <= i <= |title|
      invariant colIdx == ColIndex(title[..i])
    {
      assert title[..i + 1][..i] == title[..i];
      colIdx := colIdx[title[i] := i];
      i := i + 1;
    }
    assert title[..i] == title;
  }

  /** The column a looked-up name selects: its index, or Go's zero value 0 when the header lacks it. */
  function ColumnOf(colIdx: map<string, int>, name: string): int
  {
    if name in colIdx then colIdx[name] else 0
  }

  /**
   * A name in the header selects its last column; a name not in it silently
   * selects column 0. Either way the column exists when the header is not empty.
   */
  lemma ColumnOfMeaning(title: seq<string>, name: string)
    ensures name in title ==> title[ColumnOf(ColIndex(title), name)] == name
    ensures name in title ==> forall j :: ColumnOf(ColIndex(title), name) < j < |title| ==> title[j] != name
    ensures name !in title ==> ColumnOf(ColIndex(title), name) == 0
    ensures |title| > 0 ==> 0 <= ColumnOf(ColIndex(title), name) < |title|
  {
  }

  /** What one Read call returns: a record, EOF, or another error. */
  datatype ReadResult = Row(fields: seq<string>) | Eof | ReadError(msg: string)

  /** The k-th Read; past the end of `input` the reader reports EOF. */
  function ReadAt(input: seq<ReadResult>, k: nat): ReadResult
  {
    if k < |input| then input[k] else Eof
  }

  /** The records read from the i-th Read on, up to EOF, or the first error. */
  function ReadRecords(input: seq<ReadResult>, i: nat): Result<seq<CsvRecord>, ReadResult>
    decreases |input| - i
  {
    match ReadAt(input, i)
    case Eof => Success([])
    case ReadError(_) => Failure(ReadAt(input, i))
    case Row(fields) =>
      match ReadRecords(input, i + 1)
      case Failure(e) => Failure(e)
      case Success(rest) => Success([CsvRecord(fields)] + rest)
  }

  /** readCsv: the header and the records, or the first error (EOF included, for the header). */
  function ReadTable(input: seq<ReadResult>): Result<(seq<string>, seq<CsvRecord>), ReadResult>
  {
    match ReadAt(input, 0)
    case Row(header) =>
      (match ReadRecords(input, 1)
       case Failure(e) => Failure(e)
       case Success(recs) => Success((header, recs)))
    case _ => Failure(ReadAt(input, 0))
  }

  /**
   * Reading from the i-th Read on yields the rows, in order, up to the first
   * EOF; it fails exactly when a non-EOF error comes first, with that error.
   */
  lemma {:induction false} ReadRecordsMeaning(input: seq<ReadResult>, i: nat)
    ensures ReadRecords(input, i).Success? ==>
      var recs := ReadRecords(input, i).value;
      ReadAt(input, i + |recs|) == Eof
      && forall k :: 0 <= k < |recs| ==> ReadAt(input, i + k) == Row(recs[k].fields)
    ensures ReadRecords(input, i).Failure? ==>
      exists j :: i <= j < |input| && input[j] == ReadRecords(input, i).error && input[j].ReadError?
        && forall k :: i <= k < j ==> input[k].Row?
    decreases |input| - i
  {
    if ReadAt(input, i).Row? {
      ReadRecordsMeaning(input, i + 1);
      var r := ReadRecords(input, i + 1);
      if r.Success? {
        var recs := ReadRecords(input, i).value;
        assert recs == [CsvRecord(ReadAt(input, i).fields)] + r.value;
        forall k | 0 <= k < |recs| ensures ReadAt(input, i + k) == Row(recs[k].fields) {
          if k > 0 {
            assert recs[k] == r.value[k - 1];
            assert ReadAt(input, (i + 1) + (k - 1)) == Row(r.value[k - 1].fields);
          }
        }
      } else {
        var j :| i + 1 <= j < |input| && input[j] == r.error && input[j].ReadError?
          && forall k :: i + 1 <= k < j ==> input[k].Row?;
        assert forall k :: i <= k < j ==> input[k].Row?;
      }
    }
  }

  /**
   * readCsv succeeds exactly when the first Read gives a record and no error
   * but EOF ends the rest: the first record is the header, the others follow
   * in order.
   */
  lemma ReadTableMeaning(input: seq<ReadResult>)
    ensures ReadTable(input).Success? ==>
      ReadAt(input, 0) == Row(ReadTable(input).value.0)
      && ReadTable(input).value.1 == ReadRecords(input, 1).value
    ensures ReadTable(input).Success? <==> ReadAt(input, 0).Row? && ReadRecords(input, 1).Success?
    ensures !ReadAt(input, 0).Row? ==> ReadTable(input) == Failure(ReadAt(input, 0))
  {
  }

  /**
   * readCsv: reads the header, then every record up to EOF into a new
   * CsvInfo; on any error (EOF for the header) no table is returned.
   */
  method ReadCsv(input: seq<ReadResult>) returns (info: CsvInfo?, err: Option<ReadResult>)
    ensures ReadTable(input).Success? ==>
      err.None? && info != null && fresh(info)
      && info.header == ReadTable(input).value.0 && info.records == ReadTable(input).value.1
    ensures ReadTable(input).Failure? ==> info == null && err == Some(ReadTable(input).error)
  {
    var rec := ReadAt(input, 0);
    if !rec.Row? {
      return null, Some(rec);
    }
    info := new CsvInfo(rec.fields, []);
    var i := 1;
    assert ReadRecords(input, 1).Success? ==> info.records + ReadRecords(input, 1).value == ReadRecords(input, 1).value;
    while true
      invariant 1 <= i <= |input| + 1
      invariant ReadRecords(input, 1) ==
        (match ReadRecords(input, i)
         case Success(rest) => Success(info.records + rest)
         case Failure(e) => Failure(e))
      invariant fresh(info) && info.header == rec.fields
      decreases |input| + 1 - i
    {
      var next := ReadAt(input, i);
      if next.Eof? {
        break;
      }
      if next.ReadError? {
        return null, Some(next);
      }
      ghost var before := info.records;
      info.records := info.records + [CsvRecord(next.fields)];
      if ReadRecords(input, i + 1).Success? {
        var rest := ReadRecords(input, i + 1).value;
        assert ReadRecords(input, i).value == [CsvRecord(next.fields)] + rest;
        assert before + ([CsvRecord(next.fields)] + rest) == info.records + rest;
      }
      i := i + 1;
    }
    err := None;
  }
}
