/**
 * The extract and to-json commands of the csv tool (the to-json loop is
 * the same in csv_to_json): projecting records onto requested columns, and
 * converting each record into a field-to-value map.
 *
 * The csv reader is the sequence of Read results of CsvCommon; the csv
 * writer, json.Marshal and the output file are left out, so a command's
 * output is the sequence of rows or maps it would write.
 */
module CsvMain {
  import opened Wrappers
  import opened CsvTypes
  import opened CsvCommon

  /** The column each requested name selects. */
  function Indices(colIdx: map<string, int>, names: seq<string>): (idx: seq<int>)
    ensures |idx| == |names|
  {
    seq(|names|, k requires 0 <= k < |names| => ColumnOf(colIdx, names[k]))
  }

  /**
   * extract's index construction: one column per requested name, in order;
   * a name in the header selects its last column and any other name column 0.
   */
  method BuildIndices(title: seq<string>, names: seq<string>) returns (idx: seq<int>)
    ensures idx == Indices(ColIndex(title), names)
    ensures forall k :: 0 <= k < |names| && names[k] in title ==> title[idx[k]] == names[k]
    ensures forall k :: 0 <= k < |names| && names[k] !in title ==> idx[k] == 0
    ensures |title| > 0 ==> forall k :: 0 <= k < |idx| ==> 0 <= idx[k] < |title|
  {
    var colIdx := GetColIndex(title);
    idx := [];
    var i := 0;
    while i < |names|
      invariant 0 <= i <= |names|
      invariant idx == Indices(colIdx, names[..i])
    {
      assert names[..i + 1] == names[..i] + [names[i]];
      idx := idx + [ColumnOf(colIdx, names[i])];
      i := i + 1;
    }
    assert names[..i] == names;
    forall k | 0 <= k < |names| ensures names[k] in title ==> title[idx[k]] == names[k] {
      ColumnOfMeaning(title, names[k]);
    }
    forall k | 0 <= k < |names| ensures |title| > 0 ==> 0 <= idx[k] < |title| {
      ColumnOfMeaning(title, names[k]);
    }
  }

  /** The fields of `rec` at the positions `idx`, in the order of `idx`. */
  function Project(rec: seq<string>, idx: seq<int>): seq<string>
    requires forall k :: 0 <= k < |idx| ==> 0 <= idx[k] < |rec|
  {
    seq(|idx|, k requires 0 <= k < |idx| => rec[idx[k]])
  }

  /** extractFields: the field at each requested position, in order (every position must exist). */
  method ExtractFields(rec: seq<string>, idx: seq<int>) returns (result: seq<string>)
    requires forall k :: 0 <= k < |idx| ==> 0 <= idx[k] < |rec|
    ensures |result| == |idx|
    ensures forall k :: 0 <= k < |idx| ==> result[k] == rec[idx[k]]
    ensures result == Project(rec, idx)
  {
    result := [];
    var i := 0;
    while i < |idx|
      invariant 0 <= i <= |idx|
      invariant result == Project(rec, idx[..i])
    {
      result := result + [rec[idx[i]]];
      i := i + 1;
    }
    assert idx[..i] == idx;
  }

  /**
   * The same indices applied to the header give back the requested names
   * when all of them are in the header; any row of the header's width can
   * be projected.
   */
  lemma ExtractedHeaderIsNames(title: seq<string>, names: seq<string>)
    requires forall k :: 0 <= k < |names| ==> names[k] in title
    ensures var idx := Indices(ColIndex(title), names);
      (forall k :: 0 <= k < |idx| ==> 0 <= idx[k] < |title|) && Project(title, idx) == names
  {
  }

  /** Projection only needs the row to be as wide as the header. */
  lemma RowsOfHeaderWidthProject(title: seq<string>, names: seq<string>, row: seq<string>)
    requires |title| > 0 && |row| == |title|
    ensures forall k :: 0 <= k < |names| ==> 0 <= Indices(ColIndex(title), names)[k] < |row|
  {
    forall k | 0 <= k < |names| ensures 0 <= Indices(ColIndex(title), names)[k] < |row| {
      ColumnOfMeaning(title, names[k]);
    }
  }

  /** The value a column of the given name holds: converted when the name has a type, else the raw text. */
  function FieldValue(name: string, raw: string, m: map<string, JType>, parseFloat: string -> Result<real, NumErr>): Result<Value, ConvError>
  {
    if name in m then ConvType(raw, m[name], parseFloat) else Success(StrVal(raw))
  }

  /** The failure of convertRecord: the column that did not convert and why. */
  datatype FieldError = ConvertFieldError(name: string, value: string, t: JType, cause: ConvError)

  /** convertRecord over the first n columns: the map so far, or the first column that fails. */
  function RecordPrefix(title: seq<string>, record: seq<string>, m: map<string, JType>,
                        parseFloat: string -> Result<real, NumErr>, n: nat): Result<map<string, Value>, FieldError>
    requires n <= |title| <= |record|
  {
    if n == 0 then Success(map[])
    else
      match RecordPrefix(title, record, m, parseFloat, n - 1)
      case Failure(e) => Failure(e)
      case Success(rm) =>
        var name := title[n - 1];
        match FieldValue(name, record[n - 1], m, parseFloat)
        case Failure(e) => Failure(ConvertFieldError(name, record[n - 1], m[name], e))
        case Success(v) => Success(rm[name := v])
  }

  /** Column j of the record converts, given its title. */
  predicate ColumnConverts(title: seq<string>, record: seq<string>, m: map<string, JType>,
                           parseFloat: string -> Result<real, NumErr>, j: int)
    requires 0 <= j < |title| <= |record|
  {
    FieldValue(title[j], record[j], m, parseFloat).Success?
  }

  /** convertRecord over the first n columns succeeds exactly when each of them converts. */
  lemma {:induction false} RecordPrefixSucceeds(title: seq<string>, record: seq<string>, m: map<string, JType>,
                                                parseFloat: string -> Result<real, NumErr>, n: nat)
    requires n <= |title| <= |record|
    ensures RecordPrefix(title, record, m, parseFloat, n).Success? <==>
      forall j :: 0 <= j < n ==> ColumnConverts(title, record, m, parseFloat, j)
  {
    if n > 0 {
      RecordPrefixSucceeds(title, record, m, parseFloat, n - 1);
      assert (forall j :: 0 <= j < n ==> ColumnConverts(title, record, m, parseFloat, j)) <==>
        (forall j :: 0 <= j < n - 1 ==> ColumnConverts(title, record, m, parseFloat, j))
        && ColumnConverts(title, record, m, parseFloat, n - 1);
    }
  }

  /** Column j is the first of the record that does not convert. */
  predicate FirstUnconverted(title: seq<string>, record: seq<string>, m: map<string, JType>,
                             parseFloat: string -> Result<real, NumErr>, j: int)
    requires |title| <= |record|
  {
    0 <= j < |title| && !ColumnConverts(title, record, m, parseFloat, j)
    && forall i :: 0 <= i < j ==> ColumnConverts(title, record, m, parseFloat, i)
  }

  /** A failing convertRecord reports the first column that does not convert. */
  lemma {:induction false} RecordPrefixFirstError(title: seq<string>, record: seq<string>, m: map<string, JType>,
                                                  parseFloat: string -> Result<real, NumErr>, n: nat)
    requires n <= |title| <= |record|
    requires RecordPrefix(title, record, m, parseFloat, n).Failure?
    ensures exists j :: (0 <= j < n && FirstUnconverted(title, record, m, parseFloat, j)
      && RecordPrefix(title, record, m, parseFloat, n).error ==
         ConvertFieldError(title[j], record[j], m[title[j]], FieldValue(title[j], record[j], m, parseFloat).error))
  {
    var prev := RecordPrefix(title, record, m, parseFloat, n - 1);
    if prev.Failure? {
      RecordPrefixFirstError(title, record, m, parseFloat, n - 1);
      var j :| 0 <= j < n - 1 && FirstUnconverted(title, record, m, parseFloat, j)
        && prev.error == ConvertFieldError(title[j], record[j], m[title[j]], FieldValue(title[j], record[j], m, parseFloat).error);
      assert RecordPrefix(title, record, m, parseFloat, n) == prev;
    } else {
      RecordPrefixSucceeds(title, record, m, parseFloat, n - 1);
      assert FirstUnconverted(title, record, m, parseFloat, n - 1);
    }
  }

  /** The first n names mapped to their values in order, so that a later name overwrites an earlier one. */
  function Overwrite<V>(title: seq<string>, vals: seq<V>, n: nat): map<string, V>
    requires n <= |title| && n <= |vals|
  {
    if n == 0 then map[] else Overwrite(title, vals, n - 1)[title[n - 1] := vals[n - 1]]
  }

  /** Overwriting keeps one key per name, holding the value at that name's last position. */
  lemma {:induction false} OverwriteLast<V>(title: seq<string>, vals: seq<V>, n: nat, name: string)
    requires n <= |title| && n <= |vals|
    ensures name in Overwrite(title, vals, n) <==> name in title[..n]
    ensures name in Overwrite(title, vals, n) ==> Overwrite(title, vals, n)[name] == vals[ColIndex(title[..n])[name]]
  {
    if n > 0 {
      OverwriteLast(title, vals, n - 1, name);
      ColIndexPrefixStep(title, n);
    }
  }

  /** The value each column converts to, or its raw text where it does not convert. */
  function ColumnValues(title: seq<string>, record: seq<string>, m: map<string, JType>,
                        parseFloat: string -> Result<real, NumErr>): (vals: seq<Value>)
    requires |title| <= |record|
    ensures |vals| == |title|
  {
    seq(|title|, j requires 0 <= j < |title| =>
      match FieldValue(title[j], record[j], m, parseFloat)
      case Success(v) => v
      case Failure(_) => StrVal(record[j]))
  }

  /** A successful convertRecord over n columns is their converted values, overwritten in order. */
  lemma {:induction false} RecordPrefixOverwrite(title: seq<string>, record: seq<string>, m: map<string, JType>,
                                                 parseFloat: string -> Result<real, NumErr>, n: nat)
    requires n <= |title| <= |record|
    requires RecordPrefix(title, record, m, parseFloat, n).Success?
    ensures RecordPrefix(title, record, m, parseFloat, n).value == Overwrite(title, ColumnValues(title, record, m, parseFloat), n)
  {
    if n > 0 {
      RecordPrefixOverwrite(title, record, m, parseFloat, n - 1);
    }
  }

  /**
   * A successful convertRecord over the first n columns has one key per
   * title name among them, holding the value of that name's last column.
   */
  lemma RecordPrefixMap(title: seq<string>, record: seq<string>, m: map<string, JType>,
                        parseFloat: string -> Result<real, NumErr>, n: nat, name: string)
    requires n <= |title| <= |record|
    requires RecordPrefix(title, record, m, parseFloat, n).Success?
    ensures var rm := RecordPrefix(title, record, m, parseFloat, n).value;
      (name in rm <==> name in title[..n])
      && (name in rm ==> FieldValue(name, record[ColIndex(title[..n])[name]], m, parseFloat) == Success(rm[name]))
  {
    var vals := ColumnValues(title, record, m, parseFloat);
    RecordPrefixOverwrite(title, record, m, parseFloat, n);
    OverwriteLast(title, vals, n, name);
    if name in title[..n] {
      var idx := ColIndex(title[..n])[name];
      assert title[idx] == title[..n][idx];
      RecordPrefixSucceeds(title, record, m, parseFloat, n);
      assert ColumnConverts(title, record, m, parseFloat, idx);
    }
  }

  /**
   * convertRecord: one entry per title column, in order, each converted to
   * the type the field-type map gives its name or kept as raw text; with
   * duplicate names the later column's value overwrites the earlier one.
   */
  method ConvertRecord(title: seq<string>, record: seq<string>, m: map<string, JType>,
                       parseFloat: string -> Result<real, NumErr>)
    returns (r: Result<map<string, Value>, FieldError>)
    requires |record| >= |title|
    ensures r == RecordPrefix(title, record, m, parseFloat, |title|)
  {
    var recordMap: map<string, Value> := map[];
    var j := 0;
    while j < |title|
      invariant 0 <= j <= |title|
      invariant RecordPrefix(title, record, m, parseFloat, j) == Success(recordMap)
    {
      var fieldName := title[j];
      var fieldValue := record[j];
      var afterFieldValue: Value;
      if fieldName in m {
        var fieldConvType := m[fieldName];
        var v := ConvType(fieldValue, fieldConvType, parseFloat);
        if v.Failure? {
          RecordPrefixStops(title, record, m, parseFloat, j + 1);
          return Failure(ConvertFieldError(fieldName, fieldValue, fieldConvType, v.error));
        }
        afterFieldValue := v.value;
      } else {
        afterFieldValue := StrVal(fieldValue);
      }
      recordMap := recordMap[fieldName := afterFieldValue];
      j := j + 1;
    }
    return Success(recordMap);
  }

  lemma {:induction false} RecordPrefixStops(title: seq<string>, record: seq<string>, m: map<string, JType>,
                                             parseFloat: string -> Result<real, NumErr>, n: nat)
    requires n <= |title| <= |record|
    requires RecordPrefix(title, record, m, parseFloat, n).Failure?
    ensures RecordPrefix(title, record, m, parseFloat, |title|) == RecordPrefix(title, record, m, parseFloat, n)
    decreases |title| - n
  {
    if n < |title| {
      RecordPrefixStops(title, record, m, parseFloat, n + 1);
    }
  }

  /**
   * The whole-record result: keys exactly the title names, each holding the
   * value of its last column, when every typed column converts.
   */
  lemma ConvertRecordMeaning(title: seq<string>, record: seq<string>, m: map<string, JType>,
                             parseFloat: string -> Result<real, NumErr>, name: string)
    requires |record| >= |title|
    ensures RecordPrefix(title, record, m, parseFloat, |title|).Success? <==>
      forall j :: 0 <= j < |title| ==> ColumnConverts(title, record, m, parseFloat, j)
    ensures RecordPrefix(title, record, m, parseFloat, |title|).Success? ==>
      var rm := RecordPrefix(title, record, m, parseFloat, |title|).value;
      (name in rm <==> name in title)
      && (name in rm ==> FieldValue(name, record[ColIndex(title)[name]], m, parseFloat) == Success(rm[name]))
      && (name in rm && name !in m ==> rm[name] == StrVal(record[ColIndex(title)[name]]))
    ensures RecordPrefix(title, record, m, parseFloat, |title|).Failure? ==>
      exists j :: 0 <= j < |title| && !ColumnConverts(title, record, m, parseFloat, j)
        && (forall i :: 0 <= i < j ==> ColumnConverts(title, record, m, parseFloat, i))
        && RecordPrefix(title, record, m, parseFloat, |title|).error ==
           ConvertFieldError(title[j], record[j], m[title[j]], FieldValue(title[j], record[j], m, parseFloat).error)
  {
    RecordPrefixSucceeds(title, record, m, parseFloat, |title|);
    assert title[..|title|] == title;
    if RecordPrefix(title, record, m, parseFloat, |title|).Success? {
      RecordPrefixMap(title, record, m, parseFloat, |title|, name);
    } else {
      RecordPrefixFirstError(title, record, m, parseFloat, |title|);
    }
  }

  /** Why to-json stops: a read error, a record of the wrong width, or a field that does not convert. */
  datatype JsonError =
    | TitleReadError(err: ReadResult)
    | RecordReadError(record: nat, msg: string)
    | ColumnCountMismatch(record: nat)
    | ConvertError(record: nat, cause: FieldError)

  /** One record of to-json: rejected unless as wide as the title, else convertRecord's result. */
  function ConvertRow(title: seq<string>, record: seq<string>, m: map<string, JType>,
                      parseFloat: string -> Result<real, NumErr>, i: nat): (r: Result<map<string, Value>, JsonError>)
    ensures |record| != |title| ==> r == Failure(ColumnCountMismatch(i))
    ensures |record| == |title| ==> (r.Success? <==> RecordPrefix(title, record, m, parseFloat, |title|).Success?)
  {
    if |record| != |title| then Failure(ColumnCountMismatch(i))
    else
      match RecordPrefix(title, record, m, parseFloat, |title|)
      case Failure(e) => Failure(ConvertError(i, e))
      case Success(rm) => Success(rm)
  }

  /** The k-th record after the title was read as a row and converted to `row`. */
  predicate Emitted(input: seq<ReadResult>, title: seq<string>, m: map<string, JType>,
                    parseFloat: string -> Result<real, NumErr>, k: nat, row: map<string, Value>)
  {
    ReadAt(input, k + 1).Row? && ConvertRow(title, ReadAt(input, k + 1).fields, m, parseFloat, k) == Success(row)
  }

  /**
   * convertToJson: reads the title, then converts record after record into
   * a map until EOF; the first read error, width mismatch or conversion
   * error is fatal, after the maps before it were written.
   */
  method ConvertToJson(input: seq<ReadResult>, m: map<string, JType>, parseFloat: string -> Result<real, NumErr>)
    returns (out: seq<map<string, Value>>, err: Option<JsonError>)
    ensures !ReadAt(input, 0).Row? ==> out == [] && err == Some(TitleReadError(ReadAt(input, 0)))
    ensures ReadAt(input, 0).Row? ==>
      var title := ReadAt(input, 0).fields;
      && (forall k :: 0 <= k < |out| ==> Emitted(input, title, m, parseFloat, k, out[k]))
      && (err.None? <==> ReadAt(input, |out| + 1) == Eof)
      && (err.Some? ==> match ReadAt(input, |out| + 1)
            case Eof => false
            case ReadError(msg) => err.value == RecordReadError(|out|, msg)
            case Row(fields) => ConvertRow(title, fields, m, parseFloat, |out|) == Failure(err.value))
  {
    var first := ReadAt(input, 0);
    if !first.Row? {
      return [], Some(TitleReadError(first));
    }
    var title := first.fields;
    out := [];
    var i := 0;
    while true
      invariant 0 <= i <= |input| && i == |out|
      invariant forall k :: 0 <= k < |out| ==> Emitted(input, title, m, parseFloat, k, out[k])
      decreases |input| - i
    {
      var record := ReadAt(input, i + 1);
      if record.Eof? {
        return out, None;
      }
      if record.ReadError? {
        return out, Some(RecordReadError(i, record.msg));
      }
      if |record.fields| != |title| {
        assert ConvertRow(title, record.fields, m, parseFloat, i) == Failure(ColumnCountMismatch(i));
        return out, Some(ColumnCountMismatch(i));
      }
      var recordMap := ConvertRecord(title, record.fields, m, parseFloat);
      if recordMap.Failure? {
        assert ConvertRow(title, record.fields, m, parseFloat, i) == Failure(ConvertError(i, recordMap.error));
        return out, Some(ConvertError(i, recordMap.error));
      }
      assert ConvertRow(title, record.fields, m, parseFloat, i) == Success(recordMap.value);
      ghost var before := out;
      out := out + [recordMap.value];
      assert Emitted(input, title, m, parseFloat, i, recordMap.value);
      assert forall k :: 0 <= k < |before| ==> out[k] == before[k];
      i := i + 1;
    }
  }
}
