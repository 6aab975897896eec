/**
 * The sort command of the csv tool: one comparator per --field, in the order
 * given, composed lexicographically and optionally reversed; then the
 * records are reordered by it while the header stays as it is.
 *
 * sort.Slice is modelled as an ideal sort, a stable insertion sort on the
 * sequence of records; its result is proved to be a permutation of the
 * records that the comparator orders.
 */
module CsvSort {
  import opened Wrappers
  import opened CsvComparator
  import opened CsvTypes
  import opened CsvCommon

  /** The type a sort field is compared as: its --field-type, or string (Go's zero value) when none is given. */
  function FieldType(m: map<string, JType>, field: string): JType
  {
    if field in m then m[field] else Str
  }

  /** Why a record's sort key cannot be had: the column is missing, or its text does not convert. */
  datatype KeyError = IndexOutOfRange(idx: int) | Unconvertible(value: string, t: JType, cause: ConvError)

  /** The sort key of one record: its idx-th field converted to `t`. */
  function FieldKey(rec: CsvRecord, idx: int, t: JType, parseFloat: string -> Result<real, NumErr>): (r: Result<Value, KeyError>)
    ensures r.Success? ==> HasType(r.value, t)
    ensures r.Success? <==> 0 <= idx < |rec.fields| && ConvType(rec.fields[idx], t, parseFloat).Success?
    ensures r.Success? ==> ConvType(rec.fields[idx], t, parseFloat) == Success(r.value)
    ensures !(0 <= idx < |rec.fields|) ==> r == Failure(IndexOutOfRange(idx))
    ensures 0 <= idx < |rec.fields| && r.Failure? ==>
      r == Failure(Unconvertible(rec.fields[idx], t, ConvType(rec.fields[idx], t, parseFloat).error))
  {
    if !(0 <= idx < |rec.fields|) then Failure(IndexOutOfRange(idx))
    else
      match ConvType(rec.fields[idx], t, parseFloat)
      case Success(v) => Success(v)
      case Failure(e) => Failure(Unconvertible(rec.fields[idx], t, e))
  }

  /**
   * cmpField's switch on the converted values: bools as 0/1, ints, floats
   * and strings by cmpValue. Both values come from the same column type, so
   * values of different kinds never meet.
   */
  function CmpValues(a: Value, b: Value): int
  {
    match (a, b)
    case (BoolVal(x), BoolVal(y)) => CmpValue(BoolAsInt(x), BoolAsInt(y), IntGreater)
    case (IntVal(x), IntVal(y)) => CmpValue(x, y, IntGreater)
    case (FloatVal(x), FloatVal(y)) => CmpValue(x, y, RealGreater)
    case (StrVal(x), StrVal(y)) => CmpValue(x, y, StrGreater)
    case _ => 0
  }

  /**
   * cmpField: compares two records by their idx-th field converted to `t`.
   * Records whose key does not convert compare as equal; the sort never
   * reaches them, since it fails first.
   */
  function CmpField(idx: int, t: JType, parseFloat: string -> Result<real, NumErr>): (CsvRecord, CsvRecord) -> int
  {
    (r1: CsvRecord, r2: CsvRecord) =>
      var k1 := FieldKey(r1, idx, t, parseFloat);
      var k2 := FieldKey(r2, idx, t, parseFloat);
      if k1.Success? && k2.Success? then CmpValues(k1.value, k2.value) else 0
  }

  /**
   * What cmpField means for each column type: false before true, ints and
   * floats by value, strings lexicographically; 0 exactly for equal keys.
   */
  lemma CmpFieldMeaning(idx: int, t: JType, parseFloat: string -> Result<real, NumErr>, r1: CsvRecord, r2: CsvRecord)
    requires FieldKey(r1, idx, t, parseFloat).Success? && FieldKey(r2, idx, t, parseFloat).Success?
    ensures var a, b := FieldKey(r1, idx, t, parseFloat).value, FieldKey(r2, idx, t, parseFloat).value;
      var c := CmpField(idx, t, parseFloat)(r1, r2);
      && (c == 0 <==> a == b)
      && (c == -1 || c == 0 || c == 1)
      && (t == Bool ==> (c < 0 <==> !a.b && b.b))
      && (t == Int ==> (c < 0 <==> a.i < b.i))
      && (t == Float ==> (c < 0 <==> a.f < b.f))
      && (t == Str ==> (c < 0 <==> StrLess(a.s, b.s)))
  {
    var a, b := FieldKey(r1, idx, t, parseFloat).value, FieldKey(r2, idx, t, parseFloat).value;
    if t == Str {
      StrLessStrict(a.s, b.s);
      CmpValueMeaning(a.s, b.s, StrGreater);
    }
  }

  /** Three-way comparison of same-kind values is antisymmetric and transitive. */
  lemma CmpValuesPreorder(a: Value, b: Value, c: Value, t: JType)
    requires HasType(a, t) && HasType(b, t) && HasType(c, t)
    ensures CmpValues(a, b) == -CmpValues(b, a)
    ensures CmpValues(a, b) <= 0 && CmpValues(b, c) <= 0 ==> CmpValues(a, c) <= 0
  {
    if t == Str {
      StrCmpPreorder(a.s, b.s, c.s);
    }
  }

  /** On records whose key converts, cmpField is a total preorder. */
  lemma CmpFieldPreorder(idx: int, t: JType, parseFloat: string -> Result<real, NumErr>, dom: set<CsvRecord>)
    requires forall r :: r in dom ==> FieldKey(r, idx, t, parseFloat).Success?
    ensures PreorderOn(CmpField(idx, t, parseFloat), dom)
  {
    var cmp := CmpField(idx, t, parseFloat);
    forall r1, r2, r3 | r1 in dom && r2 in dom && r3 in dom
      ensures cmp(r1, r2) == -cmp(r2, r1)
      ensures cmp(r1, r2) <= 0 && cmp(r2, r3) <= 0 ==> cmp(r1, r3) <= 0
    {
      CmpValuesPreorder(FieldKey(r1, idx, t, parseFloat).value, FieldKey(r2, idx, t, parseFloat).value,
                        FieldKey(r3, idx, t, parseFloat).value, t);
    }
    assert AntisymmetricOn(cmp, dom) by {
      forall r1, r2 | r1 in dom && r2 in dom ensures cmp(r1, r2) == -cmp(r2, r1) {
        CmpValuesPreorder(FieldKey(r1, idx, t, parseFloat).value, FieldKey(r2, idx, t, parseFloat).value,
                          FieldKey(r2, idx, t, parseFloat).value, t);
      }
    }
  }

  /** The (column, type) pair a sort field is compared by. */
  function SortKey(colIdx: map<string, int>, m: map<string, JType>, field: string): (int, JType)
  {
    (ColumnOf(colIdx, field), FieldType(m, field))
  }

  /** The comparators sort builds, one per field, in the order of the --field list. */
  function Comparators(fields: seq<string>, colIdx: map<string, int>, m: map<string, JType>,
                       parseFloat: string -> Result<real, NumErr>): (cs: seq<(CsvRecord, CsvRecord) -> int>)
    ensures |cs| == |fields|
  {
    seq(|fields|, k requires 0 <= k < |fields| =>
      CmpField(SortKey(colIdx, m, fields[k]).0, SortKey(colIdx, m, fields[k]).1, parseFloat))
  }

  /** One more --field option adds its comparator at the end. */
  lemma ComparatorsSnoc(fields: seq<string>, i: nat, colIdx: map<string, int>, m: map<string, JType>,
                        parseFloat: string -> Result<real, NumErr>)
    requires i < |fields|
    ensures Comparators(fields[..i + 1], colIdx, m, parseFloat) ==
      Comparators(fields[..i], colIdx, m, parseFloat) + [CmpField(ColumnOf(colIdx, fields[i]), FieldType(m, fields[i]), parseFloat)]
  {
    var longer := Comparators(fields[..i + 1], colIdx, m, parseFloat);
    var shorter := Comparators(fields[..i], colIdx, m, parseFloat);
    forall k | 0 <= k < i ensures longer[k] == shorter[k] {
      assert fields[..i + 1][k] == fields[..i][k];
    }
    assert longer[i] == CmpField(ColumnOf(colIdx, fields[i]), FieldType(m, fields[i]), parseFloat);
  }

  /** The comparator sort orders by: seqCmp of the field comparators, reversed under --reverse. */
  function SortCmp(fields: seq<string>, colIdx: map<string, int>, m: map<string, JType>, reverse: bool,
                   parseFloat: string -> Result<real, NumErr>): (CsvRecord, CsvRecord) -> int
  {
    var cmp := SeqCmp(Comparators(fields, colIdx, m, parseFloat));
    if reverse then Reverse(cmp) else cmp
  }

  /** Every sort key of every record converts. */
  predicate KeysConvert(recs: seq<CsvRecord>, fields: seq<string>, colIdx: map<string, int>, m: map<string, JType>,
                        parseFloat: string -> Result<real, NumErr>)
  {
    forall i, k :: 0 <= i < |recs| && 0 <= k < |fields| ==>
      FieldKey(recs[i], SortKey(colIdx, m, fields[k]).0, SortKey(colIdx, m, fields[k]).1, parseFloat).Success?
  }

  /** --reverse negates the whole composite comparator, so the greater records come first. */
  lemma ReverseFlag(fields: seq<string>, colIdx: map<string, int>, m: map<string, JType>,
                    parseFloat: string -> Result<real, NumErr>, a: CsvRecord, b: CsvRecord)
    ensures SortCmp(fields, colIdx, m, true, parseFloat)(a, b) == -SortCmp(fields, colIdx, m, false, parseFloat)(a, b)
  {
  }

  /**
   * The first --field on which two records differ decides their order; with
   * no --field every pair of records compares equal.
   */
  lemma FirstFieldDecides(fields: seq<string>, colIdx: map<string, int>, m: map<string, JType>,
                          parseFloat: string -> Result<real, NumErr>, a: CsvRecord, b: CsvRecord, k: nat)
    requires k < |fields|
    requires Comparators(fields, colIdx, m, parseFloat)[k](a, b) != 0
    requires forall j :: 0 <= j < k ==> Comparators(fields, colIdx, m, parseFloat)[j](a, b) == 0
    ensures SortCmp(fields, colIdx, m, false, parseFloat)(a, b) == Comparators(fields, colIdx, m, parseFloat)[k](a, b)
    ensures SortCmp([], colIdx, m, false, parseFloat)(a, b) == 0
  {
    SeqCmpPriority(Comparators(fields, colIdx, m, parseFloat), a, b, k);
  }

  /** When every key converts, the sort comparator is a total preorder on the records. */
  lemma SortCmpPreorder(recs: seq<CsvRecord>, fields: seq<string>, colIdx: map<string, int>, m: map<string, JType>,
                        reverse: bool, parseFloat: string -> Result<real, NumErr>)
    requires KeysConvert(recs, fields, colIdx, m, parseFloat)
    ensures PreorderOn(SortCmp(fields, colIdx, m, reverse, parseFloat), set r | r in recs)
  {
    var dom := set r | r in recs;
    var cs := Comparators(fields, colIdx, m, parseFloat);
    forall k | 0 <= k < |cs| ensures PreorderOn(cs[k], dom) {
      var key := SortKey(colIdx, m, fields[k]);
      forall r | r in dom ensures FieldKey(r, key.0, key.1, parseFloat).Success? {
        var i :| 0 <= i < |recs| && recs[i] == r;
      }
      CmpFieldPreorder(key.0, key.1, parseFloat, dom);
    }
    SeqCmpPreorder(cs, dom);
    if reverse {
      ReversePreorder(SeqCmp(cs), dom);
    }
  }

  /** Insert x into s before the first element it is not greater than. */
  function Insert<T>(x: T, s: seq<T>, cmp: (T, T) -> int): seq<T>
  {
    if s == [] then [x]
    else if cmp(x, s[0]) <= 0 then [x] + s
    else [s[0]] + Insert(x, s[1..], cmp)
  }

  /** Insertion sort: the ideal sort that sort.Slice stands for. */
  function SortBy<T>(s: seq<T>, cmp: (T, T) -> int): seq<T>
  {
    if s == [] then [] else Insert(s[0], SortBy(s[1..], cmp), cmp)
  }

  /** Every pair of elements is in order. */
  ghost predicate SortedBy<T>(s: seq<T>, cmp: (T, T) -> int)
  {
    forall i, j :: 0 <= i < j < |s| ==> cmp(s[i], s[j]) <= 0
  }

  lemma {:induction false} InsertPermutes<T>(x: T, s: seq<T>, cmp: (T, T) -> int)
    ensures multiset(Insert(x, s, cmp)) == multiset(s) + multiset{x}
  {
    if s != [] && cmp(x, s[0]) > 0 {
      InsertPermutes(x, s[1..], cmp);
      assert s == [s[0]] + s[1..];
    }
  }

  /** A sorted sequence stays sorted behind an element not greater than any of its elements. */
  lemma SortedCons<T>(h: T, t: seq<T>, cmp: (T, T) -> int)
    requires SortedBy(t, cmp)
    requires forall k :: 0 <= k < |t| ==> cmp(h, t[k]) <= 0
    ensures SortedBy([h] + t, cmp)
  {
    var r := [h] + t;
    forall i, j | 0 <= i < j < |r| ensures cmp(r[i], r[j]) <= 0 {
      assert r[j] == t[j - 1];
      if i > 0 {
        assert r[i] == t[i - 1];
      }
    }
  }

  /** Putting x in front keeps a sorted sequence sorted when x is not greater than its head. */
  lemma InsertFront<T(!new)>(x: T, s: seq<T>, cmp: (T, T) -> int, dom: set<T>)
    requires PreorderOn(cmp, dom) && x in dom
    requires forall k :: 0 <= k < |s| ==> s[k] in dom
    requires SortedBy(s, cmp) && s != [] && cmp(x, s[0]) <= 0
    ensures SortedBy([x] + s, cmp)
  {
    forall k | 0 <= k < |s| ensures cmp(x, s[k]) <= 0 {
      if k > 0 {
        assert cmp(s[0], s[k]) <= 0;
        assert TransitiveOn(cmp, dom);
      }
    }
    SortedCons(x, s, cmp);
  }

  /** The head of s is not greater than anything an insertion into its tail holds, when x is greater than the head. */
  lemma InsertBehind<T(!new)>(x: T, s: seq<T>, cmp: (T, T) -> int, dom: set<T>)
    requires PreorderOn(cmp, dom) && x in dom
    requires s != [] && s[0] in dom
    requires SortedBy(s, cmp) && cmp(x, s[0]) > 0
    ensures forall k :: 0 <= k < |Insert(x, s[1..], cmp)| ==> cmp(s[0], Insert(x, s[1..], cmp)[k]) <= 0
  {
    var rest := Insert(x, s[1..], cmp);
    InsertPermutes(x, s[1..], cmp);
    forall k | 0 <= k < |rest| ensures cmp(s[0], rest[k]) <= 0 {
      var e := rest[k];
      assert e in multiset(rest);
      if e == x {
        assert AntisymmetricOn(cmp, dom);
        assert cmp(s[0], x) == -cmp(x, s[0]);
      } else {
        assert e in multiset(s[1..]);
        var j :| 0 <= j < |s[1..]| && s[1..][j] == e;
        assert cmp(s[0], s[j + 1]) <= 0;
      }
    }
  }

  /** Inserting into a sorted sequence keeps it sorted. */
  lemma {:induction false} InsertSorted<T(!new)>(x: T, s: seq<T>, cmp: (T, T) -> int, dom: set<T>)
    requires PreorderOn(cmp, dom) && x in dom
    requires forall k :: 0 <= k < |s| ==> s[k] in dom
    requires SortedBy(s, cmp)
    ensures SortedBy(Insert(x, s, cmp), cmp)
  {
    if s != [] {
      if cmp(x, s[0]) <= 0 {
        InsertFront(x, s, cmp, dom);
      } else {
        assert SortedBy(s[1..], cmp) by {
          forall i, j | 0 <= i < j < |s[1..]| ensures cmp(s[1..][i], s[1..][j]) <= 0 {
            assert s[1..][i] == s[i + 1] && s[1..][j] == s[j + 1];
          }
        }
        InsertSorted(x, s[1..], cmp, dom);
        InsertBehind(x, s, cmp, dom);
        SortedCons(s[0], Insert(x, s[1..], cmp), cmp);
      }
    }
  }

  /** The sort returns a permutation of its input. */
  lemma {:induction false} SortByPermutes<T>(s: seq<T>, cmp: (T, T) -> int)
    ensures multiset(SortBy(s, cmp)) == multiset(s)
  {
    if s != [] {
      SortByPermutes(s[1..], cmp);
      InsertPermutes(s[0], SortBy(s[1..], cmp), cmp);
      assert s == [s[0]] + s[1..];
    }
  }

  /** For a total preorder on the elements, the sort's result is ordered. */
  lemma {:induction false} SortBySorted<T(!new)>(s: seq<T>, cmp: (T, T) -> int, dom: set<T>)
    requires PreorderOn(cmp, dom)
    requires forall k :: 0 <= k < |s| ==> s[k] in dom
    ensures SortedBy(SortBy(s, cmp), cmp)
  {
    if s != [] {
      SortBySorted(s[1..], cmp, dom);
      var t := SortBy(s[1..], cmp);
      SortByPermutes(s[1..], cmp);
      forall k | 0 <= k < |t| ensures t[k] in dom {
        assert t[k] in multiset(s[1..]);
        var j :| 0 <= j < |s[1..]| && s[1..][j] == t[k];
      }
      InsertSorted(s[0], t, cmp, dom);
    }
  }

  /** Fewer than two records are never compared and come back as they were. */
  lemma SortByShort<T>(s: seq<T>, cmp: (T, T) -> int)
    requires |s| < 2
    ensures SortBy(s, cmp) == s
  {
  }

  /**
   * When every sort key converts, sorting yields a permutation of the
   * records in which no record is greater than any record after it.
   */
  lemma SortOrdersRecords(recs: seq<CsvRecord>, fields: seq<string>, colIdx: map<string, int>, m: map<string, JType>,
                          reverse: bool, parseFloat: string -> Result<real, NumErr>)
    requires KeysConvert(recs, fields, colIdx, m, parseFloat)
    ensures var cmp := SortCmp(fields, colIdx, m, reverse, parseFloat);
      multiset(SortBy(recs, cmp)) == multiset(recs) && SortedBy(SortBy(recs, cmp), cmp)
  {
    var cmp := SortCmp(fields, colIdx, m, reverse, parseFloat);
    SortCmpPreorder(recs, fields, colIdx, m, reverse, parseFloat);
    SortByPermutes(recs, cmp);
    SortBySorted(recs, cmp, set r | r in recs);
  }

  /** A failed sort: a record's key for some field does not convert. */
  datatype SortFailure = SortFailure(field: string, err: KeyError)

  /**
   * sort: builds one comparator per --field (the column its name selects,
   * the type --field-type gives it), composes and optionally reverses them,
   * and reorders the records in place. With two or more records a key
   * that does not convert is fatal and the records are left as they were.
   */
  method Sort(info: CsvInfo, fields: seq<string>, m: map<string, JType>, reverse: bool,
              parseFloat: string -> Result<real, NumErr>)
    returns (err: Option<SortFailure>)
    modifies info
    ensures info.header == old(info.header)
    ensures err.None? <==> |old(info.records)| < 2 || KeysConvert(old(info.records), fields, ColIndex(old(info.header)), m, parseFloat)
    ensures err.None? ==> info.records == SortBy(old(info.records), SortCmp(fields, ColIndex(old(info.header)), m, reverse, parseFloat))
    ensures err.Some? ==> info.records == old(info.records)
  {
    var header, recs := info.header, info.records;
    var cmp := BuildComparator(header, fields, m, reverse, parseFloat);
    if |recs| >= 2 {
      var fieldIdx := GetColIndex(header);
      err := FirstKeyFailure(recs, fields, fieldIdx, m, parseFloat);
      if err.Some? {
        return;
      }
    } else {
      err := None;
    }
    info.records := SortBy(recs, cmp);
  }

  /** The comparator sort builds: one cmpField per --field option, combined by seqCmp and reversed under --reverse. */
  method BuildComparator(header: seq<string>, fields: seq<string>, m: map<string, JType>, reverse: bool,
                         parseFloat: string -> Result<real, NumErr>)
    returns (cmp: (CsvRecord, CsvRecord) -> int)
    ensures cmp == SortCmp(fields, ColIndex(header), m, reverse, parseFloat)
  {
    var fieldIdx := GetColIndex(header);
    var comparators: seq<(CsvRecord, CsvRecord) -> int> := [];
    var i := 0;
    while i < |fields|
      invariant 0 <= i <= |fields|
      invariant comparators == Comparators(fields[..i], fieldIdx, m, parseFloat)
    {
      ComparatorsSnoc(fields, i, fieldIdx, m, parseFloat);
      comparators := comparators + [CmpField(ColumnOf(fieldIdx, fields[i]), FieldType(m, fields[i]), parseFloat)];
      i := i + 1;
    }
    assert fields[..i] == fields;
    cmp := SeqCmp(comparators);
    if reverse {
      cmp := Reverse(cmp);
    }
  }

  /** The first field, scanning record by record, whose key does not convert; None when all convert. */
  method FirstKeyFailure(recs: seq<CsvRecord>, fields: seq<string>, colIdx: map<string, int>, m: map<string, JType>,
                         parseFloat: string -> Result<real, NumErr>)
    returns (err: Option<SortFailure>)
    ensures err.None? <==> KeysConvert(recs, fields, colIdx, m, parseFloat)
    ensures err.Some? ==> err.value.field in fields
  {
    var i := 0;
    while i < |recs|
      invariant 0 <= i <= |recs|
      invariant KeysConvert(recs[..i], fields, colIdx, m, parseFloat)
    {
      var k := 0;
      while k < |fields|
        invariant 0 <= k <= |fields|
        invariant forall j :: 0 <= j < k ==>
          FieldKey(recs[i], SortKey(colIdx, m, fields[j]).0, SortKey(colIdx, m, fields[j]).1, parseFloat).Success?
      {
        var key := FieldKey(recs[i], ColumnOf(colIdx, fields[k]), FieldType(m, fields[k]), parseFloat);
        if key.Failure? {
          return Some(SortFailure(fields[k], key.error));
        }
        k := k + 1;
      }
      assert forall r :: 0 <= r < i + 1 ==> recs[..i + 1][r] == recs[r];
      i := i + 1;
    }
    assert recs[..i] == recs;
    return None;
  }
}
