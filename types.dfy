/**
 * Column types of the csv tool: the jType enumeration and its names, the
 * type-alias table, `<field>=<type>` option parsing, and the conversion of a
 * field's text to a typed value.
 *
 * strconv.ParseBool and strconv.ParseInt(s, 10, 64) are written out from
 * Go's documented grammar; strconv.ParseFloat is a parameter (`parseFloat`),
 * and a float is read as an exact real.
 */
module CsvTypes {
  import opened Wrappers

  /** jType is a Go int: any int is a jType, four of them are named. */
  newtype JType = int

  const Str: JType := 0
  const Bool: JType := 1
  const Int: JType := 2
  const Float: JType := 3

  /** The four named column types. */
  predicate Known(t: JType)
  {
    Str <= t <= Float
  }

  /** jType.String */
  function TypeName(t: JType): string
  {
    if t == Bool then "bool"
    else if t == Int then "int"
    else if t == Float then "float"
    else if t == Str then "string"
    else "<unknown>"
  }

  /** The error of a type string no alias names. */
  datatype TypeError = UnsupportedFieldType(typeStr: string)

  /** parseJType: the csv tool's alias table (exact, case-sensitive match). */
  function ParseJType(typeStr: string): Result<JType, TypeError>
  {
    if typeStr in {"string", "str", "s"} then Success(Str)
    else if typeStr in {"int", "i"} then Success(Int)
    else if typeStr in {"bool", "b", "boolean"} then Success(Bool)
    else if typeStr in {"float", "f", "double", "d"} then Success(Float)
    else Failure(UnsupportedFieldType(typeStr))
  }

  /** The aliases of each named type, as parseJType's switch accepts them. */
  function Aliases(t: JType): set<string>
  {
    if t == Str then {"string", "str", "s"}
    else if t == Int then {"int", "i"}
    else if t == Bool then {"bool", "b", "boolean"}
    else if t == Float then {"float", "f", "double", "d"}
    else {}
  }

  /**
   * A type string parses to `t` exactly when it is one of t's aliases; any
   * other string is an error naming it.
   */
  lemma ParseJTypeAliases(typeStr: string, t: JType)
    ensures ParseJType(typeStr) == Success(t) <==> typeStr in Aliases(t)
    ensures ParseJType(typeStr).Success? ==> Known(ParseJType(typeStr).value)
    ensures ParseJType(typeStr).Failure? ==> ParseJType(typeStr).error == UnsupportedFieldType(typeStr)
  {
  }

  /** Every named type parses back from its name. */
  lemma ParseJTypeRoundTrip(t: JType)
    requires Known(t)
    ensures ParseJType(TypeName(t)) == Success(t)
  {
  }

  /** An unnamed jType prints as <unknown>, which parses as no type. */
  lemma UnknownTypeName(t: JType)
    requires !Known(t)
    ensures TypeName(t) == "<unknown>"
    ensures ParseJType(TypeName(t)).Failure?
  {
  }

  /** The error kinds of strconv's number parsers. */
  datatype NumErr = ErrSyntax | ErrRange

  /** strconv.ParseBool */
  function ParseBool(s: string): Result<bool, NumErr>
  {
    if s in {"1", "t", "T", "TRUE", "true", "True"} then Success(true)
    else if s in {"0", "f", "F", "FALSE", "false", "False"} then Success(false)
    else Failure(ErrSyntax)
  }

  /** strconv.FormatBool */
  function FormatBool(b: bool): string
  {
    if b then "true" else "false"
  }

  lemma ParseBoolRoundTrip(b: bool)
    ensures ParseBool(FormatBool(b)) == Success(b)
  {
  }

  predicate IsDigit(c: char)
  {
    '0' <= c <= '9'
  }

  predicate AllDigits(s: string)
  {
    forall k :: 0 <= k < |s| ==> IsDigit(s[k])
  }

  function DigitValue(c: char): nat
    requires IsDigit(c)
  {
    (c as int) - ('0' as int)
  }

  /** The value of a decimal digit string, read left to right. */
  function DigitsValue(d: string): nat
    requires AllDigits(d)
  {
    if d == [] then 0 else 10 * DigitsValue(d[..|d| - 1]) + DigitValue(d[|d| - 1])
  }

  /** The length of the run of digits `s` starts with. */
  function LeadingDigits(s: string): (n: nat)
    ensures n <= |s| && AllDigits(s[..n])
    ensures n < |s| ==> !IsDigit(s[n])
  {
    if s == [] || !IsDigit(s[0]) then 0
    else
      var n := 1 + LeadingDigits(s[1..]);
      assert s[..n] == [s[0]] + s[1..][..n - 1];
      n
  }

  const MaxUint64: int := 0xFFFF_FFFF_FFFF_FFFF
  const MinInt64: int := -0x8000_0000_0000_0000
  const MaxInt64: int := 0x7FFF_FFFF_FFFF_FFFF

  /**
   * strconv.ParseUint(s, 10, 64): digits only, at least one. Digits are
   * read left to right, and overflow is reported as soon as the value read
   * so far exceeds 64 bits, before a later non-digit is reached.
   */
  function ParseUint10(s: string): Result<nat, NumErr>
  {
    if s == [] then Failure(ErrSyntax)
    else
      var n := LeadingDigits(s);
      if DigitsValue(s[..n]) > MaxUint64 then Failure(ErrRange)
      else if n < |s| then Failure(ErrSyntax)
      else Success(DigitsValue(s))
  }

  /** strconv.ParseInt(s, 10, 64): an optional sign, then ParseUint, then the int64 range check. */
  function ParseInt64(s: string): Result<int, NumErr>
  {
    if s == [] then Failure(ErrSyntax)
    else
      var neg := s[0] == '-';
      var body := if s[0] == '+' || s[0] == '-' then s[1..] else s;
      match ParseUint10(body)
      case Failure(e) => Failure(e)
      case Success(un) =>
        if !neg && un > MaxInt64 then Failure(ErrRange)
        else if neg && un > -MinInt64 then Failure(ErrRange)
        else Success(if neg then -(un as int) else un)
  }

  /** A decimal integer literal: an optional sign, then one or more digits. */
  predicate IntLiteral(s: string)
  {
    |s| > 0 &&
    var body := if s[0] == '+' || s[0] == '-' then s[1..] else s;
    |body| > 0 && AllDigits(body)
  }

  /** The value an integer literal denotes, unbounded. */
  function LiteralValue(s: string): int
    requires IntLiteral(s)
  {
    if s[0] == '-' then -(DigitsValue(s[1..]) as int)
    else if s[0] == '+' then DigitsValue(s[1..])
    else DigitsValue(s)
  }

  /**
   * ParseInt accepts exactly the integer literals whose value fits in 64
   * bits, and returns that value.
   */
  lemma ParseInt64Meaning(s: string)
    ensures ParseInt64(s).Success? <==> IntLiteral(s) && MinInt64 <= LiteralValue(s) <= MaxInt64
    ensures ParseInt64(s).Success? ==> ParseInt64(s).value == LiteralValue(s)
  {
    if s != [] {
      var body := if s[0] == '+' || s[0] == '-' then s[1..] else s;
      if body != [] {
        var n := LeadingDigits(body);
        if n == |body| {
          assert body[..n] == body;
        }
      }
    }
  }

  /** The range check of ParseInt: a parsed value always fits in an int64. */
  lemma ParseInt64InRange(s: string)
    ensures ParseInt64(s).Success? ==> MinInt64 <= ParseInt64(s).value <= MaxInt64
  {
  }

  /** A run of digits followed by a non-digit: the run is the leading digits. */
  lemma {:induction false} LeadingDigitsThen(d: string, c: char, rest: string)
    requires AllDigits(d) && !IsDigit(c)
    ensures LeadingDigits(d + [c] + rest) == |d|
  {
    if d != [] {
      assert (d + [c] + rest)[1..] == d[1..] + [c] + rest;
      LeadingDigitsThen(d[1..], c, rest);
    } else {
      assert (d + [c] + rest)[0] == c;
    }
  }

  /**
   * Overflow in the leading digits is reported as a range error even when a
   * non-digit follows them; a run that fits is followed by a syntax error.
   */
  lemma OverflowBeforeSyntax(d: string, c: char, rest: string)
    requires |d| > 0 && AllDigits(d) && !IsDigit(c)
    ensures DigitsValue(d) > MaxUint64 ==> ParseInt64(d + [c] + rest) == Failure(ErrRange)
    ensures DigitsValue(d) <= MaxUint64 ==> ParseInt64(d + [c] + rest) == Failure(ErrSyntax)
  {
    var s := d + [c] + rest;
    LeadingDigitsThen(d, c, rest);
    assert s[0] == d[0];
    assert s[..|d|] == d;
  }

  /** Twenty nines then "x" is out of range; "9x" is a syntax error. */
  lemma OverflowExamples()
    ensures ParseInt64(Nines(20) + "x") == Failure(ErrRange)
    ensures ParseInt64("9x") == Failure(ErrSyntax)
  {
    NinesValue(20);
    Pow10Big();
    OverflowBeforeSyntax(Nines(20), 'x', "");
    assert Nines(20) + ['x'] + "" == Nines(20) + "x";
    OverflowBeforeSyntax("9", 'x', "");
    assert "9" + ['x'] + "" == "9x";
  }

  lemma Pow10Big()
    ensures Pow10(20) == 100000000000000000000
  {
    assert Pow10(4) == 10000;
    assert Pow10(8) == 100000000;
    assert Pow10(12) == 1000000000000;
    assert Pow10(16) == 10000000000000000;
  }

  function Pow10(e: nat): nat
  {
    if e == 0 then 1 else 10 * Pow10(e - 1)
  }

  function Nines(k: nat): (s: string)
    ensures |s| == k && AllDigits(s)
  {
    seq(k, _ => '9')
  }

  lemma {:induction false} NinesValue(k: nat)
    ensures DigitsValue(Nines(k)) == Pow10(k) - 1
  {
    if k > 0 {
      assert Nines(k)[..k - 1] == Nines(k - 1);
      NinesValue(k - 1);
    }
  }

  /** strconv.FormatUint, base 10. */
  function NatString(n: nat): (s: string)
    ensures |s| > 0 && AllDigits(s)
  {
    var c := ('0' as int + n % 10) as char;
    if n < 10 then [c] else NatString(n / 10) + [c]
  }

  /** strconv.FormatInt, base 10. */
  function IntString(v: int): string
  {
    if v < 0 then "-" + NatString(-v) else NatString(v)
  }

  lemma {:induction false} NatStringValue(n: nat)
    ensures DigitsValue(NatString(n)) == n
  {
    var s := NatString(n);
    if n >= 10 {
      NatStringValue(n / 10);
      assert s[..|s| - 1] == NatString(n / 10);
    }
  }

  /** Every int64 parses back from its decimal form. */
  lemma ParseInt64RoundTrip(v: int)
    requires MinInt64 <= v <= MaxInt64
    ensures ParseInt64(IntString(v)) == Success(v)
  {
    var s := IntString(v);
    ParseInt64Meaning(s);
    if v < 0 {
      NatStringValue(-v);
      assert s[1..] == NatString(-v);
    } else {
      NatStringValue(v);
    }
  }

  /** A converted field value: the Go value convType hands back. */
  datatype Value = BoolVal(b: bool) | IntVal(i: int) | FloatVal(f: real) | StrVal(s: string)

  /** The value a conversion to `t` yields has t's kind. */
  predicate HasType(v: Value, t: JType)
  {
    match v
    case BoolVal(_) => t == Bool
    case IntVal(_) => t == Int
    case FloatVal(_) => t == Float
    case StrVal(_) => t == Str
  }

  /** Why a conversion failed: the number parser's error, or a jType with no conversion. */
  datatype ConvError = ParseError(err: NumErr) | UnsupportedType

  /** convType */
  function ConvType(value: string, t: JType, parseFloat: string -> Result<real, NumErr>): (r: Result<Value, ConvError>)
    ensures r.Success? ==> HasType(r.value, t)
    ensures t == Str ==> r == Success(StrVal(value))
    ensures !Known(t) <==> r == Failure(UnsupportedType)
    ensures t == Int ==> (r.Success? <==> IntLiteral(value) && MinInt64 <= LiteralValue(value) <= MaxInt64)
    ensures t == Int && r.Success? ==> IntLiteral(value) && r.value == IntVal(LiteralValue(value))
    ensures t == Bool ==> (r == Success(BoolVal(true)) <==> value in {"1", "t", "T", "TRUE", "true", "True"})
    ensures t == Bool ==> (r == Success(BoolVal(false)) <==> value in {"0", "f", "F", "FALSE", "false", "False"})
    ensures t == Bool ==> (r.Failure? <==> r == Failure(ParseError(ErrSyntax)))
    ensures t == Float ==> (r.Success? <==> parseFloat(value).Success?)
    ensures t == Float && r.Success? ==> r.value == FloatVal(parseFloat(value).value)
  {
    ParseInt64Meaning(value);
    if t == Bool then
      match ParseBool(value)
      case Success(b) => Success(BoolVal(b))
      case Failure(e) => Failure(ParseError(e))
    else if t == Float then
      match parseFloat(value)
      case Success(f) => Success(FloatVal(f))
      case Failure(e) => Failure(ParseError(e))
    else if t == Int then
      match ParseInt64(value)
      case Success(i) => Success(IntVal(i))
      case Failure(e) => Failure(ParseError(e))
    else if t == Str then Success(StrVal(value))
    else Failure(UnsupportedType)
  }

  /** Converting an int64's decimal form to Int gives that int back. */
  lemma ConvIntRoundTrip(v: int, parseFloat: string -> Result<real, NumErr>)
    requires MinInt64 <= v <= MaxInt64
    ensures ConvType(IntString(v), Int, parseFloat) == Success(IntVal(v))
  {
    ParseInt64RoundTrip(v);
  }

  /** The position of the first "=" in `s`, if any. */
  function FirstEq(s: string): (r: Option<nat>)
    ensures r.None? <==> '=' !in s
    ensures r.Some? ==> r.value < |s| && s[r.value] == '=' && '=' !in s[..r.value]
  {
    if s == [] then None
    else if s[0] == '=' then Some(0)
    else match FirstEq(s[1..])
      case None => None
      case Some(k) =>
        assert s[..k + 1] == [s[0]] + s[1..][..k];
        Some(k + 1)
  }

  /**
   * strings.SplitN(spec, "=", 2) when it yields two parts: the text before
   * the first "=" and everything after it.
   */
  function SplitSpec(spec: string): (r: Option<(string, string)>)
    ensures r.None? <==> '=' !in spec
    ensures r.Some? ==> spec == r.value.0 + "=" + r.value.1 && '=' !in r.value.0
  {
    match FirstEq(spec)
    case None => None
    case Some(k) =>
      assert spec == spec[..k] + "=" + spec[k + 1..];
      Some((spec[..k], spec[k + 1..]))
  }

  /** A field with no "=" and any type text are recovered from `field=type`. */
  lemma SplitSpecJoin(field: string, typeStr: string)
    requires '=' !in field
    ensures SplitSpec(field + "=" + typeStr) == Some((field, typeStr))
  {
    var spec := field + "=" + typeStr;
    var k := FirstEq(spec).value;
    assert spec[..|field|] == field && spec[|field|] == '=';
    assert spec[..k] == field;
    assert spec[k + 1..] == typeStr;
  }

  /** The fatal errors of option parsing: no "=", or a type no alias names. */
  datatype SpecError = InvalidOption(spec: string) | InvalidFieldType(spec: string, cause: TypeError)

  /** One `<field>=<type>` option, parsed with the alias table `parse`. */
  function ParseSpec(spec: string, parse: string -> Result<JType, TypeError>): Result<(string, JType), SpecError>
  {
    match SplitSpec(spec)
    case None => Failure(InvalidOption(spec))
    case Some((field, typeStr)) =>
      match parse(typeStr)
      case Failure(e) => Failure(InvalidFieldType(spec, e))
      case Success(t) => Success((field, t))
  }

  /**
   * An option parses to (field, t) exactly when it is `field=typeStr` with no
   * "=" in field and typeStr an alias of t; without "=" it is an invalid option.
   */
  lemma ParseSpecMeaning(spec: string, parse: string -> Result<JType, TypeError>, field: string, typeStr: string)
    requires '=' !in field
    ensures ParseSpec(spec, parse) == Failure(InvalidOption(spec)) <==> '=' !in spec
    ensures spec == field + "=" + typeStr ==>
      (ParseSpec(spec, parse).Success? <==> parse(typeStr).Success?) &&
      (ParseSpec(spec, parse).Success? ==> ParseSpec(spec, parse).value == (field, parse(typeStr).value))
  {
    if spec == field + "=" + typeStr {
      SplitSpecJoin(field, typeStr);
    }
  }

  /** Each option, parsed on its own. */
  function ParseAll(convert: seq<string>, parse: string -> Result<JType, TypeError>): (r: seq<Result<(string, JType), SpecError>>)
    ensures |r| == |convert|
    ensures forall k :: 0 <= k < |convert| ==> r[k] == ParseSpec(convert[k], parse)
  {
    seq(|convert|, k requires 0 <= k < |convert| => ParseSpec(convert[k], parse))
  }

  /** The field-type map built from parsed options in order, or the first error among them. */
  function Fold(parsed: seq<Result<(string, JType), SpecError>>): Result<map<string, JType>, SpecError>
  {
    if parsed == [] then Success(map[])
    else
      match Fold(parsed[..|parsed| - 1])
      case Failure(e) => Failure(e)
      case Success(m) =>
        match parsed[|parsed| - 1]
        case Failure(e) => Failure(e)
        case Success((field, t)) => Success(m[field := t])
  }

  /** The field-type map after the options `convert`, in order, or the first fatal error. */
  function ConversionTypes(convert: seq<string>, parse: string -> Result<JType, TypeError>): Result<map<string, JType>, SpecError>
  {
    Fold(ParseAll(convert, parse))
  }

  /** Parsed option k names `field`. */
  predicate Names(parsed: seq<Result<(string, JType), SpecError>>, k: int, field: string)
    requires 0 <= k < |parsed|
  {
    parsed[k].Success? && parsed[k].value.0 == field
  }

  /** The fold succeeds exactly when every option parsed; otherwise it has the first option's error. */
  lemma {:induction false} FoldFails(parsed: seq<Result<(string, JType), SpecError>>)
    ensures Fold(parsed).Success? <==> forall k :: 0 <= k < |parsed| ==> parsed[k].Success?
    ensures Fold(parsed).Failure? ==>
      exists k :: 0 <= k < |parsed| && parsed[k] == Failure(Fold(parsed).error)
        && forall j :: 0 <= j < k ==> parsed[j].Success?
  {
    if parsed != [] {
      var n := |parsed| - 1;
      var init := parsed[..n];
      FoldFails(init);
      assert forall k :: 0 <= k < n ==> init[k] == parsed[k];
      if Fold(init).Failure? {
        var k :| 0 <= k < n && init[k] == Failure(Fold(init).error)
          && forall j :: 0 <= j < k ==> init[j].Success?;
        assert parsed[k] == Failure(Fold(parsed).error);
      }
    }
  }

  /** A successful fold types exactly the fields some option names. */
  lemma {:induction false} FoldKeys(parsed: seq<Result<(string, JType), SpecError>>, field: string)
    requires Fold(parsed).Success?
    ensures field in Fold(parsed).value <==> exists k :: 0 <= k < |parsed| && Names(parsed, k, field)
  {
    if parsed != [] {
      var n := |parsed| - 1;
      var init := parsed[..n];
      FoldKeys(init, field);
      assert forall k :: 0 <= k < n ==> init[k] == parsed[k];
      if field == parsed[n].value.0 {
        assert Names(parsed, n, field);
      } else if exists k :: 0 <= k < |parsed| && Names(parsed, k, field) {
        var k :| 0 <= k < |parsed| && Names(parsed, k, field);
        assert k < n && Names(init, k, field);
      }
      if field in Fold(init).value {
        var k :| 0 <= k < n && Names(init, k, field);
        assert Names(parsed, k, field);
      }
    }
  }

  /** In a successful fold, a field's type is the one given by the last option naming it. */
  lemma {:induction false} FoldLastWins(parsed: seq<Result<(string, JType), SpecError>>, field: string)
    requires Fold(parsed).Success? && field in Fold(parsed).value
    ensures exists k :: 0 <= k < |parsed| && parsed[k] == Success((field, Fold(parsed).value[field]))
                        && forall j :: k < j < |parsed| ==> !Names(parsed, j, field)
  {
    var n := |parsed| - 1;
    var init := parsed[..n];
    if field == parsed[n].value.0 {
      assert parsed[n] == Success((field, Fold(parsed).value[field]));
    } else {
      FoldLastWins(init, field);
      var k :| 0 <= k < n && init[k] == Success((field, Fold(init).value[field]))
        && forall j :: k < j < n ==> !Names(init, j, field);
      assert parsed[k] == init[k];
      forall j | k < j < |parsed| ensures !Names(parsed, j, field) {
        if j < n {
          assert init[j] == parsed[j];
          assert !Names(init, j, field);
        }
      }
    }
  }

  /**
   * Option parsing succeeds exactly when every option parses, and then types
   * exactly the fields the options name, each with the type of the last
   * option naming it; otherwise it fails with the first bad option's error.
   */
  lemma ConversionTypesMeaning(convert: seq<string>, parse: string -> Result<JType, TypeError>, field: string)
    ensures ConversionTypes(convert, parse).Success? <==>
      forall k :: 0 <= k < |convert| ==> ParseSpec(convert[k], parse).Success?
    ensures ConversionTypes(convert, parse).Failure? ==>
      exists k :: 0 <= k < |convert| && ParseSpec(convert[k], parse) == Failure(ConversionTypes(convert, parse).error)
        && forall j :: 0 <= j < k ==> ParseSpec(convert[j], parse).Success?
    ensures ConversionTypes(convert, parse).Success? ==>
      (field in ConversionTypes(convert, parse).value <==>
        exists k :: 0 <= k < |convert| && Names(ParseAll(convert, parse), k, field))
    ensures ConversionTypes(convert, parse).Success? && field in ConversionTypes(convert, parse).value ==>
      exists k :: 0 <= k < |convert|
        && ParseSpec(convert[k], parse) == Success((field, ConversionTypes(convert, parse).value[field]))
        && forall j :: k < j < |convert| ==> !Names(ParseAll(convert, parse), j, field)
  {
    var parsed := ParseAll(convert, parse);
    FoldFails(parsed);
    if Fold(parsed).Success? {
      FoldKeys(parsed, field);
      if field in Fold(parsed).value {
        FoldLastWins(parsed, field);
      }
    }
  }

  /** When a field is named by two options in a row, the second decides its type. */
  lemma LastSpecWins(convert: seq<string>, parse: string -> Result<JType, TypeError>, field: string, t1: JType, t2: JType)
    requires '=' !in field
    requires parse(TypeName(t1)) == Success(t1) && parse(TypeName(t2)) == Success(t2)
    requires ConversionTypes(convert, parse).Success?
    ensures var all := convert + [field + "=" + TypeName(t1), field + "=" + TypeName(t2)];
      ConversionTypes(all, parse).Success? && field in ConversionTypes(all, parse).value
      && ConversionTypes(all, parse).value[field] == t2
  {
    var spec1, spec2 := field + "=" + TypeName(t1), field + "=" + TypeName(t2);
    var all := convert + [spec1, spec2];
    SplitSpecJoin(field, TypeName(t1));
    SplitSpecJoin(field, TypeName(t2));
    var parsed := ParseAll(all, parse);
    var n := |all| - 1;
    assert parsed[n] == Success((field, t2));
    assert parsed[n - 1] == Success((field, t1));
    assert parsed[..n][..n - 1] == ParseAll(convert, parse);
    assert Fold(parsed[..n][..n - 1]).Success?;
    assert parsed[..n][n - 1] == Success((field, t1));
    assert Fold(parsed[..n]).Success?;
  }

  /**
   * parseFieldConversionTypes: parses every option in order into the
   * field-type map; a later option for the same field overrides an earlier
   * one, and the first malformed option is fatal.
   */
  method ParseFieldConversionTypes(convert: seq<string>, parse: string -> Result<JType, TypeError>)
    returns (r: Result<map<string, JType>, SpecError>)
    ensures r == ConversionTypes(convert, parse)
  {
    ghost var parsed := ParseAll(convert, parse);
    var m: map<string, JType> := map[];
    var i := 0;
    while i < |convert|
      invariant 0 <= i <= |convert|
      invariant Fold(parsed[..i]) == Success(m)
    {
      assert parsed[..i + 1][..i] == parsed[..i];
      var spec := convert[i];
      var split := SplitSpec(spec);
      if split.None? {
        FoldStopsAtFailure(parsed, i + 1);
        return Failure(InvalidOption(spec));
      }
      var field, typeStr := split.value.0, split.value.1;
      var fieldType := parse(typeStr);
      if fieldType.Failure? {
        FoldStopsAtFailure(parsed, i + 1);
        return Failure(InvalidFieldType(spec, fieldType.error));
      }
      m := m[field := fieldType.value];
      i := i + 1;
    }
    assert parsed[..i] == parsed;
    return Success(m);
  }

  /** Once a prefix of the options fails, the whole list fails with the same error. */
  lemma {:induction false} FoldStopsAtFailure(parsed: seq<Result<(string, JType), SpecError>>, i: nat)
    requires i <= |parsed| && Fold(parsed[..i]).Failure?
    ensures Fold(parsed) == Fold(parsed[..i])
    decreases |parsed| - i
  {
    if i < |parsed| {
      assert parsed[..i + 1][..i] == parsed[..i];
      FoldStopsAtFailure(parsed, i + 1);
    } else {
      assert parsed[..i] == parsed;
    }
  }
}
