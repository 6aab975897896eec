/**
 * The standalone csv_to_json tool. Its type names, field conversion, record
 * conversion, option parsing and conversion loop are the csv tool's (modules
 * CsvTypes and CsvMain); only its alias table differs, and that table is
 * what this module defines and compares with the csv tool's.
 */
module CsvToJson {
  import opened Wrappers
  import opened CsvTypes

  /** parseJType of csv_to_json: "str" and "string" but not "s"; "double" but not "d". */
  function ParseJType(typeStr: string): Result<JType, TypeError>
  {
    if typeStr in {"str", "string"} then Success(Str)
    else if typeStr in {"int", "i"} then Success(Int)
    else if typeStr in {"bool", "b", "boolean"} then Success(Bool)
    else if typeStr in {"float", "f", "double"} then Success(Float)
    else Failure(UnsupportedFieldType(typeStr))
  }

  /** The aliases csv_to_json accepts for each named type. */
  function Aliases(t: JType): set<string>
  {
    if t == Str then {"str", "string"}
    else if t == Int then {"int", "i"}
    else if t == Bool then {"bool", "b", "boolean"}
    else if t == Float then {"float", "f", "double"}
    else {}
  }

  /**
   * A type string parses to `t` exactly when it is one of t's aliases; any
   * other string is an error naming it.
   */
  lemma ParseJTypeAliases(typeStr: string, t: JType)
    ensures ParseJType(typeStr) == Success(t) <==> typeStr in Aliases(t)
    ensures ParseJType(typeStr).Success? ==> Known(ParseJType(typeStr).value)
    ensures ParseJType(typeStr).Failure? ==> ParseJType(typeStr).error == UnsupportedFieldType(typeStr)
  {
  }

  /** Every named type parses back from its name. */
  lemma ParseJTypeRoundTrip(t: JType)
    requires Known(t)
    ensures ParseJType(TypeName(t)) == Success(t)
  {
  }

  /**
   * The two tools read every type string alike except the short forms "s"
   * and "d", which only the csv tool accepts.
   */
  lemma TablesAgree(typeStr: string)
    ensures typeStr != "s" && typeStr != "d" ==> ParseJType(typeStr) == CsvTypes.ParseJType(typeStr)
    ensures typeStr == "s" ==> ParseJType(typeStr).Failure? && CsvTypes.ParseJType(typeStr) == Success(Str)
    ensures typeStr == "d" ==> ParseJType(typeStr).Failure? && CsvTypes.ParseJType(typeStr) == Success(Float)
  {
  }

  /** Option `spec` does not use a type string the two tables read differently. */
  predicate PortableSpec(spec: string)
  {
    match SplitSpec(spec)
    case None => true
    case Some((_, typeStr)) => typeStr != "s" && typeStr != "d"
  }

  /**
   * Options that avoid "s" and "d" give both tools the same field-type map,
   * or the same fatal error.
   */
  lemma SameConversionTypes(convert: seq<string>)
    requires forall k :: 0 <= k < |convert| ==> PortableSpec(convert[k])
    ensures ConversionTypes(convert, ParseJType) == ConversionTypes(convert, CsvTypes.ParseJType)
  {
    var mine, theirs := ParseAll(convert, ParseJType), ParseAll(convert, CsvTypes.ParseJType);
    forall k | 0 <= k < |convert| ensures mine[k] == theirs[k] {
      match SplitSpec(convert[k])
      case None =>
      case Some((_, typeStr)) => TablesAgree(typeStr);
    }
    assert mine == theirs;
  }

  /** The option "x=s" is accepted by the csv tool and fatal in csv_to_json. */
  lemma ShortStringDiffers()
    ensures ConversionTypes(["x=s"], ParseJType) == Failure(InvalidFieldType("x=s", UnsupportedFieldType("s")))
    ensures ConversionTypes(["x=s"], CsvTypes.ParseJType) == Success(map["x" := Str])
  {
    SplitSpecJoin("x", "s");
    assert "x" + "=" + "s" == "x=s";
    assert SplitSpec("x=s") == Some(("x", "s"));
    var parsed := ParseAll(["x=s"], ParseJType);
    assert parsed[0] == Failure(InvalidFieldType("x=s", UnsupportedFieldType("s")));
    assert parsed[..0] == [];
    assert Fold(parsed[..0]) == Success(map[]);
    assert Fold(parsed) == Failure(InvalidFieldType("x=s", UnsupportedFieldType("s")));
    var theirs := ParseAll(["x=s"], CsvTypes.ParseJType);
    assert theirs[0] == Success(("x", Str));
    assert theirs[..0] == [];
    assert Fold(theirs[..0]) == Success(map[]);
    assert Fold(theirs) == Success(map["x" := Str]);
  }
}
