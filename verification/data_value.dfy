/** The values that flow over node ports (core/src/types/data_value.rs): their type, their
    equality and the conversion table between types.

    A `Number` carries the 64 bits of an IEEE 754 double. Equality of numbers and the
    `!= 0.0` test are stated exactly on those bits; turning a number into text and parsing
    text as a number are library routines and are passed in as functions. */
module DataValues {
  import opened Wrappers
  import DataTypes
  type DataType = DataTypes.DataType
  import Base64

  /** The bit pattern of an f64. */
  newtype F64 = x: int | 0 <= x < 0x1_0000_0000_0000_0000

  const ZERO: F64 := 0
  const ONE: F64 := 0x3FF0_0000_0000_0000
  const SIGN_BIT: int := 0x8000_0000_0000_0000
  const FRACTION_SPAN: int := 0x10_0000_0000_0000

  /** All exponent bits set and a non-zero fraction. */
  predicate IsNaN(x: F64) {
    (x as int % SIGN_BIT) / FRACTION_SPAN == 0x7FF && x as int % FRACTION_SPAN != 0
  }

  /** +0.0 or -0.0. */
  predicate IsZero(x: F64) {
    x as int % SIGN_BIT == 0
  }

  /** IEEE 754 equality of doubles (Rust's `==` on f64): NaN equals nothing, the two
      zeros are equal, everything else is equal exactly when the bits are. */
  predicate FloatEq(a: F64, b: F64) {
    !IsNaN(a) && !IsNaN(b) && (a == b || (IsZero(a) && IsZero(b)))
  }

  datatype ModelId = ModelId(name: string)

  datatype DataValue =
    | Number(n: F64)
    | Text(s: string)
    | Boolean(b: bool)
    | Path(p: string)
    | Binary(bytes: seq<Base64.byte>)
    | List(items: seq<DataValue>)
    | Dict(entries: map<string, DataValue>)
    | Model(id: ModelId)

  /** The error kinds `convert_to` produces. A type mismatch keeps the value and the target
      its message is formatted from. */
  datatype ConvertError =
    | TypeMismatch(value: DataValue, target: DataType)
    | ConversionError(message: string)

  /** The pieces of a path between its '/' separators, empty pieces included. */
  function Pieces(p: string): (pieces: seq<string>)
    ensures |pieces| >= 1
    ensures forall i | 0 <= i < |pieces| :: '/' !in pieces[i]
  {
    if |p| == 0 then [""]
    else
      var rest := Pieces(p[1..]);
      if p[0] == '/' then [""] + rest else [[p[0]] + rest[0]] + rest[1..]
  }

  /** The named pieces: empty pieces (repeated or trailing separators) and "." are
      dropped. */
  function Named(pieces: seq<string>): (names: seq<string>)
    ensures forall i | 0 <= i < |names| :: names[i] in pieces && names[i] != "" && names[i] != "."
  {
    if |pieces| == 0 then []
    else
      var front := Named(pieces[..|pieces| - 1]);
      var last := pieces[|pieces| - 1];
      if last == "" || last == "." then front else front + [last]
  }

  /** `Path::components` on a Unix path: "/" for a leading root, "." for a relative path
      that starts with the current directory, then the named pieces. */
  function Components(p: string): (c: seq<string>)
    ensures forall i | 0 <= i < |c| :: c[i] != ""
  {
    var pieces := Pieces(p);
    var head := if |p| > 0 && p[0] == '/' then ["/"] else if pieces[0] == "." then ["."] else [];
    head + Named(pieces)
  }

  /** `impl PartialEq for DataValue`: the same variant and equal payloads, where numbers
      compare as IEEE doubles, paths component by component (as `PathBuf`'s `==` does),
      lists element by element and maps key by key. */
  predicate Equal(a: DataValue, b: DataValue)
    ensures Equal(a, b) ==> Variant(a) == Variant(b)
    ensures Equal(a, b) && !a.Number? && !a.Path? && !a.List? && !a.Dict? ==> a == b
  {
    match (a, b)
    case (Number(x), Number(y)) => FloatEq(x, y)
    case (Text(x), Text(y)) => x == y
    case (Boolean(x), Boolean(y)) => x == y
    case (Path(x), Path(y)) => Components(x) == Components(y)
    case (Binary(x), Binary(y)) => x == y
    case (List(xs), List(ys)) =>
      |xs| == |ys| && forall i | 0 <= i < |xs| :: Equal(xs[i], ys[i])
    case (Dict(xs), Dict(ys)) =>
      xs.Keys == ys.Keys && forall k | k in xs :: Equal(xs[k], ys[k])
    case (Model(x), Model(y)) => x == y
    case _ => false
  }

  /** The variant of a value, as a small number; used to state that `Equal` never relates
      values of different variants. */
  function Variant(v: DataValue): nat {
    match v
    case Number(_) => 0
    case Text(_) => 1
    case Boolean(_) => 2
    case Path(_) => 3
    case Binary(_) => 4
    case List(_) => 5
    case Dict(_) => 6
    case Model(_) => 7
  }

  lemma EqualSameVariant(a: DataValue, b: DataValue)
    requires Equal(a, b)
    ensures Variant(a) == Variant(b)
  {
  }

  lemma {:induction false} EqualSymmetric(a: DataValue, b: DataValue)
    requires Equal(a, b)
    ensures Equal(b, a)
  {
    match (a, b)
    case (List(xs), List(ys)) =>
      forall i | 0 <= i < |ys|
        ensures Equal(ys[i], xs[i])
      {
        EqualSymmetric(xs[i], ys[i]);
      }
    case (Dict(xs), Dict(ys)) =>
      forall k | k in ys
        ensures Equal(ys[k], xs[k])
      {
        EqualSymmetric(xs[k], ys[k]);
      }
    case _ =>
  }

  /** Splitting at one separator splits the pieces. */
  lemma {:induction false} PiecesSplit(x: string, y: string)
    ensures Pieces(x + "/" + y) == Pieces(x) + Pieces(y)
    decreases |x|
  {
    if |x| == 0 {
      assert x + "/" + y == "/" + y && ("/" + y)[1..] == y;
    } else {
      assert (x + "/" + y)[1..] == x[1..] + "/" + y;
      PiecesSplit(x[1..], y);
    }
  }

  lemma {:induction false} NamedConcat(s: seq<string>, t: seq<string>)
    ensures Named(s + t) == Named(s) + Named(t)
    decreases |t|
  {
    if |t| == 0 {
      assert s + t == s;
    } else {
      assert (s + t)[..|s + t| - 1] == s + t[..|t| - 1];
      NamedConcat(s, t[..|t| - 1]);
    }
  }

  /** Two paths with the same root, the same first piece and the same named pieces are
      equal. */
  lemma SameComponents(p: string, q: string)
    requires |p| > 0 && |q| > 0 && p[0] == q[0]
    requires Pieces(p)[0] == Pieces(q)[0] && Named(Pieces(p)) == Named(Pieces(q))
    ensures Equal(Path(p), Path(q))
  {
  }

  /** Inserting the piece `s` (empty or ".") between two others leaves the named pieces
      as they were. */
  lemma SkippedPiece(x: string, s: string, y: string)
    requires s == "" || s == "."
    ensures Pieces(x + "/" + s + "/" + y)[0] == Pieces(x + "/" + y)[0]
    ensures Named(Pieces(x + "/" + s + "/" + y)) == Named(Pieces(x + "/" + y))
  {
    var px, py := Pieces(x), Pieces(y);
    assert x + "/" + s + "/" + y == x + "/" + (s + "/" + y);
    PiecesSplit(x, s + "/" + y);
    PiecesSplit(s, y);
    PiecesSplit(x, y);
    assert Pieces(s) == [s] by {
      if s == "." {
        assert "."[1..] == "" && ['.'] + "" == ".";
      }
    }
    assert Named([s]) == [] by {
      assert [s][..0] == [];
    }
    assert Pieces(x + "/" + s + "/" + y) == px + ([s] + py);
    NamedConcat([s], py);
    assert Named([s] + py) == Named(py);
    NamedConcat(px, [s] + py);
    NamedConcat(px, py);
  }

  /** A doubled separator inside a path changes nothing: "a//b" equals "a/b". */
  lemma RepeatedSeparator(x: string, y: string)
    requires |x| > 0
    ensures Equal(Path(x + "//" + y), Path(x + "/" + y))
  {
    assert x + "//" + y == x + "/" + "" + "/" + y;
    SkippedPiece(x, "", y);
    PiecesSplit(x, y);
    SameComponents(x + "//" + y, x + "/" + y);
  }

  /** A "." piece inside a path changes nothing: "a/./b" equals "a/b". */
  lemma CurrentDirectoryPiece(x: string, y: string)
    requires |x| > 0
    ensures Equal(Path(x + "/./" + y), Path(x + "/" + y))
  {
    assert x + "/./" + y == x + "/" + "." + "/" + y;
    SkippedPiece(x, ".", y);
    PiecesSplit(x, y);
    SameComponents(x + "/./" + y, x + "/" + y);
  }

  /** A trailing separator changes nothing: "a/b/" equals "a/b". */
  lemma TrailingSeparator(x: string)
    requires |x| > 0
    ensures Equal(Path(x + "/"), Path(x))
  {
    assert x + "/" == x + "/" + "";
    PiecesSplit(x, "");
    assert (Pieces(x) + [""])[..|Pieces(x)|] == Pieces(x);
  }

  /** A leading root is a component of its own: "/a" differs from "a". */
  lemma LeadingRoot()
    ensures !Equal(Path("/a"), Path("a"))
  {
  }

  /** A leading "." is a component of its own: "./a" differs from "a". */
  lemma LeadingCurrentDirectory()
    ensures !Equal(Path("./a"), Path("a"))
  {
  }

  /** `data_type`: scalars map to the type of the same name; a list takes the type of its
      first element (Number when empty); every map reports `Dict("key", Number)`. */
  function DataTypeOf(v: DataValue): (t: DataType)
    ensures v.List? <==> t.List?
    ensures v.Dict? ==> t == DataTypes.Dict("key", DataTypes.Number)
    ensures v.List? && |v.items| > 0 ==> t.inner == DataTypeOf(v.items[0])
    ensures v.List? && |v.items| == 0 ==> t.inner == DataTypes.Number
  {
    match v
    case Number(_) => DataTypes.Number
    case Text(_) => DataTypes.Text
    case Boolean(_) => DataTypes.Boolean
    case Path(_) => DataTypes.Path
    case Binary(_) => DataTypes.Binary
    case List(items) =>
      if |items| > 0 then DataTypes.List(DataTypeOf(items[0])) else DataTypes.List(DataTypes.Number)
    case Dict(_) => DataTypes.Dict("key", DataTypes.Number)
    case Model(_) => DataTypes.Model
  }

  /** A list reports nested `List` types as deep as its first elements are lists. */
  function FirstElementDepth(v: DataValue): nat {
    if v.List? && |v.items| > 0 then 1 + FirstElementDepth(v.items[0])
    else if v.List? then 1
    else 0
  }

  function ListDepth(t: DataType): nat {
    if t.List? then 1 + ListDepth(t.inner) else 0
  }

  lemma {:induction false} DataTypeOfDepth(v: DataValue)
    ensures ListDepth(DataTypeOf(v)) == FirstElementDepth(v)
  {
    if v.List? && |v.items| > 0 {
      DataTypeOfDepth(v.items[0]);
    }
  }

  /** `as_text`: the string of a Text value, None for every other variant. */
  function AsText(v: DataValue): (r: Option<string>)
    ensures r.Some? <==> v.Text?
    ensures r.Some? ==> r.value == v.s
  {
    match v
    case Text(s) => Some(s)
    case _ => None
  }

  /** ASCII lowercasing. For deciding membership in the six boolean words below it agrees
      with Rust's Unicode `to_lowercase`: no character outside ASCII lowercases to any of
      the ASCII letters those words use. */
  function LowerChar(c: char): char {
    if 'A' <= c <= 'Z' then (c as int - 'A' as int + 'a' as int) as char else c
  }

  function Lower(s: string): (r: string)
    ensures |r| == |s|
    ensures forall i | 0 <= i < |s| :: r[i] == LowerChar(s[i])
  {
    if |s| == 0 then "" else [LowerChar(s[0])] + Lower(s[1..])
  }

  const TRUE_WORDS: set<string> := {"true", "yes", "1"}
  const FALSE_WORDS: set<string> := {"false", "no", "0"}

  function BoolText(b: bool): string {
    if b then "true" else "false"
  }

  /** `convert_to`. `formatNumber` is f64's `to_string`, `parseNumber` is `str::parse::<f64>`. */
  function ConvertTo(v: DataValue, target: DataType,
                     formatNumber: F64 -> string,
                     parseNumber: string -> Option<F64>): (r: Result<DataValue, ConvertError>)
    ensures r.Ok? ==> DataTypeOf(r.value) == target
    ensures r.Err? && r.error.TypeMismatch? ==>
      r.error == TypeMismatch(v, target) && !Convertible(DataTypeOf(v), target)
  {
    match (v, target)
    case (Number(n), Number) => Ok(Number(n))
    case (Number(n), Text) => Ok(Text(formatNumber(n)))
    case (Number(n), Boolean) => Ok(Boolean(!IsZero(n)))
    case (Text(s), Text) => Ok(Text(s))
    case (Text(s), Number) =>
      (match parseNumber(s)
       case Some(n) => Ok(Number(n))
       case None => Err(ConversionError("Cannot convert '" + s + "' to number")))
    case (Text(s), Boolean) =>
      if Lower(s) in TRUE_WORDS then Ok(Boolean(true))
      else if Lower(s) in FALSE_WORDS then Ok(Boolean(false))
      else Err(ConversionError("Cannot convert '" + s + "' to boolean"))
    case (Boolean(b), Boolean) => Ok(Boolean(b))
    case (Boolean(b), Number) => Ok(Number(if b then ONE else ZERO))
    case (Boolean(b), Text) => Ok(Text(BoolText(b)))
    case (Path(p), Path) => Ok(Path(p))
    case (Path(p), Text) => Ok(Text(p))
    case (Binary(b), Binary) => Ok(Binary(b))
    case (Binary(b), Text) => Ok(Text(Base64.Encode(b)))
    case (Text(s), Binary) =>
      (match Base64.Decode(s)
       case Some(b) => Ok(Binary(b))
       case None => Err(ConversionError("Cannot convert string to binary")))
    case _ => Err(TypeMismatch(v, target))
  }

  /** The conversion table as a relation on (source type, target type), written
      independently of `ConvertTo`. */
  predicate Convertible(source: DataType, target: DataType) {
    (source, target) in {
      (DataTypes.Number, DataTypes.Number), (DataTypes.Number, DataTypes.Text), (DataTypes.Number, DataTypes.Boolean),
      (DataTypes.Text, DataTypes.Text), (DataTypes.Text, DataTypes.Number), (DataTypes.Text, DataTypes.Boolean),
      (DataTypes.Text, DataTypes.Binary),
      (DataTypes.Boolean, DataTypes.Boolean), (DataTypes.Boolean, DataTypes.Number), (DataTypes.Boolean, DataTypes.Text),
      (DataTypes.Path, DataTypes.Path), (DataTypes.Path, DataTypes.Text),
      (DataTypes.Binary, DataTypes.Binary), (DataTypes.Binary, DataTypes.Text)
    }
  }

  /** A conversion fails with `TypeMismatch` exactly for the pairs outside the table, and
      then names the value and the target. */
  lemma TypeMismatchExactly(v: DataValue, target: DataType,
                            formatNumber: F64 -> string, parseNumber: string -> Option<F64>)
    ensures var r := ConvertTo(v, target, formatNumber, parseNumber);
      (r.Err? && r.error.TypeMismatch?) <==> !Convertible(DataTypeOf(v), target)
    ensures var r := ConvertTo(v, target, formatNumber, parseNumber);
      r.Err? && r.error.TypeMismatch? ==> r.error == TypeMismatch(v, target)
  {
  }

  /** A successful conversion produces a value of the requested type. */
  lemma ConvertedHasTarget(v: DataValue, target: DataType,
                           formatNumber: F64 -> string, parseNumber: string -> Option<F64>)
    requires ConvertTo(v, target, formatNumber, parseNumber).Ok?
    ensures DataTypeOf(ConvertTo(v, target, formatNumber, parseNumber).value) == target
  {
  }

  /** Converting a Number, Text, Boolean, Path or Binary to its own type gives it back. */
  lemma ConvertToOwnType(v: DataValue, formatNumber: F64 -> string, parseNumber: string -> Option<F64>)
    requires !v.List? && !v.Dict? && !v.Model?
    ensures ConvertTo(v, DataTypeOf(v), formatNumber, parseNumber) == Ok(v)
  {
  }

  /** Boolean to Number gives 1.0 or 0.0, and that number converts back to the same Boolean. */
  lemma BooleanNumberRoundTrip(b: bool, formatNumber: F64 -> string, parseNumber: string -> Option<F64>)
    ensures ConvertTo(Boolean(b), DataTypes.Number, formatNumber, parseNumber)
         == Ok(Number(if b then ONE else ZERO))
    ensures ConvertTo(Number(if b then ONE else ZERO), DataTypes.Boolean, formatNumber, parseNumber)
         == Ok(Boolean(b))
  {
  }

  /** Text to Boolean: true for the words "true", "yes", "1" in any ASCII case, false for
      "false", "no", "0", and a conversion error for anything else. */
  lemma TextToBoolean(s: string, formatNumber: F64 -> string, parseNumber: string -> Option<F64>)
    ensures var r := ConvertTo(Text(s), DataTypes.Boolean, formatNumber, parseNumber);
      && (r == Ok(Boolean(true)) <==> Lower(s) in TRUE_WORDS)
      && (r == Ok(Boolean(false)) <==> Lower(s) in FALSE_WORDS)
      && (r.Err? <==> Lower(s) !in TRUE_WORDS + FALSE_WORDS)
      && (r.Err? ==> r.error == ConversionError("Cannot convert '" + s + "' to boolean"))
  {
  }

  /** Boolean to Text and back gives the original Boolean. */
  lemma BooleanTextRoundTrip(b: bool, formatNumber: F64 -> string, parseNumber: string -> Option<F64>)
    ensures ConvertTo(Boolean(b), DataTypes.Text, formatNumber, parseNumber) == Ok(Text(BoolText(b)))
    ensures ConvertTo(Text(BoolText(b)), DataTypes.Boolean, formatNumber, parseNumber) == Ok(Boolean(b))
  {
    if b {
      assert Lower("true") == "true";
    } else {
      assert Lower("false") == "false";
      assert "false" !in TRUE_WORDS;
    }
  }

  /** Binary to Text and back gives the original bytes. */
  lemma BinaryTextRoundTrip(bytes: seq<Base64.byte>, formatNumber: F64 -> string, parseNumber: string -> Option<F64>)
    ensures ConvertTo(Binary(bytes), DataTypes.Text, formatNumber, parseNumber) == Ok(Text(Base64.Encode(bytes)))
    ensures ConvertTo(Text(Base64.Encode(bytes)), DataTypes.Binary, formatNumber, parseNumber) == Ok(Binary(bytes))
  {
    Base64.DecodeEncode(bytes);
  }

  /** Text that converts to Binary converts back to the same text: the decoder accepts
      canonical base64 only. */
  lemma TextBinaryRoundTrip(s: string, formatNumber: F64 -> string, parseNumber: string -> Option<F64>)
    requires ConvertTo(Text(s), DataTypes.Binary, formatNumber, parseNumber).Ok?
    ensures var bin := ConvertTo(Text(s), DataTypes.Binary, formatNumber, parseNumber).value;
      ConvertTo(bin, DataTypes.Text, formatNumber, parseNumber) == Ok(Text(s))
  {
    Base64.EncodeDecode(s, Base64.Decode(s).value);
  }
}
