/** The value types that flow over node ports (core/src/types/data_type.rs) and their
    display names. */
module DataTypes {

  datatype DataType =
    | Number
    | Text
    | Boolean
    | Path
    | Binary
    | List(inner: DataType)
    | Dict(key: string, inner: DataType)
    | Model

  /** `impl Display for DataType`: scalar types print their own name, `List` and `Dict`
      print their parameters recursively. */
  function Display(t: DataType): (r: string)
    ensures |r| >= 4
  {
    match t
    case Number => "Number"
    case Text => "Text"
    case Boolean => "Boolean"
    case Path => "Path"
    case Binary => "Binary"
    case List(inner) => "List(" + Display(inner) + ")"
    case Dict(key, inner) => "Dict(" + key + ", " + Display(inner) + ")"
    case Model => "Model"
  }

  /** The first two characters of a display name, fixed by the constructor alone. */
  function Tag(t: DataType): string {
    match t
    case Number => "Nu"
    case Text => "Te"
    case Boolean => "Bo"
    case Path => "Pa"
    case Binary => "Bi"
    case List(_) => "Li"
    case Dict(_, _) => "Di"
    case Model => "Mo"
  }

  lemma DisplayStartsWithTag(t: DataType)
    ensures Display(t)[..2] == Tag(t)
  {
  }

  /** A Dict key that cannot be confused with the punctuation Display puts around it. */
  predicate PlainKey(k: string) {
    forall i | 0 <= i < |k| :: k[i] != ',' && k[i] != '(' && k[i] != ')'
  }

  /** Every Dict key inside the type is plain. */
  predicate PlainKeys(t: DataType) {
    match t
    case List(inner) => PlainKeys(inner)
    case Dict(key, inner) => PlainKey(key) && PlainKeys(inner)
    case _ => true
  }

  /** Index of the first ',' in s, or |s| if there is none. */
  function FirstComma(s: string): (i: nat)
    ensures i <= |s|
  {
    if s == [] || s[0] == ',' then 0 else 1 + FirstComma(s[1..])
  }

  lemma {:induction false} FirstCommaAfterPlainKey(k: string, r: string)
    requires PlainKey(k)
    ensures FirstComma(k + ", " + r) == |k|
  {
    if k != [] {
      assert (k + ", " + r)[1..] == k[1..] + ", " + r;
      FirstCommaAfterPlainKey(k[1..], r);
    }
  }

  /** A plain key is recovered from "key, rest": it ends at the first comma. */
  lemma PlainKeySplit(k1: string, r1: string, k2: string, r2: string)
    requires PlainKey(k1) && PlainKey(k2)
    requires k1 + ", " + r1 == k2 + ", " + r2
    ensures k1 == k2 && r1 == r2
  {
    var u := k1 + ", " + r1;
    FirstCommaAfterPlainKey(k1, r1);
    FirstCommaAfterPlainKey(k2, r2);
    assert k1 == u[..|k1|] == k2;
    assert r1 == u[|k1| + 2..] == r2;
  }

  /** Display names identify the type, as long as no Dict key contains ',', '(' or ')'. */
  lemma {:induction false} DisplayInjective(a: DataType, b: DataType)
    requires PlainKeys(a) && PlainKeys(b)
    requires Display(a) == Display(b)
    ensures a == b
    decreases a, 1
  {
    DisplayStartsWithTag(a);
    DisplayStartsWithTag(b);
    assert Tag(a) == Tag(b);
    if a.List? {
      ListDisplayInjective(a, b);
    } else if a.Dict? {
      DictDisplayInjective(a, b);
    }
  }

  /** Two List types with the same display have inner types with the same display. */
  lemma {:induction false} ListDisplayInjective(a: DataType, b: DataType)
    requires a.List? && b.List? && PlainKeys(a) && PlainKeys(b)
    requires Display(a) == Display(b)
    ensures a == b
    decreases a, 0
  {
    var s := Display(a);
    assert Display(a.inner) == s[5..|s| - 1];
    assert Display(b.inner) == s[5..|s| - 1];
    DisplayInjective(a.inner, b.inner);
  }

  /** Two Dict types with plain keys and the same display have the same key and inner
      types with the same display. */
  lemma {:induction false} DictDisplayInjective(a: DataType, b: DataType)
    requires a.Dict? && b.Dict? && PlainKeys(a) && PlainKeys(b)
    requires Display(a) == Display(b)
    ensures a == b
    decreases a, 0
  {
    var s := Display(a);
    assert s[5..|s| - 1] == a.key + ", " + Display(a.inner);
    assert s[5..|s| - 1] == b.key + ", " + Display(b.inner);
    PlainKeySplit(a.key, Display(a.inner), b.key, Display(b.inner));
    DisplayInjective(a.inner, b.inner);
  }

  /** The display of a Dict type, as its pieces in order. */
  lemma DisplayDict(k: string, v: DataType)
    ensures Display(Dict(k, v)) == "Dict(" + (k + (", " + (Display(v) + ")")))
  {
  }

  /** Concatenation is associative. */
  lemma Assoc(a: string, b: string, c: string)
    ensures (a + b) + c == a + (b + c)
  {
  }

  /** Without the restriction on keys the display is ambiguous: for any keys and inner
      types, moving ", Dict(" between two nested Dict keys changes the type but not its
      display. */
  lemma DisplayAmbiguousWithPunctuatedKeys(x: string, w: string, z: string, u: DataType)
    ensures var a := Dict(x, Dict(w + (", Dict(" + z), u));
      var b := Dict(x + (", Dict(" + w), Dict(z, u));
      a != b && Display(a) == Display(b)
  {
    var S, F := ", Dict(", ", " + (Display(u) + ")");
    var k2, k1 := w + (S + z), x + (S + w);
    assert |k1| > |x|;
    DisplayDict(x, Dict(k2, u));
    DisplayDict(k2, u);
    DisplayDict(k1, Dict(z, u));
    DisplayDict(z, u);
    var tail := z + (F + ")");
    // What follows x in both displays: ", Dict(" + w + ", Dict(" + tail.
    calc {
      ", " + (("Dict(" + (k2 + F)) + ")");
      { Assoc("Dict(", k2 + F, ")"); Assoc(w, S + z, F); Assoc(S, z, F); Assoc(z, F, ")"); }
      ", " + ("Dict(" + (w + (S + tail)));
      { Assoc(", ", "Dict(", w + (S + tail)); }
      S + (w + (S + tail));
    }
    calc {
      k1 + (", " + (("Dict(" + (z + F)) + ")"));
      { Assoc("Dict(", z + F, ")"); Assoc(z, F, ")"); Assoc(", ", "Dict(", tail); }
      k1 + (S + tail);
      { Assoc(x, S + w, S + tail); Assoc(S, w, S + tail); }
      x + (S + (w + (S + tail)));
    }
  }
}
