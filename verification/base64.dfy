/** The base64 engine `general_purpose::STANDARD` used by core/src/types/data_value.rs:
    the alphabet of section 4 of RFC 4648 with '=' padding. Decoding is strict: padding must
    be canonical and the unused bits of the last symbol must be zero, so a string decodes
    exactly when it is the encoding of some byte sequence.

    Both directions go through a sequence of classified characters (`Sym`): a 6-bit value,
    the pad character, or anything else. The bit arithmetic lives on those sequences, the
    alphabet only in `Classify` and `CharOf`. */
module Base64 {
  import opened Wrappers

  newtype byte = x: int | 0 <= x < 256

  /** A 6-bit value, the payload of one symbol. */
  type Sextet = i: nat | i < 64

  /** The symbol for a 6-bit value (RFC 4648, section 4, table 1). */
  function Symbol(i: Sextet): (c: char) {
    if i < 26 then ('A' as int + i) as char
    else if i < 52 then ('a' as int + (i - 26)) as char
    else if i < 62 then ('0' as int + (i - 52)) as char
    else if i == 62 then '+'
    else '/'
  }

  /** The 6-bit value of a symbol, None for any character outside the alphabet
      (including the pad character '='). */
  function Value(c: char): (r: Option<Sextet>) {
    if 'A' <= c <= 'Z' then Some(c as int - 'A' as int)
    else if 'a' <= c <= 'z' then Some(c as int - 'a' as int + 26)
    else if '0' <= c <= '9' then Some(c as int - '0' as int + 52)
    else if c == '+' then Some(62)
    else if c == '/' then Some(63)
    else None
  }

  /** The alphabet is a bijection between the 64 values and 64 characters. */
  lemma ValueOfSymbol(i: Sextet)
    ensures Value(Symbol(i)) == Some(i)
  {
  }

  lemma SymbolOfValue(c: char)
    requires Value(c).Some?
    ensures Symbol(Value(c).value) == c
  {
  }

  /** A character as the decoder sees it. */
  datatype Sym = Val(v: Sextet) | Pad | Bad

  function Classify(c: char): (k: Sym)
    ensures k.Pad? <==> c == '='
  {
    match Value(c)
    case Some(i) => Val(i)
    case None => if c == '=' then Pad else Bad
  }

  /** The character of a value or of the pad. */
  function CharOf(k: Sym): (c: char)
    requires !k.Bad?
    ensures Classify(c) == k
  {
    if k.Val? then ValueOfSymbol(k.v); Symbol(k.v) else '='
  }

  predicate Printable(k: seq<Sym>) {
    forall i | 0 <= i < |k| :: !k[i].Bad?
  }

  function Chars(k: seq<Sym>): (s: string)
    requires Printable(k)
    ensures |s| == |k| && forall i | 0 <= i < |k| :: s[i] == CharOf(k[i])
  {
    seq(|k|, i requires 0 <= i < |k| => CharOf(k[i]))
  }

  function Classified(s: string): (k: seq<Sym>)
    ensures |k| == |s| && forall i | 0 <= i < |s| :: k[i] == Classify(s[i])
  {
    seq(|s|, i requires 0 <= i < |s| => Classify(s[i]))
  }

  /** Classifying printed symbols gives them back. */
  lemma ClassifiedChars(k: seq<Sym>)
    requires Printable(k)
    ensures Classified(Chars(k)) == k
  {
  }

  /** Printing classified characters gives them back, when none is outside the alphabet. */
  lemma CharsClassified(s: string)
    requires Printable(Classified(s))
    ensures Chars(Classified(s)) == s
  {
    var k := Classified(s);
    forall i | 0 <= i < |s|
      ensures CharOf(k[i]) == s[i]
    {
      if k[i].Val? {
        SymbolOfValue(s[i]);
      }
    }
  }

  /** Three bytes as four 6-bit values, high bits first. */
  function Split(x: byte, y: byte, z: byte): (k: seq<Sym>)
    ensures |k| == 4 && k[0].Val? && k[1].Val? && k[2].Val? && k[3].Val?
  {
    var x, y, z := x as int, y as int, z as int;
    [Val(x / 4), Val(x % 4 * 16 + y / 16), Val(y % 16 * 4 + z / 64), Val(z % 64)]
  }

  /** The three bytes that four 6-bit values carry. */
  function Join(i0: Sextet, i1: Sextet, i2: Sextet, i3: Sextet): (b: seq<byte>)
    ensures |b| == 3
  {
    [(i0 * 4 + i1 / 16) as byte, (i1 % 16 * 16 + i2 / 4) as byte, (i2 % 4 * 64 + i3) as byte]
  }

  /** Encoding on values: every 3 bytes become 4 values; a final 1 or 2 bytes are split as
      if followed by zero bytes, and the values that carry only those zeros become pads. */
  function EncodeSyms(b: seq<byte>): (k: seq<Sym>)
    ensures |k| % 4 == 0 && (|k| == 0 <==> |b| == 0) && Printable(k)
    decreases |b|
  {
    if |b| == 0 then []
    else if |b| == 1 then Split(b[0], 0, 0)[..2] + [Pad, Pad]
    else if |b| == 2 then Split(b[0], b[1], 0)[..3] + [Pad]
    else Split(b[0], b[1], b[2]) + EncodeSyms(b[3..])
  }

  /** Decoding of the last quantum, which may be padded; the bits of the last value that no
      decoded byte uses must be zero. */
  function DecodeLast(q: seq<Sym>): (r: Option<seq<byte>>)
    requires |q| == 4
    ensures r.Some? ==> 1 <= |r.value| <= 3
  {
    if !q[0].Val? || !q[1].Val? then None
    else if q[2].Pad? && q[3].Pad? then
      if q[1].v % 16 != 0 then None else Some(Join(q[0].v, q[1].v, 0, 0)[..1])
    else if !q[2].Val? then None
    else if q[3].Pad? then
      if q[2].v % 4 != 0 then None else Some(Join(q[0].v, q[1].v, q[2].v, 0)[..2])
    else if !q[3].Val? then None
    else Some(Join(q[0].v, q[1].v, q[2].v, q[3].v))
  }

  /** Decoding on values: the length must be a multiple of 4, every quantum but the last
      must be four values, and the last is decoded by `DecodeLast`. */
  function DecodeSyms(k: seq<Sym>): (r: Option<seq<byte>>)
    ensures r.Some? ==> (|r.value| == 0 <==> |k| == 0)
    decreases |k|
  {
    if |k| == 0 then Some([])
    else if |k| < 4 then None
    else if |k| == 4 then DecodeLast(k)
    else if !k[0].Val? || !k[1].Val? || !k[2].Val? || !k[3].Val? then None
    else
      match DecodeSyms(k[4..])
      case None => None
      case Some(rest) => Some(Join(k[0].v, k[1].v, k[2].v, k[3].v) + rest)
  }

  /** `STANDARD.encode`. */
  function Encode(b: seq<byte>): (s: string)
    ensures |s| % 4 == 0 && (|s| == 0 <==> |b| == 0)
  {
    Chars(EncodeSyms(b))
  }

  /** `STANDARD.decode`. */
  function Decode(s: string): (r: Option<seq<byte>>)
    ensures r.Some? ==> (|r.value| == 0 <==> |s| == 0)
  {
    DecodeSyms(Classified(s))
  }

  /** Division and remainder by 4, 16 or 64 are determined by any quotient and remainder
      that rebuild the dividend. */
  lemma Digits(n: int, m: int, hi: int, lo: int)
    requires m == 4 || m == 16 || m == 64
    requires 0 <= lo < m && n == hi * m + lo
    ensures n / m == hi && n % m == lo
  {
  }

  /** Splitting three bytes into 6-bit values and joining these again gives the bytes
      back; the values that carry only bits of zero bytes have zero low bits. */
  lemma JoinSplit(x: byte, y: byte, z: byte)
    ensures var k := Split(x, y, z); Join(k[0].v, k[1].v, k[2].v, k[3].v) == [x, y, z]
    ensures y == 0 ==> Split(x, y, z)[1].v % 16 == 0
    ensures z == 0 ==> Split(x, y, z)[2].v % 4 == 0 && Split(x, y, z)[3].v == 0
    ensures y == 0 && z == 0 ==> Split(x, y, z)[2].v == 0
  {
    var a, r := x as int / 4, x as int % 4;
    var c, d := y as int / 16, y as int % 16;
    var e, f := z as int / 64, z as int % 64;
    Digits(r * 16 + c, 16, r, c);
    Digits(d * 4 + e, 4, d, e);
    var k := Split(x, y, z);
    assert k == [Val(a), Val(r * 16 + c), Val(d * 4 + e), Val(f)];
  }

  /** Joining four 6-bit values into three bytes and splitting these again gives the
      values back. */
  lemma SplitJoin(i0: Sextet, i1: Sextet, i2: Sextet, i3: Sextet)
    ensures var b := Join(i0, i1, i2, i3); Split(b[0], b[1], b[2]) == [Val(i0), Val(i1), Val(i2), Val(i3)]
  {
    var p, q := i1 / 16, i1 % 16;
    var r, t := i2 / 4, i2 % 4;
    var x, y, z := i0 * 4 + p, q * 16 + r, t * 64 + i3;
    Digits(x, 4, i0, p);
    Digits(y, 16, q, r);
    Digits(z, 64, t, i3);
    assert Join(i0, i1, i2, i3) == [x as byte, y as byte, z as byte];
  }

  /** One byte round-trips through its padded quantum. */
  lemma DecodeEncodeOne(x: byte)
    ensures DecodeSyms(EncodeSyms([x])) == Some([x])
  {
    JoinSplit(x, 0, 0);
    var k := Split(x, 0, 0);
    assert EncodeSyms([x]) == [k[0], k[1], Pad, Pad];
    assert Join(k[0].v, k[1].v, 0, 0)[..1] == [x];
  }

  /** Two bytes round-trip through their padded quantum. */
  lemma DecodeEncodeTwo(x: byte, y: byte)
    ensures DecodeSyms(EncodeSyms([x, y])) == Some([x, y])
  {
    JoinSplit(x, y, 0);
    var k := Split(x, y, 0);
    assert EncodeSyms([x, y]) == [k[0], k[1], k[2], Pad];
    assert Join(k[0].v, k[1].v, k[2].v, 0)[..2] == [x, y];
  }

  /** Three bytes followed by bytes that round-trip round-trip as a whole. */
  lemma DecodeEncodeQuantumThen(x: byte, y: byte, z: byte, rest: seq<byte>)
    requires DecodeSyms(EncodeSyms(rest)) == Some(rest)
    ensures DecodeSyms(EncodeSyms([x, y, z] + rest)) == Some([x, y, z] + rest)
  {
    var b := [x, y, z] + rest;
    var q, t := Split(x, y, z), EncodeSyms(rest);
    assert b[0] == x && b[1] == y && b[2] == z && b[3..] == rest;
    assert EncodeSyms(b) == q + t;
    JoinSplit(x, y, z);
    var k := q + t;
    assert k[..4] == q && k[4..] == t;
    if |t| == 0 {
      assert rest == [] && k == q && b == [x, y, z];
      assert DecodeSyms(k) == DecodeLast(q) == Some(Join(q[0].v, q[1].v, q[2].v, q[3].v));
    } else {
      assert DecodeSyms(k) == Some(Join(q[0].v, q[1].v, q[2].v, q[3].v) + rest);
    }
  }

  /** Decoding undoes encoding, on values. */
  lemma {:induction false} DecodeEncodeSyms(b: seq<byte>)
    ensures DecodeSyms(EncodeSyms(b)) == Some(b)
    decreases |b|
  {
    if |b| == 0 {
    } else if |b| == 1 {
      DecodeEncodeOne(b[0]);
      assert b == [b[0]];
    } else if |b| == 2 {
      DecodeEncodeTwo(b[0], b[1]);
      assert b == [b[0], b[1]];
    } else {
      DecodeEncodeSyms(b[3..]);
      DecodeEncodeQuantumThen(b[0], b[1], b[2], b[3..]);
      assert b == [b[0], b[1], b[2]] + b[3..];
    }
  }

  /** A last quantum is the encoding of what it decodes to. */
  lemma EncodeDecodeLast(q: seq<Sym>)
    requires |q| == 4 && DecodeLast(q).Some?
    ensures EncodeSyms(DecodeLast(q).value) == q
  {
    var b := DecodeLast(q).value;
    if q[2].Pad? && q[3].Pad? {
      SplitJoin(q[0].v, q[1].v, 0, 0);
      assert b == [b[0]];
    } else if q[3].Pad? {
      SplitJoin(q[0].v, q[1].v, q[2].v, 0);
      assert b == [b[0], b[1]];
    } else {
      SplitJoin(q[0].v, q[1].v, q[2].v, q[3].v);
      assert EncodeSyms(b) == Split(b[0], b[1], b[2]) + EncodeSyms([]);
    }
  }

  /** Encoding undoes decoding, on values. */
  lemma {:induction false} EncodeDecodeSyms(k: seq<Sym>, b: seq<byte>)
    requires DecodeSyms(k) == Some(b)
    ensures EncodeSyms(b) == k
    decreases |k|
  {
    if |k| == 0 {
    } else if |k| == 4 {
      EncodeDecodeLast(k);
    } else {
      var rest := DecodeSyms(k[4..]).value;
      EncodeDecodeSyms(k[4..], rest);
      var head := Join(k[0].v, k[1].v, k[2].v, k[3].v);
      SplitJoin(k[0].v, k[1].v, k[2].v, k[3].v);
      assert b == head + rest && |rest| > 0;
      assert b[..3] == head && b[3..] == rest;
      assert EncodeSyms(b) == Split(head[0], head[1], head[2]) + EncodeSyms(rest);
      assert k == k[..4] + k[4..];
    }
  }

  /** Decoding undoes encoding. */
  lemma DecodeEncode(b: seq<byte>)
    ensures Decode(Encode(b)) == Some(b)
  {
    ClassifiedChars(EncodeSyms(b));
    DecodeEncodeSyms(b);
  }

  /** Encoding undoes decoding: a string decodes only when it is the encoding of the
      bytes it decodes to. */
  lemma EncodeDecode(s: string, b: seq<byte>)
    requires Decode(s) == Some(b)
    ensures Encode(b) == s
  {
    EncodeDecodeSyms(Classified(s), b);
    CharsClassified(s);
  }
}
