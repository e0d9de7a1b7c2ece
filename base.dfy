/** Values and conversions shared by the three parts of the model: bytes as the
    Python code holds them (ints in 0..255), optional and failing results, and
    the three text conversions the code relies on: bytearray.hex(), str.upper()
    and int(s, 16). */
module Base {

  /** A byte as Python's spidev and smbus2 hand it over: an int in 0..255. */
  type byte = x: int | 0 <= x < 256

  datatype Option<+T> = None | Some(value: T)

  datatype Result<+T, +E> = Ok(value: T) | Err(error: E)

  function Min(a: int, b: int): int { if a <= b then a else b }

  /** 2^n, the divisor that `>> n` stands for on a non-negative int. */
  function Pow2(n: nat): (p: nat)
    ensures p >= 1
  {
    if n == 0 then 1 else 2 * Pow2(n - 1)
  }

  /** Python's w >> n on an int: n floor halvings (Dafny's / floors for the
      positive divisor 2, as Python's // does). */
  function Shr(w: int, n: nat): int
    decreases n
  {
    if n == 0 then w else Shr(w / 2, n - 1)
  }

  /** The big-endian value of a byte string (what int(b.hex(), 16) reads back). */
  function BigEndian(b: seq<byte>): nat
  {
    if b == [] then 0 else 256 * BigEndian(b[..|b| - 1]) + b[|b| - 1]
  }

  // ---------------------------------------------------------------------------
  // bytearray.hex()
  // ---------------------------------------------------------------------------

  /** The lower-case hex digit for d, as bytearray.hex() writes it. */
  function HexDigit(d: nat): char
    requires d < 16
  {
    if d < 10 then ('0' as int + d) as char else ('a' as int + d - 10) as char
  }

  /** bytearray(b).hex(): two lower-case digits per byte, high nibble first. */
  function ToHex(b: seq<byte>): (s: string)
    ensures |s| == 2 * |b|
  {
    if b == [] then ""
    else ToHex(b[..|b| - 1]) + [HexDigit(b[|b| - 1] / 16), HexDigit(b[|b| - 1] % 16)]
  }

  lemma {:induction false} ToHexAppend(a: seq<byte>, b: seq<byte>)
    ensures ToHex(a + b) == ToHex(a) + ToHex(b)
    decreases |b|
  {
    if b == [] {
      assert a + b == a;
    } else {
      var b' := b[..|b| - 1];
      var x := b[|b| - 1];
      assert (a + b)[..|a + b| - 1] == a + b';
      assert (a + b)[|a + b| - 1] == x;
      ToHexAppend(a, b');
    }
  }

  lemma ToHexSplit(b: seq<byte>, m: nat)
    requires m <= |b|
    ensures ToHex(b) == ToHex(b[..m]) + ToHex(b[m..])
  {
    assert b[..m] + b[m..] == b;
    ToHexAppend(b[..m], b[m..]);
  }

  // ---------------------------------------------------------------------------
  // str.upper()
  // ---------------------------------------------------------------------------

  function UpperChar(c: char): char
  {
    if 'a' <= c <= 'z' then (c as int - 32) as char else c
  }

  /** str.upper() on ASCII text (the only text it is applied to here is hex). */
  function Upper(s: string): (u: string)
    ensures |u| == |s|
    ensures forall i :: 0 <= i < |s| ==> u[i] == UpperChar(s[i])
  {
    seq(|s|, i requires 0 <= i < |s| => UpperChar(s[i]))
  }

  lemma UpperIdempotent(s: string)
    ensures Upper(Upper(s)) == Upper(s)
  {
  }

  // ---------------------------------------------------------------------------
  // int(s, 16)
  // ---------------------------------------------------------------------------

  /** The value of one digit as int(s, 16) reads it: 0-9, a-f and A-F. */
  function DigitValue(c: char): (r: Option<nat>)
    ensures r.Some? ==> r.value < 16
  {
    if '0' <= c <= '9' then Some(c as int - '0' as int)
    else if 'a' <= c <= 'f' then Some(c as int - 'a' as int + 10)
    else if 'A' <= c <= 'F' then Some(c as int - 'A' as int + 10)
    else None
  }

  /** The value of a digit string, most significant digit first; None at the first non-digit. */
  function DigitsValue(s: string): Option<nat>
  {
    if s == [] then Some(0)
    else match (DigitsValue(s[..|s| - 1]), DigitValue(s[|s| - 1]))
      case (Some(v), Some(d)) => Some(16 * v + d)
      case _ => None
  }

  /** int(s, 16) on text made only of the characters 0-9, a-f and A-F, the
      only text the applications parse; None for the empty string and for text
      holding any other character. (Python also accepts a sign, a 0x prefix,
      underscores and surrounding spaces; such text never reaches it here.) */
  function HexValue(s: string): Option<nat>
  {
    if s == [] then None else DigitsValue(s)
  }

  /** A digit string has a value exactly when every character is a digit. */
  lemma {:induction false} DigitsValueDefined(s: string)
    ensures DigitsValue(s).Some? <==> forall i :: 0 <= i < |s| ==> DigitValue(s[i]).Some?
    decreases |s|
  {
    if s != [] {
      var init := s[..|s| - 1];
      DigitsValueDefined(init);
      assert forall i :: 0 <= i < |init| ==> init[i] == s[i];
    }
  }

  /** int(s, 16) succeeds exactly on non-empty text of hex digits. */
  lemma HexValueDefined(s: string)
    ensures HexValue(s).Some? <==> s != [] && forall i :: 0 <= i < |s| ==> DigitValue(s[i]).Some?
  {
    DigitsValueDefined(s);
  }

  lemma DigitOfHexDigit(d: nat)
    requires d < 16
    ensures DigitValue(HexDigit(d)) == Some(d)
  {
  }

  lemma UpperDigit(c: char)
    ensures DigitValue(UpperChar(c)) == DigitValue(c)
  {
  }

  /** Reading the hex text of a byte string gives back its big-endian value. */
  lemma {:induction false} DigitsOfHex(b: seq<byte>)
    ensures DigitsValue(ToHex(b)) == Some(BigEndian(b))
    decreases |b|
  {
    if b != [] {
      var b' := b[..|b| - 1];
      var x := b[|b| - 1];
      var hi, lo := HexDigit(x / 16), HexDigit(x % 16);
      var s := ToHex(b);
      assert s == ToHex(b') + [hi, lo];
      assert s[..|s| - 1] == ToHex(b') + [hi];
      assert (ToHex(b') + [hi])[..|s| - 2] == ToHex(b');
      DigitsOfHex(b');
      DigitOfHexDigit(x / 16);
      DigitOfHexDigit(x % 16);
    }
  }

  lemma HexRoundTrip(b: seq<byte>)
    requires b != []
    ensures HexValue(ToHex(b)) == Some(BigEndian(b))
  {
    DigitsOfHex(b);
  }

  /** int(s, 16) does not care about the case of the digits. */
  lemma {:induction false} DigitsValueUpper(s: string)
    ensures DigitsValue(Upper(s)) == DigitsValue(s)
    decreases |s|
  {
    if s != [] {
      assert Upper(s)[..|s| - 1] == Upper(s[..|s| - 1]);
      DigitsValueUpper(s[..|s| - 1]);
      UpperDigit(s[|s| - 1]);
    }
  }

  lemma HexValueUpper(s: string)
    ensures HexValue(Upper(s)) == HexValue(s)
  {
    DigitsValueUpper(s);
  }

  lemma BigEndianPair(w: seq<byte>)
    requires |w| == 2
    ensures BigEndian(w) == 256 * (w[0] as int) + w[1]
  {
    var w1 := w[..1];
    assert w1[..0] == [];
    assert BigEndian(w1) == w[0];
    assert BigEndian(w) == 256 * BigEndian(w1) + w[1];
  }

  /** A single byte's hex text reads back as the byte. */
  lemma ByteHexValue(b: byte)
    ensures HexValue(ToHex([b])) == Some(b as nat)
  {
    HexRoundTrip([b]);
    assert [b][..0] == [];
  }

  /** A two-byte word's upper-cased hex text reads back as 256*hi + lo. */
  lemma HexPairValue(w: seq<byte>)
    requires |w| == 2
    ensures HexValue(Upper(ToHex(w))) == Some(256 * (w[0] as int) + w[1])
  {
    HexValueUpper(ToHex(w));
    HexRoundTrip(w);
    BigEndianPair(w);
  }

  /** Reading the two halves of an upper-cased eight-character text x + y
      gives what reading the upper-cased x and y gives. */
  lemma HexHalves(t: string, x: string, y: string, v: nat, u: nat)
    requires |x| == 4 && |y| == 4 && t == x + y
    requires HexValue(Upper(x)) == Some(v) && HexValue(Upper(y)) == Some(u)
    ensures HexValue(Upper(t)[0..4]) == Some(v) && HexValue(Upper(t)[4..8]) == Some(u)
  {
    assert Upper(t)[0..4] == Upper(x);
    assert Upper(t)[4..8] == Upper(y);
  }

  /** The two words of a four-byte string, read back from characters [0, 4)
      and [4, 8) of its upper-cased hex text, as the driver does. */
  lemma HexWords(d: seq<byte>)
    requires |d| == 4
    ensures HexValue(Upper(ToHex(d))[0..4]) == Some(256 * (d[0] as int) + d[1])
    ensures HexValue(Upper(ToHex(d))[4..8]) == Some(256 * (d[2] as int) + d[3])
  {
    var lo, hi := d[..2], d[2..];
    ToHexSplit(d, 2);
    HexPairValue(lo);
    HexPairValue(hi);
    HexHalves(ToHex(d), ToHex(lo), ToHex(hi), 256 * (d[0] as int) + d[1], 256 * (d[2] as int) + d[3]);
  }
}
