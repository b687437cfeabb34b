/** Bytes, 64-bit integers, ASCII decimal digits and the fixed-width
    arithmetic that the codec relies on. */
module ByteUtil {

  /** An unsigned 8-bit byte, as in C#'s `byte`. */
  newtype byte = x: int | 0 <= x < 256

  /** A signed 64-bit integer, as in C#'s `long`. */
  newtype i64 = x: int | -0x8000_0000_0000_0000 <= x < 0x8000_0000_0000_0000

  const MaxLong: int := 0x7FFF_FFFF_FFFF_FFFF

  // ASCII codes of the characters the BEncode grammar uses
  const Zero: byte := 48        // '0'
  const One: byte := 49         // '1'
  const Nine: byte := 57        // '9'
  const Colon: byte := 58       // ':'
  const Minus: byte := 45       // '-'
  const MarkerInt: byte := 105  // 'i'
  const MarkerList: byte := 108 // 'l'
  const MarkerDict: byte := 100 // 'd'
  const MarkerEnd: byte := 101  // 'e'

  predicate IsDigit(b: byte) {
    Zero <= b <= Nine
  }

  /** A byte that starts a value: a digit, 'i', 'l' or 'd' (the four
      branches the decoder dispatches on). */
  predicate IsTypeMarker(b: byte) {
    IsDigit(b) || b == MarkerInt || b == MarkerList || b == MarkerDict
  }

  predicate AllDigits(ds: seq<byte>) {
    forall i :: 0 <= i < |ds| ==> IsDigit(ds[i])
  }

  /** The ASCII digit for `d`. */
  function DigitByte(d: int): (b: byte)
    requires 0 <= d < 10
    ensures IsDigit(b) && b as int - Zero as int == d
  {
    (48 + d) as byte
  }

  /** The decimal digits of `n` without leading zeros, as `int.ToString()` writes them. */
  function Digits(n: nat): (r: seq<byte>)
    ensures |r| >= 1 && AllDigits(r)
  {
    if n < 10 then [DigitByte(n)] else Digits(n / 10) + [DigitByte(n % 10)]
  }

  /** `long.ToString()`: an optional '-' followed by the digits of the magnitude. */
  function Decimal(n: int): (r: seq<byte>)
    ensures |r| >= 1 && (r[0] == Minus <==> n < 0)
    ensures AllDigits(if n < 0 then r[1..] else r)
  {
    if n < 0 then [Minus] + Digits(-n) else Digits(n)
  }

  /** The number a run of ASCII digits denotes, as `long.Parse` reads it
      before its range check. */
  function DecimalValue(ds: seq<byte>): (r: nat)
    requires AllDigits(ds)
    ensures r < Pow10(|ds|)
  {
    if ds == [] then 0
    else DecimalValue(ds[..|ds| - 1]) * 10 + (ds[|ds| - 1] as int - Zero as int)
  }

  /** C#'s unchecked 32-bit `int` arithmetic: the result of `x` reduced into
      [-2^31, 2^31). */
  function Wrap32(x: int): (r: int)
    ensures -0x8000_0000 <= r < 0x8000_0000
    ensures (r - x) % 0x1_0000_0000 == 0
  {
    (x + 0x8000_0000) % 0x1_0000_0000 - 0x8000_0000
  }

  function Pow10(k: nat): (r: nat)
    ensures r >= 1
  {
    if k == 0 then 1 else 10 * Pow10(k - 1)
  }

  /** Reading back the digits of `n` gives `n`. */
  lemma {:induction false} DecimalValueOfDigits(n: nat)
    ensures DecimalValue(Digits(n)) == n
  {
    if n >= 10 {
      DecimalValueOfDigits(n / 10);
      var ds := Digits(n);
      assert ds[..|ds| - 1] == Digits(n / 10);
    }
  }

  /** The first digit of a positive number is never '0'. */
  lemma {:induction false} DigitsNoLeadingZero(n: nat)
    requires n > 0
    ensures One <= Digits(n)[0] <= Nine
  {
    if n >= 10 {
      DigitsNoLeadingZero(n / 10);
    }
  }

  /** A number below 10^k has at most k digits. */
  lemma {:induction false} DigitsLength(n: nat, k: nat)
    requires 1 <= k && n < Pow10(k)
    ensures |Digits(n)| <= k
  {
    if n >= 10 {
      DigitsLength(n / 10, k - 1);
    }
  }

  /** Every 64-bit value fits in nineteen digits. */
  lemma LongDigitsLength(n: nat)
    requires n <= MaxLong
    ensures |Digits(n)| <= 19
  {
    assert Pow10(4) == 10_000;
    assert Pow10(8) == 100_000_000;
    assert Pow10(12) == 1_000_000_000_000;
    assert Pow10(16) == 10_000_000_000_000_000;
    assert Pow10(19) == 10_000_000_000_000_000_000;
    DigitsLength(n, 19);
  }

  /** A value already in 32-bit range is not changed by the wrap-around. */
  lemma Wrap32Identity(x: int)
    requires -0x8000_0000 <= x < 0x8000_0000
    ensures Wrap32(x) == x
  {
  }

  /** Folding in one more decimal digit commutes with the 32-bit
      wrap-around: wrapping after every step, as C#'s unchecked `int`
      does, ends at the wrap of the exact value. */
  lemma Wrap32Step(x: int, d: int)
    ensures Wrap32(Wrap32(x) * 10 + d) == Wrap32(x * 10 + d)
  {
    var n := 0x1_0000_0000;
    var k := (x + 0x8000_0000) / n;
    assert Wrap32(x) == x - k * n;
    var y := x * 10 + d + 0x8000_0000;
    var q, r := y / n, y % n;
    assert y - 10 * k * n == (q - 10 * k) * n + r;
  }

  /** Appending a digit never makes the decimal value smaller. */
  lemma DecimalValuePrefix(ds: seq<byte>, k: nat)
    requires AllDigits(ds) && k <= |ds|
    ensures DecimalValue(ds[..k]) <= DecimalValue(ds)
    decreases |ds| - k
  {
    if k == |ds| {
      assert ds[..k] == ds;
    } else {
      DecimalValuePrefix(ds, k + 1);
      var p := ds[..k + 1];
      assert p[..|p| - 1] == ds[..k];
      assert DecimalValue(p) == DecimalValue(ds[..k]) * 10 + (p[k] as int - Zero as int);
    }
  }

  /** `Encoding.UTF8.GetBytes` for one Unicode scalar value. */
  function Utf8Char(c: char): (r: seq<byte>)
    ensures 1 <= |r| <= 4
    ensures |r| == 1 <==> (c as int) < 0x80
  {
    var n := c as int;
    if n < 0x80 then [n as byte]
    else if n < 0x800 then [(0xC0 + n / 0x40) as byte, (0x80 + n % 0x40) as byte]
    else if n < 0x1_0000 then
      [(0xE0 + n / 0x1000) as byte, (0x80 + n / 0x40 % 0x40) as byte, (0x80 + n % 0x40) as byte]
    else
      [(0xF0 + n / 0x4_0000) as byte, (0x80 + n / 0x1000 % 0x40) as byte,
       (0x80 + n / 0x40 % 0x40) as byte, (0x80 + n % 0x40) as byte]
  }

  /** `Encoding.UTF8.GetBytes` for a string. */
  function Utf8(str: string): (r: seq<byte>)
    ensures |str| <= |r| <= 4 * |str|
  {
    if str == [] then [] else Utf8Char(str[0]) + Utf8(str[1..])
  }

  /** A string never encodes to fewer bytes than it has characters, and
      to exactly as many when every character is ASCII. */
  lemma {:induction false} Utf8Length(str: string)
    ensures |Utf8(str)| >= |str|
    ensures |Utf8(str)| == |str| <==> forall i :: 0 <= i < |str| ==> (str[i] as int) < 0x80
  {
    if str != [] {
      Utf8Length(str[1..]);
      assert forall i :: 1 <= i < |str| ==> str[i] == str[1..][i - 1];
    }
  }
}
