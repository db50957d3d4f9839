/**
 * C-level values: unsigned `size_t` arithmetic, NUL-terminated strings, and
 * the decimal rendering that Arduino's `String(size_t)` performs.
 *
 * Each `char` stands for one byte of an Arduino `String` or a C string, so
 * a string's length is its byte count (`length()`, `strlen`). Characters
 * above U+00FF have no counterpart in the source.
 */
module Native {

  /**
   * `size_t` values lie in [0, Limit). The model takes a 64-bit `size_t`;
   * every wrap-around is stated in terms of `Limit`, so a 32-bit target
   * changes only this constant.
   */
  const Limit: int := 0x1_0000_0000_0000_0000

  type Size = x: int | 0 <= x < Limit

  /** `uint16_t` values. */
  type U16 = x: int | 0 <= x < 0x1_0000

  /**
   * The characters of a NUL-terminated C string before its terminator: it
   * holds no NUL, its `strlen` is its length, and the terminator sits at
   * index `|s|` of the buffer `s + ['\0']`.
   */
  type CStr = s: string | '\0' !in s && |s| < Limit

  /** `a + b` on `size_t`: wraps around modulo `Limit`. */
  function AddWrap(a: Size, b: Size): (r: Size)
    ensures r == (a + b) % Limit
  {
    if a + b < Limit then a + b else a + b - Limit
  }

  /** `a - b` on `size_t`: wraps around modulo `Limit` when `b > a`. */
  function SubWrap(a: Size, b: Size): (r: Size)
    ensures r == (a - b) % Limit
    ensures b <= a ==> r == a - b
  {
    if b <= a then a - b else a - b + Limit
  }

  predicate IsDigit(c: char) {
    '0' <= c <= '9'
  }

  function DigitValue(c: char): (d: nat)
    requires IsDigit(c)
    ensures d < 10
  {
    c as int - '0' as int
  }

  function Digit(d: nat): (c: char)
    requires d < 10
    ensures IsDigit(c) && DigitValue(c) == d
  {
    (d + '0' as int) as char
  }

  /** Decimal text of `n`, as `String(n)` renders an unsigned number. */
  function Decimal(n: nat): (s: string)
    ensures 1 <= |s|
    ensures forall i :: 0 <= i < |s| ==> IsDigit(s[i])
    ensures 1 < |s| ==> s[0] != '0'
  {
    if n < 10 then [Digit(n)] else Decimal(n / 10) + [Digit(n % 10)]
  }

  /** The value of a string of decimal digits. */
  function ParseDecimal(s: string): nat
    requires forall i :: 0 <= i < |s| ==> IsDigit(s[i])
  {
    if s == [] then 0
    else ParseDecimal(s[..|s| - 1]) * 10 + DigitValue(s[|s| - 1])
  }

  /** Reading back a rendered number gives the number. */
  lemma {:induction false} DecimalRoundTrip(n: nat)
    ensures ParseDecimal(Decimal(n)) == n
  {
    if n >= 10 {
      DecimalRoundTrip(n / 10);
      var s := Decimal(n);
      assert s[..|s| - 1] == Decimal(n / 10);
    }
  }

  /** Different numbers render differently, so a header value determines its number. */
  lemma DecimalInjective(m: nat, n: nat)
    requires Decimal(m) == Decimal(n)
    ensures m == n
  {
    DecimalRoundTrip(m);
    DecimalRoundTrip(n);
  }
}
