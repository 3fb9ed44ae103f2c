/** The two pieces of C formatting the front end relies on: printf's "%02d"
    conversion of a non-negative integer, and g_snprintf's truncation of the
    formatted text to the size of the destination buffer. */
module Text {

  predicate IsDigit(c: char) {
    '0' <= c <= '9'
  }

  function Digit(d: nat): (c: char)
    requires d < 10
    ensures IsDigit(c) && (c as int) - ('0' as int) == d
  {
    (('0' as int) + d) as char
  }

  function DigitValue(c: char): (d: nat)
    requires IsDigit(c)
    ensures d < 10 && Digit(d) == c
  {
    (c as int) - ('0' as int)
  }

  /** Decimal digits of n, most significant first, without padding ("%d"). */
  function Decimal(n: nat): (s: string)
    ensures 1 <= |s|
    ensures forall i :: 0 <= i < |s| ==> IsDigit(s[i])
    ensures n < 10 <==> |s| == 1
  {
    if n < 10 then [Digit(n)] else Decimal(n / 10) + [Digit(n % 10)]
  }

  /** Value of a digit string, the inverse of Decimal. */
  function Value(s: string): (v: nat)
    requires forall i :: 0 <= i < |s| ==> IsDigit(s[i])
  {
    if s == [] then 0 else 10 * Value(s[..|s| - 1]) + DigitValue(s[|s| - 1])
  }

  /** "%02d": at least two digits, left-padded with '0'. */
  function Pad2(n: nat): (s: string)
    ensures 2 <= |s|
    ensures forall i :: 0 <= i < |s| ==> IsDigit(s[i])
  {
    var d := Decimal(n);
    if |d| < 2 then ['0'] + d else d
  }

  /** g_snprintf (buf, size, "%s", s): the buffer keeps at most size - 1
      bytes of the formatted text, followed by the terminating NUL. The text
      is a sequence of bytes; for the ASCII texts of the labels one
      character is one byte. A cut may fall inside a multi-byte UTF-8
      character, which then keeps only its leading bytes. */
  function Snprintf<T>(s: seq<T>, size: nat): (r: seq<T>)
    requires 1 <= size
    ensures |r| <= size - 1
    ensures r <= s
    ensures |s| < size ==> r == s
  {
    if |s| < size then s else s[..size - 1]
  }

  /** Parsing back what "%d" printed gives the number. */
  lemma {:induction false} ValueOfDecimal(n: nat)
    ensures Value(Decimal(n)) == n
  {
    var d := Decimal(n);
    if n >= 10 {
      ValueOfDecimal(n / 10);
      assert d[..|d| - 1] == Decimal(n / 10);
    }
  }

  /** Below 100, "%02d" is exactly two digits and reads back as n. */
  lemma Pad2TwoDigits(n: nat)
    requires n < 100
    ensures Pad2(n) == [Digit(n / 10), Digit(n % 10)]
    ensures |Pad2(n)| == 2 && Value(Pad2(n)) == n
  {
    if n >= 10 {
      assert Decimal(n) == Decimal(n / 10) + [Digit(n % 10)];
    }
    var p := Pad2(n);
    assert p[..1] == [p[0]] && [p[0]][..0] == [];
    assert Value([p[0]]) == DigitValue(p[0]);
    assert Value(p) == 10 * DigitValue(p[0]) + DigitValue(p[1]);
  }
}
