/** The few pieces of Java's own semantics that the rail network relies on:
    32-bit `int` arithmetic (which wraps around), `String.compareTo`, and the
    decimal rendering of an `int` used when a link is printed. */
module JavaLang {

  datatype Option<T> = None | Some(value: T)

  const MIN_VALUE: int := -0x8000_0000
  /** `Integer.MAX_VALUE`, used by the shortest-path code as "infinity". */
  const MAX_VALUE: int := 0x7fff_ffff

  newtype int32 = x: int | -0x8000_0000 <= x < 0x8000_0000

  /** Two's-complement truncation of an unbounded integer to 32 bits. */
  function Wrap(x: int): (r: int32)
    ensures MIN_VALUE <= x <= MAX_VALUE ==> r as int == x
    ensures (x - r as int) % 0x1_0000_0000 == 0
  {
    ((x - MIN_VALUE) % 0x1_0000_0000 + MIN_VALUE) as int32
  }

  /** Java's `a + b` on two `int`s: the true sum when it fits, and
      otherwise the sum reduced modulo 2^32 into the `int` range. */
  function Add(a: int32, b: int32): (r: int32)
    ensures MIN_VALUE <= a as int + b as int <= MAX_VALUE ==> r as int == a as int + b as int
    ensures (a as int + b as int - r as int) % 0x1_0000_0000 == 0
  {
    Wrap(a as int + b as int)
  }

  /** Java's `a - b` on two `int`s: the true difference when it fits, and
      otherwise the difference reduced modulo 2^32 into the `int` range. */
  function Sub(a: int32, b: int32): (r: int32)
    ensures MIN_VALUE <= a as int - b as int <= MAX_VALUE ==> r as int == a as int - b as int
    ensures (a as int - b as int - r as int) % 0x1_0000_0000 == 0
  {
    Wrap(a as int - b as int)
  }

  /** Adding a positive length to "infinity" wraps to a negative number, so a
      strict "is the candidate smaller" test passes against any distance. */
  lemma AddToInfinityWraps(len: int32)
    requires 0 < len
    ensures Add(MAX_VALUE as int32, len) < 0
    ensures Add(MAX_VALUE as int32, len) as int == MAX_VALUE + len as int - 0x1_0000_0000
  {
    var x := MAX_VALUE + len as int;
    assert 0x8000_0000 <= x - MIN_VALUE < 0x1_0000_0000 + 0x8000_0000;
    assert (x - MIN_VALUE) % 0x1_0000_0000 == x - MIN_VALUE - 0x1_0000_0000;
  }

  /** Java's `String.compareTo`: the difference of the first two characters
      that differ, or else the difference of the lengths. */
  function CompareStrings(a: string, b: string): int {
    if |a| == 0 || |b| == 0 then |a| - |b|
    else if a[0] != b[0] then a[0] as int - b[0] as int
    else CompareStrings(a[1..], b[1..])
  }

  /** Lexicographic order on strings, stated independently of CompareStrings:
      `a` is a proper prefix of `b`, or at the first difference `a` has the
      smaller character. */
  ghost predicate LexLess(a: string, b: string) {
    exists k :: 0 <= k <= |a| && k < |b| && a[..k] == b[..k] && (k == |a| || a[k] < b[k])
  }

  lemma {:induction false} CompareStringsZero(a: string, b: string)
    ensures CompareStrings(a, b) == 0 <==> a == b
  {
    if |a| == 0 || |b| == 0 {
    } else if a[0] != b[0] {
    } else {
      CompareStringsZero(a[1..], b[1..]);
      assert a == [a[0]] + a[1..] && b == [b[0]] + b[1..];
    }
  }

  lemma {:induction false} CompareStringsAntisymmetric(a: string, b: string)
    ensures CompareStrings(a, b) == -CompareStrings(b, a)
  {
    if |a| == 0 || |b| == 0 {
    } else if a[0] != b[0] {
    } else {
      CompareStringsAntisymmetric(a[1..], b[1..]);
    }
  }

  /** A witness of LexLess makes CompareStrings negative. */
  lemma {:induction false} LexLessCompare(a: string, b: string, k: nat)
    requires k <= |a| && k < |b| && a[..k] == b[..k] && (k == |a| || a[k] < b[k])
    ensures CompareStrings(a, b) < 0
    decreases k
  {
    if k > 0 {
      assert a[0] == a[..k][0] && b[0] == b[..k][0];
      assert a[1..][..k - 1] == a[..k][1..] && b[1..][..k - 1] == b[..k][1..];
      LexLessCompare(a[1..], b[1..], k - 1);
    }
  }

  /** A negative CompareStrings yields a witness of LexLess. */
  lemma {:induction false} CompareLexLess(a: string, b: string) returns (k: nat)
    requires CompareStrings(a, b) < 0
    ensures k <= |a| && k < |b| && a[..k] == b[..k] && (k == |a| || a[k] < b[k])
  {
    if |a| == 0 || |b| == 0 || a[0] != b[0] {
      k := 0;
    } else {
      var j := CompareLexLess(a[1..], b[1..]);
      k := j + 1;
      assert a[..k] == [a[0]] + a[1..][..j];
      assert b[..k] == [b[0]] + b[1..][..j];
    }
  }

  lemma CompareStringsNegative(a: string, b: string)
    ensures CompareStrings(a, b) < 0 <==> LexLess(a, b)
  {
    if CompareStrings(a, b) < 0 {
      var k := CompareLexLess(a, b);
    }
    if LexLess(a, b) {
      var k :| 0 <= k <= |a| && k < |b| && a[..k] == b[..k] && (k == |a| || a[k] < b[k]);
      LexLessCompare(a, b, k);
    }
  }

  /** The character of a decimal digit. */
  function DigitChar(d: nat): char
    requires d < 10
  {
    "0123456789"[d]
  }

  /** The numeric value of a decimal digit character. */
  function DigitValue(c: char): nat {
    if '0' <= c <= '9' then c as int - '0' as int else 0
  }

  predicate IsDigit(c: char) {
    '0' <= c <= '9'
  }

  /** Decimal rendering of a natural number, most significant digit first. */
  function NatToDecimal(n: nat): string
    decreases n
  {
    if n < 10 then [DigitChar(n)] else NatToDecimal(n / 10) + [DigitChar(n % 10)]
  }

  /** `Integer.toString` (and string concatenation of an `int`). */
  function IntToString(n: int32): string {
    if n < 0 then "-" + NatToDecimal(-(n as int)) else NatToDecimal(n as int)
  }

  /** A reference reading of a decimal string: the inverse of IntToString. */
  function DecimalValue(s: string): nat {
    if s == [] then 0 else DecimalValue(s[..|s| - 1]) * 10 + DigitValue(s[|s| - 1])
  }

  /** A reference reading of an optionally negative decimal string, used
      only to state that IntToString loses nothing. It is not Java's
      `Integer.parseInt`: there is no range check and no leading `+`. */
  function ReadInt(s: string): Option<int> {
    if |s| > 1 && s[0] == '-' && forall i :: 1 <= i < |s| ==> IsDigit(s[i]) then Some(-(DecimalValue(s[1..]) as int))
    else if |s| > 0 && forall i :: 0 <= i < |s| ==> IsDigit(s[i]) then Some(DecimalValue(s))
    else None
  }

  /** Each digit character is a digit and reads back as its own value. */
  lemma DigitCharValue(d: nat)
    requires d < 10
    ensures IsDigit(DigitChar(d)) && DigitValue(DigitChar(d)) == d
  {
  }

  lemma {:induction false} NatToDecimalDigits(n: nat)
    ensures |NatToDecimal(n)| > 0
    ensures forall i :: 0 <= i < |NatToDecimal(n)| ==> IsDigit(NatToDecimal(n)[i])
    ensures DecimalValue(NatToDecimal(n)) == n
    decreases n
  {
    DigitCharValue(n % 10);
    if n >= 10 {
      NatToDecimalDigits(n / 10);
      var s, p := NatToDecimal(n), NatToDecimal(n / 10);
      assert s == p + [DigitChar(n % 10)];
      assert s[..|s| - 1] == p;
      assert DecimalValue(s) == DecimalValue(p) * 10 + n % 10;
    }
  }

  /** Printing an `int` and reading it back gives the same number. */
  lemma IntToStringRoundTrip(n: int32)
    ensures ReadInt(IntToString(n)) == Some(n as int)
  {
    var m: nat := if n < 0 then -(n as int) else n as int;
    NatToDecimalDigits(m);
    var s := IntToString(n);
    if n < 0 {
      assert s[1..] == NatToDecimal(m);
      assert s[0] == '-';
    } else {
      assert !IsDigit('-');
      assert s[0] != '-' || |s| <= 1;
    }
  }
}
