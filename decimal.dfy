/**
 * Decimal text of Go integers: `fmt.Sprintf("%d", n)` as used by
 * `encodeInt`, and `strconv.Atoi` as used by `parseSdifTagInt`.
 */
module Decimal {
  import opened Wrappers
  import opened Bytes

  /** Go's `int` on a 64-bit target. */
  const MIN_INT: int := -0x8000_0000_0000_0000
  const MAX_INT: int := 0x7FFF_FFFF_FFFF_FFFF
  type Int64 = n: int | MIN_INT <= n <= MAX_INT

  predicate IsDigit(c: Byte) { '0' <= c <= '9' }

  predicate AllDigits(s: Bytes) { forall i :: 0 <= i < |s| ==> IsDigit(s[i]) }

  function DigitOf(d: nat): (c: Byte)
    requires d < 10
    ensures IsDigit(c)
  {
    ('0' as int + d) as char
  }

  function ValueOf(c: Byte): (d: nat)
    requires IsDigit(c)
    ensures d < 10
  {
    c as int - '0' as int
  }

  /** The value of a string of decimal digits, most significant first. */
  function DigitsValue(s: Bytes): nat
    requires AllDigits(s)
  {
    if s == [] then 0 else 10 * DigitsValue(s[..|s| - 1]) + ValueOf(s[|s| - 1])
  }

  /** The shortest decimal digit string of `n`. */
  function NatText(n: nat): Bytes
  {
    if n < 10 then [DigitOf(n)] else NatText(n / 10) + [DigitOf(n % 10)]
  }

  /** `fmt.Sprintf("%d", n)`: a `-` for negatives, then the digits of |n|. */
  function FormatInt(n: int): Bytes
  {
    if n < 0 then ['-'] + NatText(-n) else NatText(n)
  }

  /** `strconv.Atoi(s)`: an optional sign, one or more digits, and a value that fits `int`. */
  function Atoi(s: Bytes): Option<int>
  {
    var negative := |s| > 0 && s[0] == '-';
    var body := if |s| > 0 && (s[0] == '+' || s[0] == '-') then s[1..] else s;
    if body == [] || !AllDigits(body) then None
    else
      var v: int := if negative then -(DigitsValue(body) as int) else DigitsValue(body);
      if MIN_INT <= v <= MAX_INT then Some(v) else None
  }

  /** The digits of `n` are decimal digits, without a leading zero, and denote `n`. */
  lemma {:induction false} NatTextDigits(n: nat)
    ensures |NatText(n)| >= 1 && AllDigits(NatText(n))
    ensures NatText(n)[0] == '0' ==> n == 0
    ensures DigitsValue(NatText(n)) == n
  {
    if n >= 10 {
      NatTextDigits(n / 10);
      var s := NatText(n);
      assert s[..|s| - 1] == NatText(n / 10);
    }
  }

  /**
   * `%d` text: a leading `-` exactly for negatives, then at least one digit
   * and no leading zero (except for 0 itself); it never ends in a blank.
   */
  lemma FormatIntShape(n: int)
    ensures var t := FormatInt(n);
      var digits := if n < 0 then t[1..] else t;
      |t| >= 1 && (t[0] == '-' <==> n < 0) &&
      |digits| >= 1 && AllDigits(digits) && (digits[0] == '0' ==> n == 0) &&
      t[|t| - 1] != BLANK
  {
    if n < 0 {
      NatTextDigits(-n);
      assert FormatInt(n)[1..] == NatText(-n);
    } else {
      NatTextDigits(n);
    }
  }

  /** Atoi reads back every `%d` text of an `int`. */
  lemma AtoiFormatInt(n: Int64)
    ensures Atoi(FormatInt(n)) == Some(n)
  {
    var m: int := n;
    var t := FormatInt(n);
    if m < 0 {
      NatTextDigits(-m);
      assert t[0] == '-' && t[1..] == NatText(-m);
      assert DigitsValue(t[1..]) == -m;
    } else {
      NatTextDigits(m);
      assert t == NatText(m) && IsDigit(t[0]);
      assert DigitsValue(t) == m;
    }
  }

  /** Atoi rejects a string holding a byte that is neither a digit nor a leading sign. */
  lemma AtoiRejects(s: Bytes, i: nat)
    requires i < |s| && !IsDigit(s[i])
    requires i > 0 || (s[0] != '+' && s[0] != '-')
    ensures Atoi(s) == None
  {
    var body := if |s| > 0 && (s[0] == '+' || s[0] == '-') then s[1..] else s;
    if body == s[1..] {
      assert body[i - 1] == s[i];
    } else {
      assert body[i] == s[i];
    }
  }
}
