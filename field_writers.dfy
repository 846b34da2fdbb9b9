/**
 * The fixed-width field writers `encodeString`, `encodeInt`, `encodeFloat`
 * and `encodeDate`. Each writes a formatted value left-aligned into a
 * destination slice and leaves the bytes after it as they were.
 *
 * The functions state what a writer does to the slice's contents; the
 * methods do it in place, on the part `b[lo..hi)` of the row buffer that the
 * Go slice `dst` aliases.
 */
module FieldWriters {
  import opened Wrappers
  import opened Bytes
  import opened Decimal
  import opened Errors

  /**
   * The numeric reading of a text field: `Some(t)` when `strconv.ParseFloat(s, 32)`
   * accepts `s`, with `t` the text `fmt.Sprintf("%f", float32(n))` of the
   * parsed value, and `None` when it does not. Floating point is not modelled;
   * callers supply this function.
   */
  type NumericText = Bytes -> Option<Bytes>

  type Month = m: int | 1 <= m <= 12 witness 1
  type Day = d: int | 1 <= d <= 31 witness 1
  type Year = y: int | 0 <= y <= 9999 witness 0

  /** The calendar date of a `time.Time`; the clock time is never formatted. */
  datatype Time = Time(year: Year, month: Month, day: Day)

  function Min(a: nat, b: nat): nat
  {
    if a <= b then a else b
  }

  /**
   * Go's `copy(dst, src)` on values: the first min(|dst|, |src|) bytes come
   * from `src`, the others stay as in `dst`.
   */
  function Copy(dst: Bytes, src: Bytes): (r: Bytes)
    ensures |r| == |dst|
    ensures forall k :: 0 <= k < |dst| ==> r[k] == if k < |src| then src[k] else dst[k]
  {
    var n := Min(|dst|, |src|);
    src[..n] + dst[n..]
  }

  /** The contents of `dst` after writing `text` with a length check, as `encodeInt` and `encodeFloat` do. */
  function PutText(dst: Bytes, text: Bytes): (r: Result<Bytes, Error>)
    ensures r.Ok? ==> |r.value| == |dst|
  {
    if |text| > |dst| then Err(FieldTooLong(|text|, |dst|)) else Ok(Copy(dst, text))
  }

  /** `encodeFloat(dst, f)`, with the float given by its `%f` text. */
  function FloatField(dst: Bytes, text: Bytes): (r: Result<Bytes, Error>)
    ensures r.Ok? ==> |r.value| == |dst|
  {
    PutText(dst, text)
  }

  /**
   * `encodeString(dst, s)`: the length check on the raw string comes first;
   * a string that parses as a float is then handed to `encodeFloat`, any
   * other string is copied.
   */
  function StringField(dst: Bytes, s: Bytes, num: NumericText): (r: Result<Bytes, Error>)
    ensures r.Ok? ==> |r.value| == |dst|
  {
    if |s| > |dst| then Err(FieldTooLong(|s|, |dst|))
    else
      match num(s)
      case Some(text) => FloatField(dst, text)
      case None => Ok(Copy(dst, s))
  }

  /** `encodeInt(dst, n)`: the `%d` text of `n` with a length check. */
  function IntField(dst: Bytes, n: int): (r: Result<Bytes, Error>)
    ensures r.Ok? ==> |r.value| == |dst|
  {
    PutText(dst, FormatInt(n))
  }

  /** Two decimal digits of `n`, zero-padded. */
  function Pad2(n: nat): Bytes
    requires n < 100
  {
    [DigitOf(n / 10), DigitOf(n % 10)]
  }

  /** Four decimal digits of `n`, zero-padded. */
  function Pad4(n: nat): Bytes
    requires n < 10000
  {
    [DigitOf(n / 1000), DigitOf(n / 100 % 10), DigitOf(n / 10 % 10), DigitOf(n % 10)]
  }

  /** `t.Format("01022006")`: month, day and year as MMDDYYYY. */
  function DateText(t: Time): Bytes
  {
    Pad2(t.month) + Pad2(t.day) + Pad4(t.year)
  }

  /** Reads MMDDYYYY back into a date; `None` for anything that is not eight digits of a valid date. */
  function ParseDate(s: Bytes): Option<Time>
  {
    if |s| != 8 || !AllDigits(s) then None
    else
      var month := 10 * ValueOf(s[0]) + ValueOf(s[1]);
      var day := 10 * ValueOf(s[2]) + ValueOf(s[3]);
      var year := 1000 * ValueOf(s[4]) + 100 * ValueOf(s[5]) + 10 * ValueOf(s[6]) + ValueOf(s[7]);
      if 1 <= month <= 12 && 1 <= day <= 31 then Some(Time(year, month, day)) else None
  }

  /** `encodeDate(dst, d)`: copies MMDDYYYY, truncated to the slice, with no length check. */
  function DateField(dst: Bytes, t: Time): (r: Result<Bytes, Error>)
    ensures r.Ok? ==> |r.value| == |dst|
  {
    Ok(Copy(dst, DateText(t)))
  }

  /** A writer's outcome, as the `error` it returns. */
  function OutcomeOf(r: Result<Bytes, Error>): Outcome<Error>
  {
    if r.Ok? then Pass else Fail(r.error)
  }

  /** The buffer after a writer's result for `buf[lo..hi)` is in place; an error leaves it as it was. */
  function Spliced(buf: Bytes, lo: nat, hi: nat, r: Result<Bytes, Error>): Bytes
    requires lo <= hi <= |buf|
  {
    if r.Ok? && |r.value| == hi - lo then buf[..lo] + r.value + buf[hi..] else buf
  }

  /** Splicing a slice's own bytes back in leaves the buffer as it was. */
  lemma SplicedSame(buf: Bytes, lo: nat, hi: nat)
    requires lo <= hi <= |buf|
    ensures Spliced(buf, lo, hi, Ok(buf[lo..hi])) == buf
  {
    assert buf[..lo] + buf[lo..hi] + buf[hi..] == buf;
  }

  /** A writer's output spliced in: it fills `[lo, hi)` and every other byte is the buffer's. */
  lemma SplicedContents(buf: Bytes, lo: nat, hi: nat, v: Bytes)
    requires lo <= hi <= |buf| && |v| == hi - lo
    ensures |Spliced(buf, lo, hi, Ok(v))| == |buf|
    ensures Spliced(buf, lo, hi, Ok(v))[lo..hi] == v
    ensures forall i :: 0 <= i < |buf| && !(lo <= i < hi) ==> Spliced(buf, lo, hi, Ok(v))[i] == buf[i]
  {
    var r := buf[..lo] + v + buf[hi..];
    assert r[lo..hi] == v;
    forall i | 0 <= i < |buf| && !(lo <= i < hi)
      ensures r[i] == buf[i]
    {
      if i < lo {
        assert r[i] == buf[..lo][i];
      } else {
        assert r[i] == buf[hi..][i - hi];
      }
    }
  }

  // ---- Properties of the writers ----

  /**
   * The contract `encodeInt` and `encodeFloat` share: a text longer than the
   * slice is an error; otherwise the text fills the first bytes, the rest of
   * the slice is kept, and a text of exactly the slice's width fills it.
   */
  lemma PutTextContract(dst: Bytes, text: Bytes)
    ensures PutText(dst, text).Err? <==> |text| > |dst|
    ensures PutText(dst, text).Err? ==> PutText(dst, text).error == FieldTooLong(|text|, |dst|)
    ensures PutText(dst, text).Ok? ==>
      PutText(dst, text).value[..|text|] == text && PutText(dst, text).value[|text|..] == dst[|text|..]
    ensures |text| == |dst| ==> PutText(dst, text) == Ok(text)
  {
    if |text| <= |dst| {
      var r := PutText(dst, text).value;
      assert r[..|text|] == text;
      assert r[|text|..] == dst[|text|..];
      if |text| == |dst| {
        assert r == r[..|text|];
      }
    }
  }

  /**
   * `encodeString`: a raw string longer than the slice is an error before
   * any numeric test; a non-numeric string is copied left-aligned; a numeric
   * one becomes its float text, left-aligned too (there is no right
   * alignment), and fails if that text is longer than the slice.
   */
  lemma StringFieldContract(dst: Bytes, s: Bytes, num: NumericText)
    ensures |s| > |dst| ==> StringField(dst, s, num) == Err(FieldTooLong(|s|, |dst|))
    ensures |s| <= |dst| && num(s).None? ==>
      StringField(dst, s, num).Ok? &&
      StringField(dst, s, num).value[..|s|] == s && StringField(dst, s, num).value[|s|..] == dst[|s|..]
    ensures |s| <= |dst| && num(s).Some? ==>
      var t := num(s).value;
      (StringField(dst, s, num).Err? <==> |t| > |dst|) &&
      (|t| <= |dst| ==>
        StringField(dst, s, num).value[..|t|] == t && StringField(dst, s, num).value[|t|..] == dst[|t|..])
  {
    PutTextContract(dst, s);
    if num(s).Some? {
      PutTextContract(dst, num(s).value);
    }
  }

  /**
   * A numeric string can pass the raw length check and still fail: when
   * `"1"` reads as `1.000000`, it does not fit a one-byte field.
   */
  lemma NumericStringOverflows(dst: Bytes, num: NumericText)
    requires |dst| == 1 && num("1") == Some("1.000000")
    ensures |"1"| <= |dst|
    ensures StringField(dst, "1", num) == Err(FieldTooLong(8, 1))
  {
  }

  /** Exact fit and one byte over, for a non-numeric string. */
  lemma StringFieldBoundary(dst: Bytes, s: Bytes, c: Byte, num: NumericText)
    requires |s| == |dst| && num(s).None?
    ensures StringField(dst, s, num) == Ok(s)
    ensures StringField(dst, s + [c], num) == Err(FieldTooLong(|dst| + 1, |dst|))
  {
    assert Copy(dst, s) == s;
  }

  /** Strip trailing blanks, as `strings.TrimRight(s, " ")`. */
  function TrimBlanks(s: Bytes): (r: Bytes)
    ensures |r| <= |s|
  {
    if s != [] && s[|s| - 1] == BLANK then TrimBlanks(s[..|s| - 1]) else s
  }

  lemma {:induction false} TrimAppendedBlanks(x: Bytes, k: nat)
    requires x != [] && x[|x| - 1] != BLANK
    ensures TrimBlanks(x + Blanks(k)) == x
  {
    if k > 0 {
      assert (x + Blanks(k))[..|x| + k - 1] == x + Blanks(k - 1);
      TrimAppendedBlanks(x, k - 1);
    } else {
      assert x + Blanks(0) == x;
    }
  }

  /**
   * An integer written into a blank field of width `w` reads back, after
   * trimming the trailing blanks, as exactly its decimal text; it fails
   * only when that text is wider than the field.
   */
  lemma IntFieldText(w: nat, n: int)
    ensures IntField(Blanks(w), n).Err? <==> |FormatInt(n)| > w
    ensures IntField(Blanks(w), n).Ok? ==> TrimBlanks(IntField(Blanks(w), n).value) == FormatInt(n)
  {
    var t := FormatInt(n);
    FormatIntShape(n);
    if |t| <= w {
      var r := IntField(Blanks(w), n).value;
      assert r == t + Blanks(w - |t|);
      TrimAppendedBlanks(t, w - |t|);
    }
  }

  lemma DigitValue(d: nat)
    requires d < 10
    ensures ValueOf(DigitOf(d)) == d
  {
  }

  lemma Pad2Value(n: nat)
    requires n < 100
    ensures |Pad2(n)| == 2 && AllDigits(Pad2(n))
    ensures 10 * ValueOf(Pad2(n)[0]) + ValueOf(Pad2(n)[1]) == n
  {
    DigitValue(n / 10);
    DigitValue(n % 10);
  }

  lemma Pad4Value(n: nat)
    requires n < 10000
    ensures |Pad4(n)| == 4 && AllDigits(Pad4(n))
    ensures 1000 * ValueOf(Pad4(n)[0]) + 100 * ValueOf(Pad4(n)[1]) + 10 * ValueOf(Pad4(n)[2]) + ValueOf(Pad4(n)[3]) == n
  {
    DigitValue(n / 1000);
    DigitValue(n / 100 % 10);
    DigitValue(n / 10 % 10);
    DigitValue(n % 10);
    var q := n / 10;
    assert n == 10 * q + n % 10;
    assert q / 10 == n / 100 && q % 10 == n / 10 % 10;
    var q2 := q / 10;
    assert q == 10 * q2 + q % 10;
    assert q2 / 10 == n / 1000 && q2 % 10 == n / 100 % 10;
    assert q2 == 10 * (q2 / 10) + q2 % 10;
  }

  /** MMDDYYYY is eight digits and reads back as the date. */
  lemma DateTextRoundTrip(t: Time)
    ensures |DateText(t)| == 8 && AllDigits(DateText(t))
    ensures ParseDate(DateText(t)) == Some(t)
  {
    var s := DateText(t);
    Pad2Value(t.month);
    Pad2Value(t.day);
    Pad4Value(t.year);
    assert s[..2] == Pad2(t.month) && s[2..4] == Pad2(t.day) && s[4..] == Pad4(t.year);
  }

  /** `encodeDate` never fails; it writes the first min(8, |dst|) bytes of MMDDYYYY and keeps the rest. */
  lemma DateFieldContract(dst: Bytes, t: Time)
    ensures DateField(dst, t).Ok?
    ensures var n := Min(8, |dst|);
      DateField(dst, t).value[..n] == DateText(t)[..n] && DateField(dst, t).value[n..] == dst[n..]
    ensures |dst| == 8 ==> DateField(dst, t).value == DateText(t)
  {
    DateTextRoundTrip(t);
    var n := Min(8, |dst|);
    var r := DateField(dst, t).value;
    assert r[..n] == DateText(t)[..n];
    assert r[n..] == dst[n..];
  }

  // ---- The writers, in place ----

  /** Go's `copy(dst, src)` with `dst` the slice `b[lo:hi]`. */
  method CopyInto(b: array<Byte>, lo: nat, hi: nat, src: Bytes)
    requires lo <= hi <= b.Length
    modifies b
    ensures b[..] == old(b[..lo]) + Copy(old(b[lo..hi]), src) + old(b[hi..])
  {
    ghost var before := b[..];
    var n := Min(hi - lo, |src|);
    forall k | lo <= k < lo + n {
      b[k] := src[k - lo];
    }
    ghost var expected := before[..lo] + Copy(before[lo..hi], src) + before[hi..];
    assert |b[..]| == |expected|;
    forall k | 0 <= k < b.Length ensures b[..][k] == expected[k] {
      if lo <= k < hi {
        assert expected[k] == Copy(before[lo..hi], src)[k - lo];
      }
    }
  }

  /** `encodeFloat(dst, f)` with `dst == b[lo:hi]` and the float given by its `%f` text. */
  method EncodeFloat(b: array<Byte>, lo: nat, hi: nat, text: Bytes) returns (r: Outcome<Error>)
    requires lo <= hi <= b.Length
    modifies b
    ensures r == OutcomeOf(FloatField(old(b[lo..hi]), text))
    ensures b[..] == Spliced(old(b[..]), lo, hi, FloatField(old(b[lo..hi]), text))
  {
    if |text| > hi - lo {
      return Fail(FieldTooLong(|text|, hi - lo));
    }
    CopyInto(b, lo, hi, text);
    r := Pass;
  }

  /** `encodeInt(dst, n)` with `dst == b[lo:hi]`. */
  method EncodeInt(b: array<Byte>, lo: nat, hi: nat, n: int) returns (r: Outcome<Error>)
    requires lo <= hi <= b.Length
    modifies b
    ensures r == OutcomeOf(IntField(old(b[lo..hi]), n))
    ensures b[..] == Spliced(old(b[..]), lo, hi, IntField(old(b[lo..hi]), n))
  {
    var text := FormatInt(n);
    if |text| > hi - lo {
      return Fail(FieldTooLong(|text|, hi - lo));
    }
    CopyInto(b, lo, hi, text);
    r := Pass;
  }

  /** `encodeString(dst, s)` with `dst == b[lo:hi]`. */
  method EncodeString(b: array<Byte>, lo: nat, hi: nat, s: Bytes, num: NumericText) returns (r: Outcome<Error>)
    requires lo <= hi <= b.Length
    modifies b
    ensures r == OutcomeOf(StringField(old(b[lo..hi]), s, num))
    ensures b[..] == Spliced(old(b[..]), lo, hi, StringField(old(b[lo..hi]), s, num))
  {
    if |s| > hi - lo {
      return Fail(FieldTooLong(|s|, hi - lo));
    }
    var parsed := num(s);
    if parsed.Some? {
      r := EncodeFloat(b, lo, hi, parsed.value);
      return;
    }
    CopyInto(b, lo, hi, s);
    r := Pass;
  }

  /** `encodeDate(dst, d)` with `dst == b[lo:hi]`. */
  method EncodeDate(b: array<Byte>, lo: nat, hi: nat, t: Time) returns (r: Outcome<Error>)
    requires lo <= hi <= b.Length
    modifies b
    ensures r == OutcomeOf(DateField(old(b[lo..hi]), t))
    ensures b[..] == Spliced(old(b[..]), lo, hi, DateField(old(b[lo..hi]), t))
  {
    CopyInto(b, lo, hi, DateText(t));
    r := Pass;
  }
}
