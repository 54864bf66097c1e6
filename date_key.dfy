/**
 * The document key of an attendance record: `"{email}-{yyyy-MM-dd}"`, with the
 * date written by `String.format("%04d-%02d-%02d", year, month, day)`, and the
 * reverse step that recovers an email from a key with `split("-")[0]`.
 */
module DateKey {

  import opened Wrappers

  function DigitChar(d: nat): (c: char)
    requires d < 10
    ensures '0' <= c <= '9'
  {
    "0123456789"[d]
  }

  predicate IsDigit(c: char) {
    '0' <= c <= '9'
  }

  predicate AllDigits(s: string) {
    forall k :: 0 <= k < |s| ==> IsDigit(s[k])
  }

  /** Decimal notation of `n`, no leading zeros ("0" for zero). */
  function Decimal(n: nat): (s: string)
    ensures 1 <= |s| && AllDigits(s)
  {
    if n < 10 then [DigitChar(n)] else Decimal(n / 10) + [DigitChar(n % 10)]
  }

  /** The value of a string of decimal digits, most significant first. */
  function DigitsValue(s: string): nat
    requires AllDigits(s)
  {
    if s == [] then 0 else DigitsValue(s[..|s| - 1]) * 10 + (s[|s| - 1] as int - '0' as int)
  }

  function Pow10(w: nat): (p: nat)
    ensures p >= 1
  {
    if w == 0 then 1 else 10 * Pow10(w - 1)
  }

  function Zeros(k: nat): (s: string)
    ensures |s| == k && forall i :: 0 <= i < k ==> s[i] == '0'
  {
    if k == 0 then [] else Zeros(k - 1) + "0"
  }

  /** `%0{width}d` of a non-negative number: at least `width` characters, padded with zeros on the left. */
  function ZeroPad(n: nat, width: nat): (s: string)
  {
    var digits := Decimal(n);
    (if |digits| < width then Zeros(width - |digits|) else []) + digits
  }

  lemma {:induction false} DecimalValue(n: nat)
    ensures DigitsValue(Decimal(n)) == n
  {
    if n >= 10 {
      DecimalValue(n / 10);
      var s := Decimal(n);
      assert s[..|s| - 1] == Decimal(n / 10);
    }
  }

  lemma {:induction false} DecimalLength(n: nat, w: nat)
    requires 1 <= w && n < Pow10(w)
    ensures |Decimal(n)| <= w
  {
    if n >= 10 {
      assert n / 10 < Pow10(w - 1);
      DecimalLength(n / 10, w - 1);
    }
  }

  lemma {:induction false} LeadingZerosValue(k: nat, s: string)
    requires AllDigits(s)
    ensures AllDigits(Zeros(k) + s) && DigitsValue(Zeros(k) + s) == DigitsValue(s)
  {
    if s == [] {
      assert Zeros(k) + s == Zeros(k);
      ZerosValue(k);
    } else {
      var t := Zeros(k) + s;
      assert t[..|t| - 1] == Zeros(k) + s[..|s| - 1];
      LeadingZerosValue(k, s[..|s| - 1]);
    }
  }

  lemma {:induction false} ZerosValue(k: nat)
    ensures AllDigits(Zeros(k)) && DigitsValue(Zeros(k)) == 0
  {
    if k > 0 {
      assert Zeros(k)[..k - 1] == Zeros(k - 1);
      ZerosValue(k - 1);
    }
  }

  /** `%0{width}d` writes only digits, and reading them back gives the number. */
  lemma ZeroPadRoundTrip(n: nat, width: nat)
    ensures AllDigits(ZeroPad(n, width)) && DigitsValue(ZeroPad(n, width)) == n
  {
    var digits := Decimal(n);
    DecimalValue(n);
    if |digits| < width {
      LeadingZerosValue(width - |digits|, digits);
      assert ZeroPad(n, width) == Zeros(width - |digits|) + digits;
    } else {
      assert ZeroPad(n, width) == digits;
    }
  }

  /** A number below 10^width is written in exactly `width` characters. */
  lemma ZeroPadWidth(n: nat, width: nat)
    requires 1 <= width && n < Pow10(width)
    ensures |ZeroPad(n, width)| == width
  {
    DecimalLength(n, width);
  }

  /** `String.format("%04d-%02d-%02d", year, month, day)`. */
  function FormatDate(year: nat, month: nat, day: nat): string {
    ZeroPad(year, 4) + "-" + ZeroPad(month, 2) + "-" + ZeroPad(day, 2)
  }

  /**
   * `getCurrentDate`: the calendar's year, zero-based month and day of month,
   * with the month shifted to be one-based.
   */
  function CurrentDate(year: nat, calendarMonth: nat, dayOfMonth: nat): string {
    FormatDate(year, calendarMonth + 1, dayOfMonth)
  }

  /** Reads a `yyyy-MM-dd` string back into year, month and day. */
  function ParseDate(s: string): (r: Option<(nat, nat, nat)>)
    ensures r.Some? ==> |s| == 10 && s[4] == '-' && s[7] == '-'
  {
    if |s| == 10 && s[4] == '-' && s[7] == '-'
       && AllDigits(s[..4]) && AllDigits(s[5..7]) && AllDigits(s[8..])
    then Some((DigitsValue(s[..4]), DigitsValue(s[5..7]), DigitsValue(s[8..])))
    else None
  }

  /**
   * For every year up to 9999 and every month and day of at most two digits,
   * the date part of the key is exactly ten characters, with the separators
   * at positions 4 and 7, and it reads back as the year, the one-based month
   * and the day.
   */
  lemma CurrentDateRoundTrip(year: nat, calendarMonth: nat, dayOfMonth: nat)
    requires year <= 9999 && calendarMonth + 1 <= 99 && dayOfMonth <= 99
    ensures |CurrentDate(year, calendarMonth, dayOfMonth)| == 10
    ensures ParseDate(CurrentDate(year, calendarMonth, dayOfMonth)) == Some((year, calendarMonth + 1, dayOfMonth))
  {
    var y, m, d := ZeroPad(year, 4), ZeroPad(calendarMonth + 1, 2), ZeroPad(dayOfMonth, 2);
    ZeroPadWidth(year, 4);
    ZeroPadWidth(calendarMonth + 1, 2);
    ZeroPadWidth(dayOfMonth, 2);
    ZeroPadRoundTrip(year, 4);
    ZeroPadRoundTrip(calendarMonth + 1, 2);
    ZeroPadRoundTrip(dayOfMonth, 2);
    var s := CurrentDate(year, calendarMonth, dayOfMonth);
    assert s == y + "-" + m + "-" + d;
    assert s[..4] == y && s[5..7] == m && s[8..] == d;
  }

  /** The record id `"${email}-${getCurrentDate()}"`. */
  function RecordId(email: string, year: nat, calendarMonth: nat, dayOfMonth: nat): string {
    email + "-" + CurrentDate(year, calendarMonth, dayOfMonth)
  }

  /** `s.split(c.toString())[0]`: everything before the first `c`, or all of `s` if it has none. */
  function BeforeFirst(s: string, c: char): (r: string)
    ensures r <= s && c !in r
    ensures |r| == |s| || s[|r|] == c
  {
    if s == [] then []
    else if s[0] == c then []
    else [s[0]] + BeforeFirst(s[1..], c)
  }

  lemma {:induction false} BeforeFirstOfConcat(a: string, c: char, b: string)
    ensures BeforeFirst(a + [c] + b, c) == BeforeFirst(a, c)
  {
    if a != [] && a[0] != c {
      assert (a + [c] + b)[1..] == a[1..] + [c] + b;
      BeforeFirstOfConcat(a[1..], c, b);
    }
  }

  lemma {:induction false} BeforeFirstWithout(s: string, c: char)
    requires c !in s
    ensures BeforeFirst(s, c) == s
  {
    if s != [] {
      assert c !in s[1..];
      BeforeFirstWithout(s[1..], c);
    }
  }

  /**
   * The email recovered from a record id is the email cut at its first '-':
   * the whole email when it has no '-', a truncated one otherwise.
   */
  lemma EmailFromRecordId(email: string, year: nat, calendarMonth: nat, dayOfMonth: nat)
    ensures BeforeFirst(RecordId(email, year, calendarMonth, dayOfMonth), '-') == BeforeFirst(email, '-')
    ensures '-' !in email ==> BeforeFirst(RecordId(email, year, calendarMonth, dayOfMonth), '-') == email
    ensures '-' in email ==> |BeforeFirst(RecordId(email, year, calendarMonth, dayOfMonth), '-')| < |email|
  {
    BeforeFirstOfConcat(email, '-', CurrentDate(year, calendarMonth, dayOfMonth));
    if '-' !in email {
      BeforeFirstWithout(email, '-');
    }
  }
}
