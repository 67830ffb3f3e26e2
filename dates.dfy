/**
 * Calendar dates as picked in the entry form, and their `yyyy-MM-dd` text:
 * the form stores activity dates in that shape, and the export file name
 * carries the export day in the same shape.
 */
module Dates {
  import opened Wrappers

  /** A calendar day, without time of day or time zone. */
  datatype Date = Date(year: nat, month: nat, day: nat)

  predicate IsLeapYear(y: nat) {
    (y % 4 == 0 && y % 100 != 0) || y % 400 == 0
  }

  function DaysInMonth(y: nat, m: nat): (r: nat)
    requires 1 <= m <= 12
    ensures 28 <= r <= 31
  {
    if m == 2 then (if IsLeapYear(y) then 29 else 28)
    else if m == 4 || m == 6 || m == 9 || m == 11 then 30
    else 31
  }

  /**
   * A day that exists in the proleptic Gregorian calendar, in the common era
   * (the year before year 1 is written with a different year number).
   */
  predicate ValidDate(d: Date) {
    1 <= d.year && 1 <= d.month <= 12 && 1 <= d.day <= DaysInMonth(d.year, d.month)
  }

  /** Chronological order of two days: `a` is not later than `b`. */
  predicate NotAfter(a: Date, b: Date) {
    a.year < b.year
    || (a.year == b.year && a.month < b.month)
    || (a.year == b.year && a.month == b.month && a.day <= b.day)
  }

  predicate IsDigit(ch: char) {
    '0' <= ch <= '9'
  }

  predicate AllDigits(s: string) {
    forall i :: 0 <= i < |s| ==> IsDigit(s[i])
  }

  function DigitChar(d: nat): (ch: char)
    requires d < 10
    ensures IsDigit(ch) && (ch - '0') as nat == d
  {
    '0' + d as char
  }

  /** The shortest decimal rendering of `n`. */
  function Decimal(n: nat): (r: string)
    ensures |r| > 0 && AllDigits(r)
    ensures n < 10 ==> |r| == 1
    ensures n < 100 ==> |r| <= 2
    ensures r[0] == '0' ==> n == 0
    decreases n
  {
    if n < 10 then [DigitChar(n)] else Decimal(n / 10) + [DigitChar(n % 10)]
  }

  /** `s` left-padded with zeros to at least `width` characters. */
  function ZeroPad(s: string, width: nat): (r: string)
    ensures |r| == if |s| < width then width else |s|
    ensures AllDigits(s) ==> AllDigits(r)
  {
    if |s| < width then seq(width - |s|, _ => '0') + s else s
  }

  /** The number written by a string of decimal digits. */
  function DecimalValue(s: string): (n: nat)
    requires AllDigits(s)
  {
    if s == [] then 0
    else DecimalValue(s[..|s| - 1]) * 10 + (s[|s| - 1] - '0') as nat
  }

  lemma {:induction false} DecimalValueOfDecimal(n: nat)
    ensures DecimalValue(Decimal(n)) == n
    decreases n
  {
    if n >= 10 {
      DecimalValueOfDecimal(n / 10);
      var s := Decimal(n);
      assert s[..|s| - 1] == Decimal(n / 10);
    }
  }

  lemma {:induction false} DecimalValueIgnoresLeadingZeros(k: nat, s: string)
    requires AllDigits(s)
    ensures AllDigits(seq(k, _ => '0') + s)
    ensures DecimalValue(seq(k, _ => '0') + s) == DecimalValue(s)
    decreases |s|
  {
    var z: string := seq(k, _ => '0');
    if s == [] {
      assert z + s == z;
      ZerosValue(k);
    } else {
      var t := z + s;
      assert t[..|t| - 1] == z + s[..|s| - 1];
      DecimalValueIgnoresLeadingZeros(k, s[..|s| - 1]);
    }
  }

  lemma {:induction false} ZerosValue(k: nat)
    ensures AllDigits(seq(k, _ => '0'))
    ensures DecimalValue(seq(k, _ => '0')) == 0
  {
    if k > 0 {
      var z: string := seq(k, _ => '0');
      assert z[..k - 1] == seq(k - 1, _ => '0');
      ZerosValue(k - 1);
    }
  }

  /** The value of a zero-padded rendering is the rendered number. */
  lemma PaddedValue(n: nat, width: nat)
    ensures AllDigits(ZeroPad(Decimal(n), width))
    ensures DecimalValue(ZeroPad(Decimal(n), width)) == n
  {
    var s := Decimal(n);
    DecimalValueOfDecimal(n);
    if |s| < width {
      DecimalValueIgnoresLeadingZeros(width - |s|, s);
    }
  }

  /**
   * date-fns `format(d, "yyyy-MM-dd")`: year of at least four digits,
   * two-digit month and day. Reading the text of a valid day gives the day
   * back, so distinct days get distinct texts.
   */
  function FormatDate(d: Date): (r: string)
    ensures ValidDate(d) ==> ParseDate(r) == Some(d)
  {
    var y, m, dd := ZeroPad(Decimal(d.year), 4), ZeroPad(Decimal(d.month), 2), ZeroPad(Decimal(d.day), 2);
    assert ValidDate(d) ==> ParseDate(y + "-" + m + "-" + dd) == Some(d) by {
      if ValidDate(d) {
        PaddedValue(d.year, 4);
        PaddedValue(d.month, 2);
        PaddedValue(d.day, 2);
        DateTextParts(y, m, dd);
      }
    }
    y + "-" + m + "-" + dd
  }

  /** Reads back a `yyyy-MM-dd` text; the year takes every character before the last six. */
  function ParseDate(s: string): (r: Option<Date>)
  {
    if |s| < 10 then None
    else
      var y, m, d := s[..|s| - 6], s[|s| - 5..|s| - 3], s[|s| - 2..];
      if s[|s| - 6] == '-' && s[|s| - 3] == '-' && AllDigits(y) && AllDigits(m) && AllDigits(d)
      then Some(Date(DecimalValue(y), DecimalValue(m), DecimalValue(d)))
      else None
  }

  /** The rendering of a valid date has the fixed shape: digits, with dashes at the last-but-five and last-but-two places. */
  lemma FormatDateShape(d: Date)
    requires ValidDate(d)
    ensures |FormatDate(d)| >= 10
    ensures forall i :: 0 <= i < |FormatDate(d)| ==>
      (FormatDate(d)[i] == '-' <==> i == |FormatDate(d)| - 6 || i == |FormatDate(d)| - 3)
    ensures forall i :: 0 <= i < |FormatDate(d)| ==> IsDigit(FormatDate(d)[i]) || FormatDate(d)[i] == '-'
    ensures d.year < 10000 ==> |FormatDate(d)| == 10
  {
    var y, m, dd := ZeroPad(Decimal(d.year), 4), ZeroPad(Decimal(d.month), 2), ZeroPad(Decimal(d.day), 2);
    assert |m| == 2 && |dd| == 2;
    if d.year < 10000 {
      DecimalShort(d.year);
    }
  }

  lemma {:induction false} DecimalShort(n: nat)
    requires n < 10000
    ensures |Decimal(n)| <= 4
    decreases n
  {
    if n >= 10 {
      DecimalShort(n / 10);
    }
  }

  /** The pieces of `y-m-d` with two-character `m` and `d`, found from the end of the text. */
  lemma DateTextParts(y: string, m: string, d: string)
    requires |m| == 2 && |d| == 2 && |y| >= 4
    ensures var s := y + "-" + m + "-" + d;
      |s| >= 10 && s[..|s| - 6] == y && s[|s| - 6] == '-' && s[|s| - 5..|s| - 3] == m
      && s[|s| - 3] == '-' && s[|s| - 2..] == d
  {
  }
}
