/**
  The `date` front-matter field of blog/build.py: `strptime(value, "%Y-%m-%d")`
  and the "Month D, YYYY" display form.

  Python's `_strptime` turns `%Y-%m-%d` into the pattern
  `(\d\d\d\d)-(1[0-2]|0[1-9]|[1-9])-(3[01]|[12]\d|0[1-9]|[1-9]| [1-9])`,
  requires it to cover the whole string, and then builds a `datetime.date`,
  which rejects year 0 and days past the end of the month.
 */
module Dates {
  import opened Text
  import opened Results

  datatype Date = Date(year: nat, month: nat, day: nat)

  predicate IsLeapYear(y: nat) {
    y % 4 == 0 && (y % 100 != 0 || y % 400 == 0)
  }

  function DaysInMonth(y: nat, m: nat): nat
    requires 1 <= m <= 12
  {
    if m == 2 then (if IsLeapYear(y) then 29 else 28)
    else if m == 4 || m == 6 || m == 9 || m == 11 then 30
    else 31
  }

  /** What `datetime.date(year, month, day)` accepts. */
  predicate ValidDate(d: Date) {
    && 1 <= d.year <= 9999
    && 1 <= d.month <= 12
    && 1 <= d.day <= DaysInMonth(d.year, d.month)
  }

  predicate IsNonZeroDigit(c: char) {
    '1' <= c <= '9'
  }

  /** The `%m` group `1[0-2]|0[1-9]|[1-9]`. */
  function MonthField(s: string): (r: Option<nat>)
    ensures r.Some? ==> 1 <= r.value <= 12
  {
    if |s| == 1 && IsNonZeroDigit(s[0]) then Some(DigitValue(s[0]))
    else if |s| == 2 && s[0] == '0' && IsNonZeroDigit(s[1]) then Some(DigitValue(s[1]))
    else if |s| == 2 && s[0] == '1' && '0' <= s[1] <= '2' then Some(10 + DigitValue(s[1]))
    else None
  }

  /** The `%d` group `3[01]|[12]\d|0[1-9]|[1-9]| [1-9]`; note the space-padded form. */
  function DayField(s: string): (r: Option<nat>)
    ensures r.Some? ==> 1 <= r.value <= 31
  {
    if |s| == 1 && IsNonZeroDigit(s[0]) then Some(DigitValue(s[0]))
    else if |s| == 2 && (s[0] == '0' || s[0] == ' ') && IsNonZeroDigit(s[1]) then Some(DigitValue(s[1]))
    else if |s| == 2 && (s[0] == '1' || s[0] == '2') && IsDigit(s[1]) then Some(10 * DigitValue(s[0]) + DigitValue(s[1]))
    else if |s| == 2 && s[0] == '3' && (s[1] == '0' || s[1] == '1') then Some(30 + DigitValue(s[1]))
    else None
  }

  /**
    `strptime(s, "%Y-%m-%d").date()`: `None` where Python raises `ValueError`.
    The month group cannot hold a `-`, so it ends at the first `-` after the year.
   */
  function ParseDate(s: string): (r: Option<Date>)
    ensures r.Some? ==> ValidDate(r.value)
  {
    if |s| < 5 || s[4] != '-' || !(forall k :: 0 <= k < 4 ==> IsDigit(s[k])) then None
    else
      var j := IndexOf(s, '-', 5);
      if j == |s| then None
      else
        match (MonthField(s[5..j]), DayField(s[j + 1..]))
        case (Some(m), Some(d)) =>
          var date := Date(DecimalValue(s[..4]), m, d);
          if ValidDate(date) then Some(date) else None
        case _ => None
  }

  /** ISO form with a zero-padded month and day, as the posts usually write it. */
  function IsoText(d: Date): string {
    PadNat(d.year, 4) + "-" + PadNat(d.month, 2) + "-" + PadNat(d.day, 2)
  }

  lemma FourDigitYear(y: nat)
    requires 1 <= y <= 9999
    ensures |PadNat(y, 4)| == 4
  {
    var d := NatToString(y);
    if |d| > 4 {
      assert DecimalValue(d) >= 10000 by { LongDecimal(d); }
    }
  }

  /** A digit string of `n + 1` characters that does not start with `0` is worth at least `10^n`. */
  lemma {:induction false} LongDecimal(s: string)
    requires |s| >= 5 && s[0] != '0' && (forall k :: 0 <= k < |s| ==> IsDigit(s[k]))
    ensures DecimalValue(s) >= 10000
    decreases |s|
  {
    var p := s[..|s| - 1];
    if |s| == 5 {
      assert DecimalValue(p[..1]) == DigitValue(s[0]) by {
        assert p[..1][..0] == [];
      }
      assert DecimalValue(p[..2]) >= 10 by { assert p[..2][..1] == p[..1]; }
      assert DecimalValue(p[..3]) >= 100 by { assert p[..3][..2] == p[..2]; }
      assert DecimalValue(p) >= 1000 by { assert p[..3] == p[..|p| - 1]; }
    } else {
      LongDecimal(p);
    }
  }

  lemma OneDigit(n: nat)
    requires 1 <= n < 10
    ensures NatToString(n) == [DigitChar(n)]
    ensures PadNat(n, 2) == ['0', DigitChar(n)]
  {
    assert ZeroPrefix(1, [DigitChar(n)]) == ['0'] + ZeroPrefix(0, [DigitChar(n)]);
  }

  lemma TwoDigits(n: nat)
    requires 10 <= n < 100
    ensures NatToString(n) == [DigitChar(n / 10), DigitChar(n % 10)]
    ensures PadNat(n, 2) == NatToString(n)
  {
    assert NatToString(n / 10) == [DigitChar(n / 10)];
  }

  lemma DigitFields(n: nat)
    requires 1 <= n <= 31
    ensures |PadNat(n, 2)| == 2 && |NatToString(n)| <= 2
    ensures n <= 12 ==> MonthField(NatToString(n)) == Some(n) && MonthField(PadNat(n, 2)) == Some(n)
    ensures DayField(NatToString(n)) == Some(n) && DayField(PadNat(n, 2)) == Some(n)
    ensures n < 10 ==> DayField(" " + NatToString(n)) == Some(n)
  {
    if n < 10 {
      OneDigitFields(n);
    } else {
      TwoDigitFields(n);
    }
  }

  lemma OneDigitFields(n: nat)
    requires 1 <= n < 10
    ensures |PadNat(n, 2)| == 2 && |NatToString(n)| == 1
    ensures MonthField(NatToString(n)) == Some(n) && MonthField(PadNat(n, 2)) == Some(n)
    ensures DayField(NatToString(n)) == Some(n) && DayField(PadNat(n, 2)) == Some(n)
    ensures DayField(" " + NatToString(n)) == Some(n)
  {
    OneDigit(n);
    var c := DigitChar(n);
    assert DayField(['0', c]) == Some(n);
    assert DayField([' ', c]) == Some(n) by {
      assert " " + NatToString(n) == [' ', c];
    }
  }

  lemma TwoDigitFields(n: nat)
    requires 10 <= n <= 31
    ensures |PadNat(n, 2)| == 2 && |NatToString(n)| == 2
    ensures n <= 12 ==> MonthField(NatToString(n)) == Some(n) && MonthField(PadNat(n, 2)) == Some(n)
    ensures DayField(NatToString(n)) == Some(n) && DayField(PadNat(n, 2)) == Some(n)
  {
    TwoDigits(n);
    var s := [DigitChar(n / 10), DigitChar(n % 10)];
    assert DigitValue(s[0]) == n / 10 && DigitValue(s[1]) == n % 10;
  }

  /** `ParseDate` on a string already cut into its year, month and day fields. */
  lemma ParseDateFields(s: string, y: string, m: string, d: string)
    requires s == y + "-" + m + "-" + d
    requires |y| == 4 && (forall k :: 0 <= k < 4 ==> IsDigit(y[k]))
    requires forall k :: 0 <= k < |m| ==> m[k] != '-'
    requires MonthField(m).Some? && DayField(d).Some?
    ensures var date := Date(DecimalValue(y), MonthField(m).value, DayField(d).value);
      ParseDate(s) == if ValidDate(date) then Some(date) else None
  {
    assert s[..4] == y && s[4] == '-';
    assert s[5..5 + |m|] == m;
    IndexOfFound(s, '-', 5, 5 + |m|);
    assert s[5 + |m| + 1..] == d;
  }

  /**
    Round trip: a valid date written with a four-digit year and a month and
    day each either zero-padded or not (or, for the day, space-padded) parses
    back to itself.
   */
  lemma ParseWrittenDate(d: Date, monthText: string, dayText: string)
    requires ValidDate(d)
    requires monthText == PadNat(d.month, 2) || monthText == NatToString(d.month)
    requires dayText == PadNat(d.day, 2) || dayText == NatToString(d.day)
      || (d.day < 10 && dayText == " " + NatToString(d.day))
    ensures ParseDate(PadNat(d.year, 4) + "-" + monthText + "-" + dayText) == Some(d)
  {
    FourDigitYear(d.year);
    DigitFields(d.month);
    DigitFields(d.day);
    assert MonthField(monthText) == Some(d.month);
    assert DayField(dayText) == Some(d.day);
    ParseDateFields(PadNat(d.year, 4) + "-" + monthText + "-" + dayText, PadNat(d.year, 4), monthText, dayText);
  }

  lemma IsoRoundTrip(d: Date)
    requires ValidDate(d)
    ensures ParseDate(IsoText(d)) == Some(d)
  {
    ParseWrittenDate(d, PadNat(d.month, 2), PadNat(d.day, 2));
  }

  /**
    `s` is `d` written with a four-digit year, the month zero-padded or bare,
    and the day zero-padded, bare or, below 10, space-padded.
   */
  predicate WrittenAs(s: string, d: Date, monthText: string, dayText: string) {
    && (monthText == PadNat(d.month, 2) || monthText == NatToString(d.month))
    && (dayText == PadNat(d.day, 2) || dayText == NatToString(d.day)
        || (d.day < 10 && dayText == " " + NatToString(d.day)))
    && s == PadNat(d.year, 4) + "-" + monthText + "-" + dayText
  }

  lemma DigitCharValue(c: char)
    requires IsDigit(c)
    ensures DigitChar(DigitValue(c)) == c
  {
  }

  lemma TensUnique(x1: int, d1: int, x2: int, d2: int)
    requires 0 <= d1 < 10 && 0 <= d2 < 10 && 10 * x1 + d1 == 10 * x2 + d2
    ensures x1 == x2 && d1 == d2
  {
  }

  /** Two digit strings of the same length and value are the same string. */
  lemma {:induction false} DigitsInjective(a: string, b: string)
    requires |a| == |b|
    requires (forall k :: 0 <= k < |a| ==> IsDigit(a[k])) && (forall k :: 0 <= k < |b| ==> IsDigit(b[k]))
    requires DecimalValue(a) == DecimalValue(b)
    ensures a == b
    decreases |a|
  {
    if |a| > 0 {
      var n := |a| - 1;
      TensUnique(DecimalValue(a[..n]), DigitValue(a[n]), DecimalValue(b[..n]), DigitValue(b[n]));
      DigitsInjective(a[..n], b[..n]);
      assert a == a[..n] + [a[n]] && b == b[..n] + [b[n]];
    }
  }

  /** The year field is the four-digit form of its value. */
  lemma YearText(y: string)
    requires |y| == 4 && (forall k :: 0 <= k < 4 ==> IsDigit(y[k]))
    requires 1 <= DecimalValue(y) <= 9999
    ensures y == PadNat(DecimalValue(y), 4)
  {
    FourDigitYear(DecimalValue(y));
    DigitsInjective(y, PadNat(DecimalValue(y), 4));
  }

  /** A month field `MonthField` accepts is its value, zero-padded or bare. */
  lemma MonthFieldText(m: string)
    requires MonthField(m).Some?
    ensures m == PadNat(MonthField(m).value, 2) || m == NatToString(MonthField(m).value)
  {
    var v := MonthField(m).value;
    if |m| == 1 {
      OneDigit(v);
      DigitCharValue(m[0]);
    } else if m[0] == '0' {
      OneDigit(v);
      DigitCharValue(m[1]);
    } else {
      TwoDigits(v);
      assert v / 10 == 1 && v % 10 == DigitValue(m[1]);
      DigitCharValue(m[1]);
    }
  }

  /** A day field `DayField` accepts is its value, zero-padded, bare or space-padded. */
  lemma DayFieldText(dd: string)
    requires DayField(dd).Some?
    ensures var v := DayField(dd).value;
      dd == PadNat(v, 2) || dd == NatToString(v) || (v < 10 && dd == " " + NatToString(v))
  {
    var v := DayField(dd).value;
    if |dd| == 1 {
      OneDigit(v);
      DigitCharValue(dd[0]);
    } else if dd[0] == '0' || dd[0] == ' ' {
      OneDigit(v);
      DigitCharValue(dd[1]);
    } else {
      TwoDigits(v);
      var a, b := DigitValue(dd[0]), DigitValue(dd[1]);
      assert v == 10 * a + b && b < 10;
      assert v / 10 == a && v % 10 == b;
      DigitCharValue(dd[0]);
      DigitCharValue(dd[1]);
    }
  }

  /**
    The converse of `ParseWrittenDate`: every string `ParseDate` accepts is
    its date written in one of those forms, so nothing else (a short year, a
    trailing character) gets through.
   */
  lemma ParseDateWritten(s: string, d: Date)
    requires ParseDate(s) == Some(d)
    ensures exists monthText, dayText :: WrittenAs(s, d, monthText, dayText)
  {
    var j := IndexOf(s, '-', 5);
    ParseDateRead(s, d);
    var y, m, dd := s[..4], s[5..j], s[j + 1..];
    YearText(y);
    MonthFieldText(m);
    DayFieldText(dd);
    assert WrittenAs(s, d, m, dd);
  }

  /** What `ParseDate` read: four digits, a `-`, the month field, a `-`, the day field. */
  lemma ParseDateRead(s: string, d: Date)
    requires ParseDate(s) == Some(d)
    ensures |s| >= 5 && IndexOf(s, '-', 5) < |s|
    ensures forall k :: 0 <= k < 4 ==> IsDigit(s[..4][k])
    ensures d.year == DecimalValue(s[..4]) && 1 <= d.year <= 9999
    ensures MonthField(s[5..IndexOf(s, '-', 5)]) == Some(d.month)
    ensures DayField(s[IndexOf(s, '-', 5) + 1..]) == Some(d.day)
    ensures s == s[..4] + "-" + s[5..IndexOf(s, '-', 5)] + "-" + s[IndexOf(s, '-', 5) + 1..]
  {
    CutAtDashes(s, 4, 5, IndexOf(s, '-', 5));
  }

  lemma CutAtDashes(s: string, i: nat, i1: nat, j: nat)
    requires i1 == i + 1 && i < j < |s| && s[i] == '-' && s[j] == '-'
    ensures s == s[..i] + "-" + s[i1..j] + "-" + s[j + 1..]
  {
    var t := s[..i] + "-" + s[i1..j] + "-" + s[j + 1..];
    assert |t| == |s|;
    forall k | 0 <= k < |s| ensures t[k] == s[k] {
    }
  }

  /** `ParseDate` accepts exactly the valid dates written in the forms of `WrittenAs`. */
  lemma ParseDateIff(s: string, d: Date)
    ensures ParseDate(s) == Some(d) <==> ValidDate(d) && exists monthText, dayText :: WrittenAs(s, d, monthText, dayText)
  {
    if ParseDate(s) == Some(d) {
      ParseDateWritten(s, d);
    }
    if ValidDate(d) && exists monthText, dayText :: WrittenAs(s, d, monthText, dayText) {
      var monthText, dayText :| WrittenAs(s, d, monthText, dayText);
      ParseWrittenDate(d, monthText, dayText);
    }
  }

  function MonthName(m: nat): (r: string)
    requires 1 <= m <= 12
    ensures |r| >= 3
  {
    ["January", "February", "March", "April", "May", "June", "July",
     "August", "September", "October", "November", "December"][m - 1]
  }

  /**
    `strftime("%B %-d, %Y")`: full English month name, the day without a
    leading zero, the year with four digits.
   */
  function DisplayDate(d: Date): (r: string)
    requires ValidDate(d)
  {
    MonthName(d.month) + " " + NatToString(d.day) + ", " + PadNat(d.year, 4)
  }

  /** Month number read back from the letters that tell the English month names apart. */
  function MonthFromName(p: string): nat
    requires |p| >= 3
  {
    if p[0] == 'J' then (if p[1] == 'a' then 1 else if p[2] == 'n' then 6 else 7)
    else if p[0] == 'F' then 2
    else if p[0] == 'M' then (if p[2] == 'r' then 3 else 5)
    else if p[0] == 'A' then (if p[1] == 'p' then 4 else 8)
    else if p[0] == 'S' then 9
    else if p[0] == 'O' then 10
    else if p[0] == 'N' then 11
    else 12
  }

  lemma MonthNameRead(m: nat, rest: string)
    requires 1 <= m <= 12
    ensures MonthFromName(MonthName(m) + rest) == m
  {
    var t := MonthName(m) + rest;
    assert t[..|MonthName(m)|] == MonthName(m);
    assert t[0] == MonthName(m)[0] && t[1] == MonthName(m)[1] && t[2] == MonthName(m)[2];
  }

  /** Cutting after the first space and at the first comma recovers both sides of the join. */
  lemma CommaSplit(x1: string, z1: string, x2: string, z2: string)
    requires forall k :: 0 <= k < |x1| ==> x1[k] != ','
    requires forall k :: 0 <= k < |x2| ==> x2[k] != ','
    requires " " + x1 + ", " + z1 == " " + x2 + ", " + z2
    ensures x1 == x2 && z1 == z2
  {
    var t := " " + x1 + ", " + z1;
    IndexOfFound(t, ',', 1, |x1| + 1);
    IndexOfFound(" " + x2 + ", " + z2, ',', 1, |x2| + 1);
    assert x1 == t[1..|x1| + 1] == x2;
    assert z1 == t[|x1| + 3..] == z2;
  }

  lemma DayYearInjective(d1: nat, y1: nat, d2: nat, y2: nat)
    requires " " + NatToString(d1) + ", " + PadNat(y1, 4) == " " + NatToString(d2) + ", " + PadNat(y2, 4)
    ensures d1 == d2 && y1 == y2
  {
    var x1, z1 := NatToString(d1), PadNat(y1, 4);
    var x2, z2 := NatToString(d2), PadNat(y2, 4);
    CommaSplit(x1, z1, x2, z2);
    assert d1 == DecimalValue(x1) && d2 == DecimalValue(x2);
    assert y1 == DecimalValue(z1) && y2 == DecimalValue(z2);
  }

  /** The display string as the month name followed by the rest. */
  lemma DisplayParts(d: Date)
    requires ValidDate(d)
    ensures DisplayDate(d) == MonthName(d.month) + (" " + NatToString(d.day) + ", " + PadNat(d.year, 4))
  {
  }

  /** A month name and what follows it are recovered from their concatenation. */
  lemma MonthNameSplit(m1: nat, t1: string, m2: nat, t2: string)
    requires 1 <= m1 <= 12 && 1 <= m2 <= 12
    requires MonthName(m1) + t1 == MonthName(m2) + t2
    ensures m1 == m2 && t1 == t2
  {
    MonthNameRead(m1, t1);
    MonthNameRead(m2, t2);
    var s := MonthName(m1) + t1;
    assert t1 == s[|MonthName(m1)|..];
  }

  /** Two different dates never share a display string. */
  lemma DisplayDateInjective(a: Date, b: Date)
    requires ValidDate(a) && ValidDate(b)
    requires DisplayDate(a) == DisplayDate(b)
    ensures a == b
  {
    DisplayParts(a);
    DisplayParts(b);
    MonthNameSplit(a.month, " " + NatToString(a.day) + ", " + PadNat(a.year, 4),
                   b.month, " " + NatToString(b.day) + ", " + PadNat(b.year, 4));
    DayYearInjective(a.day, a.year, b.day, b.year);
  }

  lemma Year2024()
    ensures PadNat(2024, 4) == "2024"
  {
    assert NatToString(2) == "2";
    assert NatToString(20) == "20" by { assert NatToString(20) == NatToString(2) + [DigitChar(0)]; }
    assert NatToString(202) == "202" by { assert NatToString(202) == NatToString(20) + [DigitChar(2)]; }
    assert NatToString(2024) == "2024" by { assert NatToString(2024) == NatToString(202) + [DigitChar(4)]; }
  }

  /** The example date 2024-03-05 as it is usually written parses. */
  lemma ExampleParses()
    ensures ParseDate("2024-03-05") == Some(Date(2024, 3, 5))
  {
    var d := Date(2024, 3, 5);
    IsoRoundTrip(d);
    assert IsoText(d) == "2024-03-05" by {
      Year2024();
      OneDigit(3);
      OneDigit(5);
    }
  }

  /** ... and is shown as "March 5, 2024". */
  lemma ExampleDisplays()
    ensures DisplayDate(Date(2024, 3, 5)) == "March 5, 2024"
  {
    Year2024();
    OneDigit(5);
  }

  /** Impossible calendar dates and a two-digit year are rejected. */
  lemma RejectedDates()
    ensures ParseDate("2023-02-29") == None
    ensures ParseDate("2024-13-01") == None
    ensures ParseDate("24-03-05") == None
  {
    var s := "2023-02-29";
    IndexOfFound(s, '-', 5, 7);
    assert s[5..7] == "02" && s[8..] == "29";
    assert DecimalValue(s[..4]) == 2023 by {
      assert s[..4] == "2023";
      assert "2023"[..3] == "202" && "202"[..2] == "20" && "20"[..1] == "2" && "2"[..0] == "";
    }
    var t := "2024-13-01";
    IndexOfFound(t, '-', 5, 7);
    assert t[5..7] == "13";
  }
}
