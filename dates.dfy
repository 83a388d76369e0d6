/**
 * Registration dates: `pd.to_datetime(..., format='%d/%m/%Y', errors='coerce')`
 * (main.py:121). The text must match the pattern in full, name a real
 * calendar day and lie within the range pandas timestamps can hold;
 * anything else, a missing cell included, becomes "no date" (NaT).
 */
module Dates {
  import opened Wrappers
  import opened Text
  import opened Digits

  datatype Date = Date(day: nat, month: nat, year: nat)

  predicate IsLeapYear(y: nat)
  {
    y % 4 == 0 && (y % 100 != 0 || y % 400 == 0)
  }

  function DaysInMonth(month: nat, year: nat): (n: nat)
    requires 1 <= month <= 12
    ensures 28 <= n <= 31
  {
    if month == 2 then (if IsLeapYear(year) then 29 else 28)
    else if month == 4 || month == 6 || month == 9 || month == 11 then 30
    else 31
  }

  /** A day that exists in the proleptic Gregorian calendar. */
  predicate IsCalendarDate(d: Date)
  {
    1 <= d.year && 1 <= d.month <= 12 && 1 <= d.day <= DaysInMonth(d.month, d.year)
  }

  /** Chronological order on dates. */
  predicate NotAfter(a: Date, b: Date)
  {
    a.year < b.year ||
    (a.year == b.year && (a.month < b.month || (a.month == b.month && a.day <= b.day)))
  }

  /** Midnight of the first and last days a nanosecond pandas timestamp can represent. */
  const FirstTimestampDay := Date(22, 9, 1677)
  const LastTimestampDay := Date(11, 4, 2262)

  predicate InTimestampRange(d: Date)
  {
    NotAfter(FirstTimestampDay, d) && NotAfter(d, LastTimestampDay)
  }

  /** Two characters read as a two-digit number. */
  function TwoDigits(a: char, b: char): nat
    requires IsDigit(a) && IsDigit(b)
  {
    DigitValue(a) * 10 + DigitValue(b)
  }

  /** `%d`: "1".."9", " 1".." 9", "01".."09", "10".."29", "30", "31". */
  function DayField(t: string): (r: Option<nat>)
    ensures r.Some? ==> 1 <= r.value <= 31
  {
    if |t| == 1 && '1' <= t[0] <= '9' then Some(DigitValue(t[0]))
    else if |t| == 2 && (t[0] == ' ' || t[0] == '0') && '1' <= t[1] <= '9' then Some(DigitValue(t[1]))
    else if |t| == 2 && (t[0] == '1' || t[0] == '2') && IsDigit(t[1]) then Some(TwoDigits(t[0], t[1]))
    else if |t| == 2 && t[0] == '3' && (t[1] == '0' || t[1] == '1') then Some(TwoDigits(t[0], t[1]))
    else None
  }

  /** `%m`: "1".."9", "01".."09", "10", "11", "12". */
  function MonthField(t: string): (r: Option<nat>)
    ensures r.Some? ==> 1 <= r.value <= 12
  {
    if |t| == 1 && '1' <= t[0] <= '9' then Some(DigitValue(t[0]))
    else if |t| == 2 && t[0] == '0' && '1' <= t[1] <= '9' then Some(DigitValue(t[1]))
    else if |t| == 2 && t[0] == '1' && '0' <= t[1] <= '2' then Some(TwoDigits(t[0], t[1]))
    else None
  }

  /** `%Y`: exactly four digits. */
  function YearField(t: string): (r: Option<nat>)
    ensures r.Some? ==> r.value < 10000
  {
    if |t| == 4 && AllDigits(t) then
      DigitsValueBound(t);
      assert Pow10(4) == 10000;
      Some(DigitsValue(t))
    else None
  }

  /** The `fecha_registro` cell after coercion: a date, or `None` for NaT. */
  function ParseDate(cell: Option<string>): (r: Option<Date>)
    ensures r.Some? ==> cell.Some? && IsCalendarDate(r.value) && InTimestampRange(r.value)
  {
    match cell
    case None => None
    case Some(s) =>
      var fields := Split(s, '/');
      if |fields| != 3 then None
      else
        var day, month, year := DayField(fields[0]), MonthField(fields[1]), YearField(fields[2]);
        if day.None? || month.None? || year.None? then None
        else
          var d := Date(day.value, month.value, year.value);
          if IsCalendarDate(d) && InTimestampRange(d) then Some(d) else None
  }

  // ---------------------------------------------------------------------------
  // The texts each field accepts
  // ---------------------------------------------------------------------------

  /** The renderings of day `n` that `%d` accepts: unpadded, space-padded or zero-padded. */
  function DayTexts(n: nat): set<string>
  {
    if 1 <= n <= 9 then {[DigitChar(n)], [' ', DigitChar(n)], Padded(n, 2)}
    else if 10 <= n <= 31 then {Padded(n, 2)}
    else {}
  }

  /** The renderings of month `n` that `%m` accepts: unpadded or zero-padded. */
  function MonthTexts(n: nat): set<string>
  {
    if 1 <= n <= 9 then {[DigitChar(n)], Padded(n, 2)}
    else if 10 <= n <= 12 then {Padded(n, 2)}
    else {}
  }

  /** Two digits, read as a number, rendered back with zero padding. */
  lemma TwoDigitsPadded(t: string)
    requires |t| == 2 && IsDigit(t[0]) && IsDigit(t[1])
    ensures Padded(TwoDigits(t[0], t[1]), 2) == t
  {
    var n := TwoDigits(t[0], t[1]);
    PaddedTwo(n);
    assert n / 10 == DigitValue(t[0]) && n % 10 == DigitValue(t[1]);
    DigitRoundTrip(t[0]);
    DigitRoundTrip(t[1]);
  }

  /** `%d` reads `t` as day `n` exactly when `t` is one of the renderings of `n`. */
  lemma DayFieldIff(t: string, n: nat)
    ensures DayField(t) == Some(n) <==> t in DayTexts(n)
  {
    if DayField(t) == Some(n) {
      if |t| == 1 {
        DigitRoundTrip(t[0]);
        assert t == [DigitChar(n)];
      } else if t[0] == ' ' {
        DigitRoundTrip(t[1]);
        assert t == [' ', DigitChar(n)];
      } else {
        TwoDigitsPadded(t);
      }
    }
    if t in DayTexts(n) {
      PaddedTwo(n);
      if 1 <= n <= 9 && t == [DigitChar(n)] {
        assert DayField(t) == Some(DigitValue(t[0]));
      } else if 1 <= n <= 9 && t == [' ', DigitChar(n)] {
        assert DayField(t) == Some(DigitValue(t[1]));
      } else {
        assert t == [DigitChar(n / 10), DigitChar(n % 10)];
      }
    }
  }

  /** `%m` reads `t` as month `n` exactly when `t` is one of the renderings of `n`. */
  lemma MonthFieldIff(t: string, n: nat)
    ensures MonthField(t) == Some(n) <==> t in MonthTexts(n)
  {
    if MonthField(t) == Some(n) {
      if |t| == 1 {
        DigitRoundTrip(t[0]);
        assert t == [DigitChar(n)];
      } else {
        TwoDigitsPadded(t);
      }
    }
    if t in MonthTexts(n) {
      PaddedTwo(n);
      if 1 <= n <= 9 && t == [DigitChar(n)] {
        assert MonthField(t) == Some(DigitValue(t[0]));
      } else {
        assert t == [DigitChar(n / 10), DigitChar(n % 10)];
      }
    }
  }

  /** `%Y` reads `t` as year `n` exactly when `t` is `n` in four digits. */
  lemma YearFieldIff(t: string, n: nat)
    ensures YearField(t) == Some(n) <==> n < 10000 && t == Padded(n, 4)
  {
    if YearField(t) == Some(n) {
      PaddedDigits(t);
    }
    if n < 10000 && t == Padded(n, 4) {
      assert Pow10(4) == 10000;
    }
  }

  /** No rendering of a day or month holds the field separator. */
  lemma TextsHaveNoSlash(a: string, b: string, day: nat, month: nat)
    requires a in DayTexts(day) && b in MonthTexts(month)
    ensures '/' !in a && '/' !in b
  {
    if 1 <= day <= 9 {
      DigitsHaveNoSlash(Padded(day, 2));
    } else {
      DigitsHaveNoSlash(a);
    }
    DigitsHaveNoSlash(Padded(month, 2));
  }

  /** Three fields joined by the separator. */
  lemma JoinThree(f: seq<string>)
    requires |f| == 3
    ensures Join(f, '/') == f[0] + "/" + f[1] + "/" + f[2]
  {
    assert f[1..][1..] == [f[2]];
    assert Join(f[1..], '/') == f[1] + ['/'] + f[2];
  }

  /**
   * A cell is read as date `d` exactly when `d` is a calendar day pandas can
   * hold and the cell is a rendering of its day, "/", a rendering of its
   * month, "/", and its year in four digits.
   */
  lemma ParseDateIff(s: string, d: Date)
    ensures ParseDate(Some(s)) == Some(d) <==>
              IsCalendarDate(d) && InTimestampRange(d) &&
              exists a, b :: a in DayTexts(d.day) && b in MonthTexts(d.month) && s == a + "/" + b + "/" + Padded(d.year, 4)
  {
    if ParseDate(Some(s)) == Some(d) {
      var f := Split(s, '/');
      DayFieldIff(f[0], d.day);
      MonthFieldIff(f[1], d.month);
      YearFieldIff(f[2], d.year);
      JoinSplit(s, '/');
      JoinThree(f);
      assert f[0] in DayTexts(d.day) && f[1] in MonthTexts(d.month) && s == f[0] + "/" + f[1] + "/" + Padded(d.year, 4);
    }
    if IsCalendarDate(d) && InTimestampRange(d) &&
       exists a, b :: a in DayTexts(d.day) && b in MonthTexts(d.month) && s == a + "/" + b + "/" + Padded(d.year, 4) {
      var a, b :| a in DayTexts(d.day) && b in MonthTexts(d.month) && s == a + "/" + b + "/" + Padded(d.year, 4);
      var c := Padded(d.year, 4);
      TextsHaveNoSlash(a, b, d.day, d.month);
      DigitsHaveNoSlash(c);
      SplitThree(a, b, c);
      DayFieldIff(a, d.day);
      MonthFieldIff(b, d.month);
      YearFieldIff(c, d.year);
    }
  }

  // ---------------------------------------------------------------------------
  // Renderings that the parser accepts
  // ---------------------------------------------------------------------------

  /** The register's zero-padded rendering "dd/mm/yyyy". */
  function FormatDmy(d: Date): string
  {
    Padded(d.day, 2) + "/" + Padded(d.month, 2) + "/" + Padded(d.year, 4)
  }

  lemma SplitThree(a: string, b: string, c: string)
    requires '/' !in a && '/' !in b && '/' !in c
    ensures Split(a + "/" + b + "/" + c, '/') == [a, b, c]
  {
    SplitAfter(a, '/', b + "/" + c);
    SplitAfter(b, '/', c);
    SplitFree(c, '/');
    assert a + "/" + b + "/" + c == a + ['/'] + (b + ['/'] + c);
  }

  lemma PaddedTwo(n: nat)
    requires n < 100
    ensures Padded(n, 2) == [DigitChar(n / 10), DigitChar(n % 10)]
  {
    assert Padded(n / 10, 1) == [DigitChar(n / 10)];
  }

  lemma DayFieldPadded(n: nat)
    requires 1 <= n <= 31
    ensures DayField(Padded(n, 2)) == Some(n)
  {
    PaddedTwo(n);
  }

  lemma MonthFieldPadded(n: nat)
    requires 1 <= n <= 12
    ensures MonthField(Padded(n, 2)) == Some(n)
  {
    PaddedTwo(n);
  }

  lemma DigitsHaveNoSlash(s: string)
    requires AllDigits(s)
    ensures '/' !in s
  {
  }

  /** Every date pandas can hold, written "dd/mm/yyyy", is read back as that date. */
  lemma ParseFormatDmy(d: Date)
    requires IsCalendarDate(d) && InTimestampRange(d)
    ensures ParseDate(Some(FormatDmy(d))) == Some(d)
  {
    var a, b, c := Padded(d.day, 2), Padded(d.month, 2), Padded(d.year, 4);
    DigitsHaveNoSlash(a);
    DigitsHaveNoSlash(b);
    DigitsHaveNoSlash(c);
    SplitThree(a, b, c);
    DayFieldPadded(d.day);
    MonthFieldPadded(d.month);
    assert d.year < Pow10(4);
    assert YearField(c) == Some(d.year);
  }

  /** The unpadded day and month that `%d` and `%m` also accept, e.g. "5/3/2001". */
  lemma ParseUnpadded(d: Date)
    requires IsCalendarDate(d) && InTimestampRange(d) && d.day < 10 && d.month < 10
    ensures ParseDate(Some([DigitChar(d.day)] + "/" + [DigitChar(d.month)] + "/" + Padded(d.year, 4))) == Some(d)
  {
    var a, b, c := [DigitChar(d.day)], [DigitChar(d.month)], Padded(d.year, 4);
    DigitsHaveNoSlash(c);
    SplitThree(a, b, c);
    assert d.year < Pow10(4);
    assert YearField(c) == Some(d.year);
  }
}

/** Concrete registration-date cells and what they become. */
module DateCases {
  import opened Wrappers
  import opened Text
  import opened Digits
  import opened Dates

  /** A cell of three slash-free fields splits into them. */
  lemma SplitCell(s: string, a: string, b: string, c: string)
    requires s == a + "/" + b + "/" + c && '/' !in a && '/' !in b && '/' !in c
    ensures Split(s, '/') == [a, b, c]
  {
    SplitThree(a, b, c);
  }

  /** A missing cell is "no date". */
  lemma MissingIsNoDate()
    ensures ParseDate(None) == None
  {
  }

  /** The 31st of February does not exist, so it is "no date". */
  lemma ImpossibleDayIsNoDate()
    ensures ParseDate(Some("31/02/2020")) == None
  {
    SplitCell("31/02/2020", "31", "02", "2020");
    Day31();
    Month02();
  }

  lemma Day31()
    ensures DayField("31") == Some(31)
  {
    var t := "31";
    assert |t| == 2 && t[0] == '3' && t[1] == '1';
    assert TwoDigits('3', '1') == 31;
  }

  lemma Month02()
    ensures MonthField("02") == Some(2)
  {
    var t := "02";
    assert |t| == 2 && t[0] == '0' && t[1] == '2';
  }

  /** An ISO layout does not match the pattern, so it is "no date". */
  lemma OtherLayoutIsNoDate()
    ensures ParseDate(Some("2020-02-10")) == None
  {
    SplitFree("2020-02-10", '/');
  }

  lemma Padded2300()
    ensures Padded(2300, 4) == "2300"
  {
    assert 2300 / 10 == 230 && 2300 % 10 == 0;
    assert Padded(230, 3) == "230" by {
      assert 230 / 10 == 23 && 230 % 10 == 0;
      assert Padded(23, 2) == "23" by {
        assert 23 / 10 == 2 && 23 % 10 == 3;
        assert Padded(2, 1) == "2";
      }
    }
  }

  lemma Year2300()
    ensures YearField("2300") == Some(2300)
  {
    Padded2300();
    assert 2300 < Pow10(4);
  }

  /** A well-formed date beyond the timestamp range is "no date". */
  lemma OutOfRangeIsNoDate()
    ensures ParseDate(Some("10/02/2300")) == None
  {
    SplitCell("10/02/2300", "10", "02", "2300");
    Year2300();
  }

  lemma Padded2001()
    ensures Padded(2001, 4) == "2001"
  {
    assert 2001 / 10 == 200 && 2001 % 10 == 1;
    assert Padded(200, 3) == "200" by {
      assert 200 / 10 == 20 && 200 % 10 == 0;
      assert Padded(20, 2) == "20" by {
        assert 20 / 10 == 2 && 20 % 10 == 0;
        assert Padded(2, 1) == "2";
      }
    }
  }

  lemma Padded15()
    ensures Padded(15, 2) == "15"
  {
    assert 15 / 10 == 1 && 15 % 10 == 5;
    assert Padded(1, 1) == "1";
  }

  lemma Padded3()
    ensures Padded(3, 2) == "03"
  {
    assert 3 / 10 == 0 && 3 % 10 == 3;
    assert Padded(0, 1) == "0";
  }

  lemma Format2001()
    ensures FormatDmy(Date(15, 3, 2001)) == "15/03/2001"
  {
    calc {
      FormatDmy(Date(15, 3, 2001));
      Padded(15, 2) + "/" + Padded(3, 2) + "/" + Padded(2001, 4);
    == { Padded15(); Padded3(); Padded2001(); }
      "15" + "/" + "03" + "/" + "2001";
    }
  }

  /** A register date is read as that day. */
  lemma DateExample()
    ensures ParseDate(Some("15/03/2001")) == Some(Date(15, 3, 2001))
  {
    Format2001();
    ParseFormatDmy(Date(15, 3, 2001));
  }
}
