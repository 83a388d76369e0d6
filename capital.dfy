/**
 * Share capital as the register prints it ("1.234.567,89": `.` groups
 * thousands, `,` marks the decimals) and its conversion to an exact number
 * (main.py:117).
 */
module Capital {
  import opened Wrappers
  import opened Text
  import opened Digits

  /** `.str.replace('.', '').str.replace(',', '.')`: delete every `.`, then turn `,` into `.`. */
  function Normalise(s: string): string
  {
    Replace(Replace(s, '.', []), ',', ['.'])
  }

  /** After normalising, the decimal points are exactly the commas of the original text. */
  lemma NormalisedPoints(s: string)
    ensures Occurrences(Normalise(s), '.') == Occurrences(s, ',')
    ensures ',' !in Normalise(s)
  {
    var u := Replace(s, '.', []);
    DeleteOccurrences(s, '.', ',');
    SubstituteOccurrences(u, ',', '.');
    assert Occurrences(u, '.') == 0 by {
      OccurrencesZero(u, '.');
    }
  }

  lemma {:induction false} OccurrencesZero(s: string, c: char)
    requires c !in s
    ensures Occurrences(s, c) == 0
  {
    if s != [] {
      OccurrencesZero(s[1..], c);
    }
  }

  /**
   * `astype(float)` restricted to plain decimal text: digits with at most one
   * `.` and at least one digit ("12", "12.5", "12.", ".5"). Anything else is
   * `None`, which the caller turns into the error the conversion raises.
   */
  function ParseNumber(t: string): (r: Option<real>)
    ensures r.Some? ==> r.value >= 0.0
    ensures r.Some? ==> Occurrences(t, '.') <= 1
  {
    var parts := Split(t, '.');
    SplitCount(t, '.');
    if |parts| == 1 then
      if parts[0] != [] && AllDigits(parts[0]) then Some(DigitsValue(parts[0]) as real) else None
    else if |parts| == 2 then
      var whole, fraction := parts[0], parts[1];
      if AllDigits(whole) && AllDigits(fraction) && |whole| + |fraction| > 0 then
        Some(DigitsValue(whole) as real + DigitsValue(fraction) as real / Pow10(|fraction|) as real)
      else None
    else None
  }

  /**
   * The `capital_social_numeric` cell for a `capital_social` cell: a missing
   * cell stays missing; a cell whose normalised text is not a number is an
   * error carrying the normalised text, as `float` reports it (the whole
   * load fails on it).
   */
  function ParseCapital(cell: Option<string>): (r: Result<Option<real>, string>)
    ensures cell.None? ==> r == Ok(None)
    ensures r.Err? ==> cell.Some? && r.error == Normalise(cell.value)
    ensures r.Ok? && r.value.Some? ==> r.value.value >= 0.0
    ensures cell.Some? && Occurrences(cell.value, ',') >= 2 ==> r.Err?
  {
    match cell
    case None => Ok(None)
    case Some(s) =>
      NormalisedPoints(s);
      match ParseNumber(Normalise(s))
      case Some(v) => Ok(Some(v))
      case None => Err(Normalise(s))
  }

  // ---------------------------------------------------------------------------
  // The locale rendering the register uses, and the round trip
  // ---------------------------------------------------------------------------

  /** Integer part with `.` between groups of three digits: 1234567 -> "1.234.567". */
  function Grouped(n: nat): string
  {
    if n < 1000 then Decimal(n) else Grouped(n / 1000) + "." + Padded(n % 1000, 3)
  }

  /** An amount in euros and cents as the register prints it: "1.234.567,89". */
  function FormatEs(euros: nat, cents: nat): string
    requires cents < 100
  {
    Grouped(euros) + "," + Padded(cents, 2)
  }

  lemma DigitsExclude(s: string, c: char)
    requires AllDigits(s) && !IsDigit(c)
    ensures c !in s
  {
  }

  /** Deleting the points of "high.low", where `low` has none, keeps `low` whole. */
  lemma DeleteGroupPoint(high: string, low: string)
    requires '.' !in low
    ensures Replace(high + "." + low, '.', []) == Replace(high, '.', []) + low
  {
    calc {
      Replace(high + "." + low, '.', []);
    == { ReplaceAppend(high + ".", low, '.', []); }
      Replace(high + ".", '.', []) + Replace(low, '.', []);
    == { ReplaceAppend(high, ".", '.', []); }
      Replace(high, '.', []) + Replace(".", '.', []) + Replace(low, '.', []);
    == { ReplaceAbsent(low, '.', []); }
      Replace(high, '.', []) + [] + low;
    }
  }

  lemma Regroup(n: nat, high: nat, low: nat)
    requires high == n / 1000 && low == n % 1000
    ensures high * 1000 + low == n
  {
  }

  /** The digits of "high" followed by the three digits of `n % 1000` denote `n`. */
  lemma GroupValue(n: nat, d: string, low: string)
    requires AllDigits(d) && DigitsValue(d) == n / 1000
    requires low == Padded(n % 1000, 3)
    ensures AllDigits(d + low) && DigitsValue(d + low) == n
  {
    DigitsValueAppend(d, low);
    assert Pow10(3) == 1000;
    assert DigitsValue(low) == n % 1000;
    Regroup(n, n / 1000, n % 1000);
  }

  /** Deleting the group separators leaves the plain digits of `n`. */
  lemma {:induction false} UngroupedDigits(n: nat)
    ensures AllDigits(Replace(Grouped(n), '.', []))
    ensures Replace(Grouped(n), '.', []) != []
    ensures DigitsValue(Replace(Grouped(n), '.', [])) == n
  {
    if n < 1000 {
      DigitsExclude(Decimal(n), '.');
      ReplaceAbsent(Decimal(n), '.', []);
    } else {
      UngroupedDigits(n / 1000);
      var high, low := Grouped(n / 1000), Padded(n % 1000, 3);
      assert Grouped(n) == high + "." + low;
      DigitsExclude(low, '.');
      DeleteGroupPoint(high, low);
      GroupValue(n, Replace(high, '.', []), low);
    }
  }

  /** Deleting the points of "high,low", where `low` has none. */
  lemma DeleteAroundComma(high: string, low: string)
    requires '.' !in low
    ensures Replace(high + "," + low, '.', []) == Replace(high, '.', []) + "," + low
  {
    calc {
      Replace(high + "," + low, '.', []);
    == { ReplaceAppend(high + ",", low, '.', []); }
      Replace(high + ",", '.', []) + Replace(low, '.', []);
    == { ReplaceAppend(high, ",", '.', []); }
      Replace(high, '.', []) + Replace(",", '.', []) + Replace(low, '.', []);
    == { ReplaceAbsent(low, '.', []); }
      Replace(high, '.', []) + "," + low;
    }
  }

  /** Turning the one comma of "d,low" into a point. */
  lemma CommaToPoint(d: string, low: string)
    requires ',' !in d && ',' !in low
    ensures Replace(d + "," + low, ',', ['.']) == d + "." + low
  {
    calc {
      Replace(d + "," + low, ',', ['.']);
    == { ReplaceAppend(d + ",", low, ',', ['.']); }
      Replace(d + ",", ',', ['.']) + Replace(low, ',', ['.']);
    == { ReplaceAppend(d, ",", ',', ['.']); }
      Replace(d, ',', ['.']) + Replace(",", ',', ['.']) + Replace(low, ',', ['.']);
    == { ReplaceAbsent(d, ',', ['.']); }
      d + Replace(",", ',', ['.']) + Replace(low, ',', ['.']);
    == { assert Replace(",", ',', ['.']) == "."; }
      d + "." + Replace(low, ',', ['.']);
    == { ReplaceAbsent(low, ',', ['.']); }
      d + "." + low;
    }
  }

  /** The register's rendering normalises to the plain digits, a point, and the cents. */
  lemma NormaliseFormatEs(euros: nat, cents: nat)
    requires cents < 100
    ensures Normalise(FormatEs(euros, cents)) == Replace(Grouped(euros), '.', []) + "." + Padded(cents, 2)
  {
    var high, low := Grouped(euros), Padded(cents, 2);
    UngroupedDigits(euros);
    var d := Replace(high, '.', []);
    DigitsExclude(low, '.');
    DigitsExclude(low, ',');
    DigitsExclude(d, ',');
    calc {
      Normalise(FormatEs(euros, cents));
      Replace(Replace(high + "," + low, '.', []), ',', ['.']);
    == { DeleteAroundComma(high, low); }
      Replace(d + "," + low, ',', ['.']);
    == { CommaToPoint(d, low); }
      d + "." + low;
    }
  }

  lemma SplitPointed(whole: string, fraction: string)
    requires AllDigits(whole) && AllDigits(fraction)
    ensures Split(whole + "." + fraction, '.') == [whole, fraction]
  {
    DigitsExclude(whole, '.');
    DigitsExclude(fraction, '.');
    SplitAfter(whole, '.', fraction);
    SplitFree(fraction, '.');
  }

  /** A digit run, a point and a digit run read as whole part plus fraction. */
  lemma ParsePointed(whole: string, fraction: string)
    requires AllDigits(whole) && AllDigits(fraction) && whole != []
    ensures ParseNumber(whole + "." + fraction) ==
            Some(DigitsValue(whole) as real + DigitsValue(fraction) as real / Pow10(|fraction|) as real)
  {
    SplitPointed(whole, fraction);
    ReadSplitPointed(whole, fraction);
  }

  lemma ReadSplitPointed(whole: string, fraction: string)
    requires AllDigits(whole) && AllDigits(fraction) && whole != []
    requires Split(whole + "." + fraction, '.') == [whole, fraction]
    ensures ParseNumber(whole + "." + fraction) ==
            Some(DigitsValue(whole) as real + DigitsValue(fraction) as real / Pow10(|fraction|) as real)
  {
  }

  /** Every amount the register prints is read back as exactly that amount. */
  lemma ParseFormatEs(euros: nat, cents: nat)
    requires cents < 100
    ensures ParseCapital(Some(FormatEs(euros, cents))) == Ok(Some(euros as real + cents as real / 100.0))
  {
    UngroupedDigits(euros);
    var d, low := Replace(Grouped(euros), '.', []), Padded(cents, 2);
    DigitsExclude(d, '.');
    assert |low| == 2 && Pow10(2) == 100;
    calc {
      ParseNumber(Normalise(FormatEs(euros, cents)));
    == { NormaliseFormatEs(euros, cents); }
      ParseNumber(d + "." + low);
    == { ParsePointed(d, low); }
      Some(DigitsValue(d) as real + DigitsValue(low) as real / Pow10(|low|) as real);
      Some(euros as real + cents as real / 100.0);
    }
  }

  lemma Padded234()
    ensures Padded(234, 3) == "234"
  {
    assert Padded(2, 1) == "2";
    assert Padded(23, 2) == "23";
  }

  lemma Padded567()
    ensures Padded(567, 3) == "567"
  {
    assert Padded(5, 1) == "5";
    assert Padded(56, 2) == "56";
  }

  lemma Padded89()
    ensures Padded(89, 2) == "89"
  {
    assert Padded(8, 1) == "8";
  }

  lemma Grouped1234()
    ensures Grouped(1234) == "1.234"
  {
    calc {
      Grouped(1234);
    == { assert 1234 / 1000 == 1 && 1234 % 1000 == 234; }
      Grouped(1) + "." + Padded(234, 3);
    == { Padded234(); }
      "1" + "." + "234";
    }
  }

  lemma Grouped1234567()
    ensures Grouped(1234567) == "1.234.567"
  {
    calc {
      Grouped(1234567);
    == { assert 1234567 / 1000 == 1234 && 1234567 % 1000 == 567; }
      Grouped(1234) + "." + Padded(567, 3);
    == { Grouped1234(); Padded567(); }
      "1.234" + "." + "567";
    }
  }

  lemma FormatExample()
    ensures FormatEs(1234567, 89) == "1.234.567,89"
  {
    calc {
      FormatEs(1234567, 89);
      Grouped(1234567) + "," + Padded(89, 2);
    == { Grouped1234567(); Padded89(); }
      "1.234.567" + "," + "89";
    }
  }

  /** The register's own example amount. */
  lemma ParseExample()
    ensures ParseCapital(Some("1.234.567,89")) == Ok(Some(1234567.89))
  {
    FormatExample();
    ParseFormatEs(1234567, 89);
  }

  /** Two commas leave two points, which no number has: the load fails. */
  lemma TwoCommasFail()
    ensures ParseCapital(Some("1,234,56")).Err?
  {
    assert Occurrences("1,234,56", ',') == 2;
  }
}
