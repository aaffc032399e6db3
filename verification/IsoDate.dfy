/** `YYYY-MM-DD` texts, the days they name, and the shared date validation. */
module IsoDate {
  import opened Outcomes
  import opened Strings
  import opened Digits
  import opened Gregorian

  // The days of the years 0000 to 9999.
  const FIRST_DAY := -719528
  const LAST_DAY := 2932896

  /** `/^\d{4}-\d{2}-\d{2}$/` */
  predicate IsDateText(s: string) {
    && |s| == 10 && s[4] == '-' && s[7] == '-'
    && AllDigits(s[..4]) && AllDigits(s[5..7]) && AllDigits(s[8..])
  }

  function FieldsOf(s: string): Civil
    requires IsDateText(s)
  {
    Civil(ToNat(s[..4]), ToNat(s[5..7]), ToNat(s[8..]))
  }

  predicate IsRealDate(s: string) {
    IsDateText(s) && IsCivil(FieldsOf(s))
  }

  /** The day a real date names. */
  function DayOf(s: string): int
    requires IsRealDate(s)
  {
    DayNumber(FieldsOf(s))
  }

  predicate HasFourDigitYear(c: Civil) {
    0 <= c.year <= 9999 && 0 <= c.month <= 99 && 0 <= c.day <= 99
  }

  function DateText(c: Civil): string
    requires HasFourDigitYear(c)
  {
    Fixed(c.year, 4) + "-" + Fixed(c.month, 2) + "-" + Fixed(c.day, 2)
  }

  /** `new Date(day * MS_PER_DAY).toISOString().slice(0, 10)`; other years use the expanded six-digit form. */
  function ToIsoDate(day: int): string {
    var c := CivilOf(day);
    if HasFourDigitYear(c) then DateText(c)
    else
      var sign, year := if c.year < 0 then "-" else "+", if c.year < 0 then -c.year else c.year;
      (sign + Fixed(year, 6) + "-" + Fixed(c.month, 2) + "-" + Fixed(c.day, 2))[..10]
  }

  /**
   * `new Date(text + "T00:00:00Z")` as a day number, None for an invalid date. A day past the end of its
   * month but not past 31 is invalid to some engines and rolls into the next month in others.
   */
  function ParseUtcMidnight(s: string, rolls: bool): Option<int>
    requires IsDateText(s)
  {
    var c := FieldsOf(s);
    if 1 <= c.month <= 12 && 1 <= c.day <= 31 && (rolls || c.day <= DaysInMonth(c.year, c.month))
    then Some(MakeDay(c.year, c.month, c.day))
    else None
  }

  /** `isoDateSchema`: the pattern, then a round trip through the date object. */
  predicate Accepts(s: string, rolls: bool) {
    && IsDateText(s)
    && var parsed := ParseUtcMidnight(s, rolls);
    parsed.Some? && ToIsoDate(parsed.value) == s
  }

  lemma TextKeepsFields(c: Civil)
    requires HasFourDigitYear(c)
    ensures IsDateText(DateText(c)) && FieldsOf(DateText(c)) == c
  {
    SmallPowers();
    var s := DateText(c);
    assert s[..4] == Fixed(c.year, 4) && s[5..7] == Fixed(c.month, 2) && s[8..] == Fixed(c.day, 2);
    FixedNames(c.year, 4);
    FixedNames(c.month, 2);
    FixedNames(c.day, 2);
  }

  lemma FieldsKeepText(s: string)
    requires IsDateText(s)
    ensures HasFourDigitYear(FieldsOf(s)) && DateText(FieldsOf(s)) == s
  {
    SmallPowers();
    ToNatBound(s[..4]);
    ToNatBound(s[5..7]);
    ToNatBound(s[8..]);
    FixedOfToNat(s[..4]);
    FixedOfToNat(s[5..7]);
    FixedOfToNat(s[8..]);
    assert s == s[..4] + [s[4]] + s[5..7] + [s[7]] + s[8..];
  }

  /** String order on real dates is chronological order. */
  lemma TextOrderIsDayOrder(a: string, b: string)
    requires IsRealDate(a) && IsRealDate(b)
    ensures Less(a, b) <==> DayOf(a) < DayOf(b)
    ensures a == b <==> DayOf(a) == DayOf(b)
  {
    var c, d := FieldsOf(a), FieldsOf(b);
    DayNumberOrder(c, d);
    FieldsKeepText(a);
    FieldsKeepText(b);
    SmallPowers();
    var y, z := Fixed(c.year, 4), Fixed(d.year, 4);
    var m, n := Fixed(c.month, 2), Fixed(d.month, 2);
    var p, q := Fixed(c.day, 2), Fixed(d.day, 2);
    assert a == y + ("-" + (m + ("-" + p))) && b == z + ("-" + (n + ("-" + q)));
    FixedOrder(c.year, d.year, 4);
    FixedOrder(c.month, d.month, 2);
    FixedOrder(c.day, d.day, 2);
    FixedNames(c.year, 4);
    FixedNames(d.year, 4);
    FixedNames(c.month, 2);
    FixedNames(d.month, 2);
    if c.year != d.year {
      LessByHeads(y, z, "-" + (m + ("-" + p)), "-" + (n + ("-" + q)));
    } else {
      LessAfterCommonPrefix(y, "-" + (m + ("-" + p)), "-" + (n + ("-" + q)));
      LessAfterCommonPrefix("-", m + ("-" + p), n + ("-" + q));
      if c.month != d.month {
        LessByHeads(m, n, "-" + p, "-" + q);
      } else {
        LessAfterCommonPrefix(m, "-" + p, "-" + q);
        LessAfterCommonPrefix("-", p, q);
      }
    }
  }

  lemma FourDigitYears(day: int)
    ensures HasFourDigitYear(CivilOf(day)) <==> FIRST_DAY <= day <= LAST_DAY
  {
    var year := YearOf(day);
    assert DayFromYear(0) == FIRST_DAY && DayFromYear(10000) == LAST_DAY + 1;
    if year < 0 {
      YearsAscend(year, 0);
    }
    if 0 < year {
      YearsAscend(0, year);
    }
    if year < 10000 {
      YearsAscend(year, 10000);
    }
    if 10000 < year {
      YearsAscend(10000, year);
    }
  }

  /** Writing a day and reading it back, and the reverse. */
  lemma DateRoundTrip(day: int)
    requires FIRST_DAY <= day <= LAST_DAY
    ensures IsRealDate(ToIsoDate(day)) && DayOf(ToIsoDate(day)) == day
  {
    FourDigitYears(day);
    TextKeepsFields(CivilOf(day));
  }

  lemma TextRoundTrip(s: string)
    requires IsRealDate(s)
    ensures FIRST_DAY <= DayOf(s) <= LAST_DAY && ToIsoDate(DayOf(s)) == s
  {
    CivilRoundTrip(FieldsOf(s));
    FieldsKeepText(s);
    FourDigitYears(DayOf(s));
  }

  /** Whatever the engine does with day 30 of February, exactly the texts of real days are accepted. */
  lemma AcceptsExactlyRealDays(s: string, rolls: bool)
    ensures Accepts(s, rolls) <==> exists day | FIRST_DAY <= day <= LAST_DAY :: s == ToIsoDate(day)
  {
    hide Accepts, IsRealDate, ToIsoDate, DayOf;
    AcceptedIsReal(s, rolls);
    if Accepts(s, rolls) {
      TextRoundTrip(s);
    }
    if exists day | FIRST_DAY <= day <= LAST_DAY :: s == ToIsoDate(day) {
      var day :| FIRST_DAY <= day <= LAST_DAY && s == ToIsoDate(day);
      DateRoundTrip(day);
    }
  }

  lemma AcceptedIsReal(s: string, rolls: bool)
    ensures Accepts(s, rolls) <==> IsRealDate(s)
  {
    if IsDateText(s) {
      FieldsKeepText(s);
      var c, parsed := FieldsOf(s), ParseUtcMidnight(s, rolls);
      if parsed.Some? {
        var back := CivilOf(parsed.value);
        if HasFourDigitYear(back) {
          TextKeepsFields(back);
          if IsCivil(c) {
            CivilRoundTrip(c);
          }
        } else {
          ExpandedFormIsNotADate(parsed.value);
          if IsCivil(c) {
            CivilRoundTrip(c);
          }
        }
      }
    }
  }

  lemma ExpandedFormIsNotADate(day: int)
    requires !HasFourDigitYear(CivilOf(day))
    ensures |ToIsoDate(day)| == 10 && (ToIsoDate(day)[0] == '+' || ToIsoDate(day)[0] == '-')
  {
  }
}
