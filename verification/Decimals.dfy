/** Decimal strings: the shared pattern, the number a text names, and writing a scaled integer as text. */
module Decimals {
  import opened Outcomes
  import opened Strings
  import opened Digits

  /** `/^-?\d+(\.\d+)?$/` */
  predicate IsDecimalText(s: string) {
    var pieces := Split(Unsigned(s), ".");
    |pieces| <= 2 && forall piece <- pieces :: piece != "" && AllDigits(piece)
  }

  predicate IsSigned(s: string) {
    s != "" && s[0] == '-'
  }

  function Unsigned(s: string): string {
    if IsSigned(s) then s[1..] else s
  }

  /** The parts of a decimal text; without a point the fraction is empty. */
  datatype Parts = Parts(negative: bool, whole: string, fraction: string)

  function PartsOf(s: string): (parts: Parts)
    requires IsDecimalText(s)
    ensures parts.whole != "" && AllDigits(parts.whole) && AllDigits(parts.fraction)
  {
    var pieces := Split(Unsigned(s), ".");
    assert pieces[0] in pieces && (|pieces| == 2 ==> pieces[1] in pieces);
    Parts(IsSigned(s), pieces[0], if |pieces| == 2 then pieces[1] else "")
  }

  function Signed(negative: bool, n: nat): int {
    if negative then 0 - n else n
  }

  /** All digits of a decimal text as one signed integer: its value times ten to the number of fraction digits. */
  function ScaledUnits(s: string): int
    requires IsDecimalText(s)
  {
    Signed(PartsOf(s).negative, ToNat(PartsOf(s).whole + PartsOf(s).fraction))
  }

  function Scale(s: string): nat
    requires IsDecimalText(s)
  {
    |PartsOf(s).fraction|
  }

  /** The number a decimal text names. */
  ghost function Value(s: string): real
    requires IsDecimalText(s)
  {
    ScaledUnits(s) as real / Pow10(Scale(s)) as real
  }

  // ---- Writing ----

  function BodyOf(parts: Parts): string {
    if parts.fraction == "" then parts.whole else parts.whole + "." + parts.fraction
  }

  function TextOf(parts: Parts): string {
    if parts.negative then "-" + BodyOf(parts) else BodyOf(parts)
  }

  function Magnitude(units: int): nat {
    if units < 0 then -units else units
  }

  /** The zero-padded digits of the integer, cut `places` from the right. */
  function PartsFor(units: int, places: nat): Parts {
    var digits := PadStart(NatToString(Magnitude(units)), places + 1);
    Parts(units < 0, digits[..|digits| - places], digits[|digits| - places..])
  }

  /** `units / 10^places` written with exactly `places` fraction digits, and no point when there are none. */
  function PointText(units: int, places: nat): string {
    TextOf(PartsFor(units, places))
  }

  lemma {:induction false} NoSpacesNoTrim(s: string)
    requires s != "" ==> !IsSpace(s[0]) && !IsSpace(Last(s))
    ensures Trim(s) == s
  {
  }

  lemma SplitAtPoint(whole: string, fraction: string)
    requires AllDigits(whole) && AllDigits(fraction)
    ensures Split(whole, ".") == [whole]
    ensures Split(whole + "." + fraction, ".") == [whole, fraction]
  {
    assert '.' !in whole && '.' !in fraction;
    SplitUndoesJoin([whole], '.');
    SplitUndoesJoin([whole, fraction], '.');
    assert Join([whole, fraction], ".") == whole + "." + fraction;
  }

  lemma TextKeepsParts(parts: Parts)
    requires parts.whole != "" && AllDigits(parts.whole) && AllDigits(parts.fraction)
    ensures IsDecimalText(TextOf(parts)) && PartsOf(TextOf(parts)) == parts
    ensures Trim(TextOf(parts)) == TextOf(parts)
  {
    hide Split, Trim;
    SplitAtPoint(parts.whole, parts.fraction);
    var s, body := TextOf(parts), BodyOf(parts);
    assert body[0] == parts.whole[0] && IsDigit(body[0]);
    assert IsDigit(Last(body)) by {
      assert Last(body) == if parts.fraction == "" then Last(parts.whole) else Last(parts.fraction);
    }
    assert Last(s) == Last(body);
    assert Unsigned(s) == body;
    NoSpacesNoTrim(s);
  }

  /** Only a single zero may lead the whole part. */
  predicate IsCanonical(parts: Parts) {
    parts.whole != "" && (parts.whole[0] == '0' ==> |parts.whole| == 1)
  }

  lemma PartsForNames(units: int, places: nat)
    ensures var parts := PartsFor(units, places);
      && IsCanonical(parts) && parts.negative == (units < 0) && |parts.fraction| == places
      && AllDigits(parts.whole) && AllDigits(parts.fraction)
      && ToNat(parts.whole + parts.fraction) == Magnitude(units)
  {
    hide PadStart, NatToString, ToNat, Fixed, Pow10;
    var n := Magnitude(units);
    PadStartOfNat(n, places + 1);
    NatToStringNames(n);
    var digits := PadStart(NatToString(n), places + 1);
    assert digits == digits[..|digits| - places] + digits[|digits| - places..];
  }

  /** Reading a written amount gives back its integer, its sign and its number of fraction digits. */
  lemma PointTextReads(units: int, places: nat)
    ensures var s := PointText(units, places);
      && Trim(s) == s && IsDecimalText(s)
      && Scale(s) == places && ScaledUnits(s) == units
      && PartsOf(s).negative == (units < 0) && IsCanonical(PartsOf(s))
  {
    hide IsDecimalText, PartsOf, PartsFor, Trim, TextOf;
    PartsForNames(units, places);
    TextKeepsParts(PartsFor(units, places));
  }

  /** An amount text is its parts again. */
  lemma PartsAreText(s: string)
    requires IsDecimalText(s)
    ensures s == TextOf(PartsOf(s))
  {
    var body := Unsigned(s);
    JoinUndoesSplit(body, ".");
    var pieces := Split(body, ".");
    if |pieces| == 2 {
      assert pieces[1..] == [pieces[1]];
    }
  }

  /** An optional sign, digits, and optionally a point with digits after it. */
  ghost predicate Spells(s: string, parts: Parts) {
    && parts.whole != "" && (forall i :: 0 <= i < |parts.whole| ==> '0' <= parts.whole[i] <= '9')
    && (forall i :: 0 <= i < |parts.fraction| ==> '0' <= parts.fraction[i] <= '9')
    && s == (if parts.negative then "-" else "") + (parts.whole
                                                    + if parts.fraction == "" then "" else "." + parts.fraction)
  }

  lemma SpelledIsText(s: string, parts: Parts)
    ensures Spells(s, parts)
       <==> parts.whole != "" && AllDigits(parts.whole) && AllDigits(parts.fraction) && s == TextOf(parts)
  {
    assert BodyOf(parts) == parts.whole + if parts.fraction == "" then "" else "." + parts.fraction by {
      assert parts.whole + "" == parts.whole;
    }
    assert "" + BodyOf(parts) == BodyOf(parts);
  }

  lemma SpelledReads(s: string, parts: Parts)
    requires Spells(s, parts)
    ensures IsDecimalText(s) && PartsOf(s) == parts
  {
    SpelledIsText(s, parts);
    hide Spells;
    TextKeepsParts(parts);
  }

  /** The pattern accepts exactly the texts of that form, and the number has all their digits, scaled and signed. */
  lemma DecimalTextMeaning(s: string)
    ensures IsDecimalText(s) <==> exists parts :: Spells(s, parts)
    ensures forall parts :: Spells(s, parts) ==>
      && IsDecimalText(s) && PartsOf(s) == parts && Scale(s) == |parts.fraction|
      && ScaledUnits(s) * (if parts.negative then -1 else 1) == ToNat(PartsOf(s).whole + PartsOf(s).fraction)
  {
    hide IsDecimalText, PartsOf, ToNat, Spells;
    forall parts | Spells(s, parts)
      ensures IsDecimalText(s) && PartsOf(s) == parts
    {
      SpelledReads(s, parts);
    }
    if IsDecimalText(s) {
      PartsAreText(s);
      SpelledIsText(s, PartsOf(s));
      assert Spells(s, PartsOf(s));
    }
  }

  /** Texts with one integer, scale and no needless leading zero are the same text. */
  lemma CanonicalTextIsUnique(s: string, t: string)
    requires IsDecimalText(s) && IsDecimalText(t)
    requires !PartsOf(s).negative && !PartsOf(t).negative
    requires Scale(s) == Scale(t) && ScaledUnits(s) == ScaledUnits(t)
    requires IsCanonical(PartsOf(s)) && IsCanonical(PartsOf(t))
    ensures s == t
  {
    PartsAreText(s);
    PartsAreText(t);
    var a, b := PartsOf(s), PartsOf(t);
    if |a.whole| < |b.whole| {
      LongerIsLarger(a.whole + a.fraction, b.whole + b.fraction);
    } else if |b.whole| < |a.whole| {
      LongerIsLarger(b.whole + b.fraction, a.whole + a.fraction);
    }
    ToNatIsInjective(a.whole + a.fraction, b.whole + b.fraction);
    assert a.whole == (a.whole + a.fraction)[..|a.whole|] && a.fraction == (a.whole + a.fraction)[|a.whole|..];
    assert b.whole == (b.whole + b.fraction)[..|b.whole|] && b.fraction == (b.whole + b.fraction)[|b.whole|..];
  }

  lemma LongerIsLarger(a: string, b: string)
    requires AllDigits(a) && AllDigits(b) && |a| < |b| && b[0] != '0'
    ensures ToNat(a) < ToNat(b)
  {
    ToNatBound(a);
    LeadingDigitCounts(b);
    Pow10Ascends(|a|, |b| - 1);
  }

  lemma {:induction false} LeadingDigitCounts(b: string)
    requires AllDigits(b) && b != "" && b[0] != '0'
    ensures ToNat(b) >= Pow10(|b| - 1)
  {
    if |b| > 1 {
      LeadingDigitCounts(DropLast(b));
    } else {
      assert DropLast(b) == "";
      assert ToNat(b) == DigitOf(b[0]);
    }
  }

  lemma {:induction false} Pow10Ascends(a: nat, b: nat)
    requires a <= b
    ensures Pow10(a) <= Pow10(b)
  {
    if a < b {
      Pow10Ascends(a, b - 1);
    }
  }
}
