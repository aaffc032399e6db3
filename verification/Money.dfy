/** The money value object: an integer count of minor units, a currency and a number of decimal places. */
module Monetary {
  import opened Arithmetic
  import opened Outcomes
  import opened Strings
  import opened Digits
  import opened Decimals

  datatype Money = Money(minorUnits: int, currency: string, decimalPlaces: nat)

  /** The constructor: the currency is upper-cased and must not be blank. */
  function MakeMoney(minorUnits: int, currency: string, decimalPlaces: nat): Outcome<Money> {
    if Trim(currency) == "" then Thrown else Returned(Money(minorUnits, Upper(currency), decimalPlaces))
  }

  /** What every constructed money satisfies. */
  predicate IsMoney(m: Money) {
    Trim(m.currency) != "" && Upper(m.currency) == m.currency
  }

  /** `Money.fromDecimalString`: fraction digits beyond the currency's are cut off. */
  function FromDecimalString(value: string, currency: string, decimalPlaces: nat): Outcome<Money> {
    var str := Trim(value);
    if !IsDecimalText(str) then Thrown
    else
      var parts := PartsOf(str);
      var fraction := (parts.fraction + Zeros(decimalPlaces))[..decimalPlaces];
      MakeMoney(Signed(parts.negative, ToNat(parts.whole + fraction)), currency, decimalPlaces)
  }

  function ToDecimalString(m: Money): string {
    PointText(m.minorUnits, m.decimalPlaces)
  }

  function Add(a: Money, b: Money): Outcome<Money> {
    if a.currency != b.currency then Thrown else Returned(a.(minorUnits := a.minorUnits + b.minorUnits))
  }

  /** Multiplication by a whole factor, which rounds nothing. */
  function Multiply(m: Money, factor: int): Money {
    m.(minorUnits := m.minorUnits * factor)
  }

  predicate Equals(a: Money, b: Money) {
    a.currency == b.currency && a.minorUnits == b.minorUnits
  }

  lemma UpperCharKeepsSpace(c: char)
    ensures IsSpace(UpperChar(c)) == IsSpace(c)
  {
  }

  lemma UpperTwice(s: string)
    ensures Upper(Upper(s)) == Upper(s)
  {
  }

  lemma {:induction false} UpperKeepsSpaces(s: string)
    ensures Trim(Upper(s)) == Upper(Trim(s))
    decreases |s|
  {
    if s != "" {
      UpperCharKeepsSpace(s[0]);
      UpperCharKeepsSpace(Last(s));
      hide IsSpace, UpperChar;
      assert Upper(s)[1..] == Upper(s[1..]) && DropLast(Upper(s)) == Upper(DropLast(s));
      UpperKeepsSpaces(s[1..]);
      UpperKeepsSpaces(DropLast(s));
    }
  }

  lemma ConstructedMoneyIsMoney(minorUnits: int, currency: string, decimalPlaces: nat)
    ensures MakeMoney(minorUnits, currency, decimalPlaces).Returned?
         ==> IsMoney(MakeMoney(minorUnits, currency, decimalPlaces).value)
    ensures MakeMoney(minorUnits, currency, decimalPlaces).Returned?
         ==> forall c <- MakeMoney(minorUnits, currency, decimalPlaces).value.currency :: !('a' <= c <= 'z')
  {
    UpperKeepsSpaces(currency);
    UpperTwice(currency);
    hide Trim;
  }

  /** An amount with no more fraction digits than the currency keeps is read without loss. */
  lemma ShortFractionIsExact(value: string, currency: string, decimalPlaces: nat)
    requires IsDecimalText(Trim(value)) && Scale(Trim(value)) <= decimalPlaces && Trim(currency) != ""
    ensures FromDecimalString(value, currency, decimalPlaces)
         == Returned(Money(
              ScaledUnits(Trim(value)) * Pow10(decimalPlaces - Scale(Trim(value))), Upper(currency), decimalPlaces))
  {
    hide IsDecimalText, PartsOf, Trim, Upper, ToNat, Pow10, Zeros;
    var parts := PartsOf(Trim(value));
    var missing := decimalPlaces - |parts.fraction|;
    PaddedFraction(parts.fraction, decimalPlaces);
    assert parts.whole + (parts.fraction + Zeros(missing)) == (parts.whole + parts.fraction) + Zeros(missing);
    ToNatConcat(parts.whole, parts.fraction);
    ToNatConcat(parts.whole + parts.fraction, Zeros(missing));
    ToNatZeros(missing);
  }

  lemma {:induction false} PaddedFraction(fraction: string, places: nat)
    requires |fraction| <= places
    ensures (fraction + Zeros(places))[..places] == fraction + Zeros(places - |fraction|)
  {
    ZerosPrefix(places, places - |fraction|);
  }

  lemma {:induction false} ZerosPrefix(n: nat, k: nat)
    requires k <= n
    ensures Zeros(n)[..k] == Zeros(k)
  {
    if k < n {
      ZerosPrefix(n - 1, k);
      assert Zeros(n)[..k] == Zeros(n - 1)[..k];
    }
  }

  /** A longer fraction is truncated: the minor units are the kept digits of the amount. */
  lemma LongFractionIsCut(value: string, currency: string, decimalPlaces: nat)
    requires IsDecimalText(Trim(value)) && Scale(Trim(value)) >= decimalPlaces && Trim(currency) != ""
    ensures var units, cut := ScaledUnits(Trim(value)), Pow10(Scale(Trim(value)) - decimalPlaces);
      FromDecimalString(value, currency, decimalPlaces)
      == Returned(Money(if units < 0 then -(-units / cut) else units / cut, Upper(currency), decimalPlaces))
  {
    hide IsDecimalText, PartsOf, Trim, Upper, ToNat, Pow10, Zeros;
    var parts := PartsOf(Trim(value));
    var kept, dropped := parts.fraction[..decimalPlaces], parts.fraction[decimalPlaces..];
    assert (parts.fraction + Zeros(decimalPlaces))[..decimalPlaces] == kept;
    assert parts.whole + parts.fraction == (parts.whole + kept) + dropped by {
      assert parts.fraction == kept + dropped;
    }
    ToNatConcat(parts.whole + kept, dropped);
    ToNatBound(dropped);
    QuotientOf(ToNat(parts.whole + parts.fraction), Pow10(|dropped|), ToNat(parts.whole + kept), ToNat(dropped));
    QuotientOf(0, Pow10(|dropped|), 0, 0);
  }

  /** Writing an amount and reading it back gives the same money, for every count, sign and number of places. */
  lemma MoneyRoundTrip(m: Money)
    requires IsMoney(m)
    ensures FromDecimalString(ToDecimalString(m), m.currency, m.decimalPlaces) == Returned(m)
  {
    hide IsDecimalText, PartsOf, Trim, Upper, PointText;
    PointTextReads(m.minorUnits, m.decimalPlaces);
    ShortFractionIsExact(ToDecimalString(m), m.currency, m.decimalPlaces);
  }

  /** A written amount names the money's value exactly. */
  lemma TextNamesAmount(m: Money)
    ensures IsDecimalText(ToDecimalString(m))
    ensures Value(ToDecimalString(m)) == m.minorUnits as real / Pow10(m.decimalPlaces) as real
  {
    PointTextReads(m.minorUnits, m.decimalPlaces);
    hide IsDecimalText, PointText, ScaledUnits, Scale;
  }
}
