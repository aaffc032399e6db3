/** Decimal digit strings: `toString`, `padStart` and reading digits back as a number. */
module Digits {
  import opened Strings

  function Pow10(n: nat): (p: nat)
    ensures p >= 1
  {
    if n == 0 then 1 else 10 * Pow10(n - 1)
  }

  lemma {:induction false} Pow10Sum(a: nat, b: nat)
    ensures Pow10(a + b) == Pow10(a) * Pow10(b)
  {
    if b > 0 {
      Pow10Sum(a, b - 1);
    }
  }

  lemma SmallPowers()
    ensures Pow10(2) == 100 && Pow10(4) == 10000
  {
    assert Pow10(3) == 1000;
  }

  predicate IsDigit(c: char) {
    '0' <= c <= '9'
  }

  predicate AllDigits(s: string) {
    forall i :: 0 <= i < |s| ==> IsDigit(s[i])
  }

  function DigitChar(d: nat): (c: char)
    requires d < 10
    ensures IsDigit(c) && DigitOf(c) == d
  {
    '0' + d as char
  }

  function DigitOf(c: char): (d: nat)
    requires IsDigit(c)
    ensures d < 10
  {
    (c - '0') as nat
  }

  /** The number a digit string names; leading zeros are allowed, as in `Number("007")`. */
  function ToNat(s: string): nat
    requires AllDigits(s)
  {
    if s == [] then 0 else ToNat(DropLast(s)) * 10 + DigitOf(Last(s))
  }

  /** The last `w` decimal digits of `n`, zero-padded. */
  function Fixed(n: nat, w: nat): (s: string)
    ensures |s| == w && AllDigits(s)
  {
    if w == 0 then "" else Fixed(n / 10, w - 1) + [DigitChar(n % 10)]
  }

  /** `n.toString()`. */
  function NatToString(n: nat): (s: string)
    ensures s != [] && AllDigits(s)
  {
    if n < 10 then [DigitChar(n)] else NatToString(n / 10) + [DigitChar(n % 10)]
  }

  function Zeros(n: nat): (s: string)
    ensures |s| == n && AllDigits(s)
  {
    if n == 0 then "" else Zeros(n - 1) + "0"
  }

  /** `s.padStart(w, '0')`. */
  function PadStart(s: string, w: nat): (r: string)
    ensures |r| >= w && (AllDigits(s) ==> AllDigits(r))
  {
    if |s| >= w then s else Zeros(w - |s|) + s
  }

  lemma {:induction false} FixedNames(n: nat, w: nat)
    requires n < Pow10(w)
    ensures ToNat(Fixed(n, w)) == n
  {
    if w > 0 {
      FixedNames(n / 10, w - 1);
      assert DropLast(Fixed(n, w)) == Fixed(n / 10, w - 1);
    }
  }

  lemma {:induction false} NatToStringNames(n: nat)
    ensures ToNat(NatToString(n)) == n
    ensures NatToString(n)[0] == '0' ==> n == 0
  {
    if n >= 10 {
      NatToStringNames(n / 10);
      assert DropLast(NatToString(n)) == NatToString(n / 10);
    } else {
      assert DropLast(NatToString(n)) == [];
    }
  }

  lemma {:induction false} ToNatBound(s: string)
    requires AllDigits(s)
    ensures ToNat(s) < Pow10(|s|)
  {
    if s != [] {
      ToNatBound(DropLast(s));
    }
  }

  lemma FixedStep(n: nat, w: nat)
    requires w > 0
    ensures Fixed(n, w) == Fixed(n / 10, w - 1) + [DigitChar(n % 10)]
  {
  }

  lemma LastDigit(s: string)
    requires s != "" && AllDigits(s)
    ensures ToNat(s) == ToNat(DropLast(s)) * 10 + DigitOf(Last(s))
    ensures Pow10(|s|) == 10 * Pow10(|DropLast(s)|)
  {
  }

  /** A digit string is the fixed-width form of the number it names. */
  lemma {:induction false} FixedOfToNat(s: string)
    requires AllDigits(s)
    ensures Fixed(ToNat(s), |s|) == s
  {
    if s != [] {
      FixedOfToNat(DropLast(s));
      LastDigit(s);
      FixedStep(ToNat(s), |s|);
      hide ToNat, Fixed;
      assert s == DropLast(s) + [Last(s)];
    }
  }

  /** Digit strings of one length are equal exactly when they name the same number. */
  lemma ToNatIsInjective(a: string, b: string)
    requires AllDigits(a) && AllDigits(b) && |a| == |b|
    requires ToNat(a) == ToNat(b)
    ensures a == b
  {
    FixedOfToNat(a);
    FixedOfToNat(b);
  }

  lemma NoDigits()
    ensures ToNat("") == 0 && Pow10(0) == 1
  {
  }

  lemma AppendDigit(x: nat, y: nat, p: nat, digit: nat)
    ensures (x * p + y) * 10 + digit == x * (10 * p) + (y * 10 + digit)
  {
    assert x * (10 * p) == (x * p) * 10;
  }

  lemma {:induction false} ToNatConcat(a: string, b: string)
    requires AllDigits(a) && AllDigits(b)
    ensures AllDigits(a + b)
    ensures ToNat(a + b) == ToNat(a) * Pow10(|b|) + ToNat(b)
  {
    hide ToNat, Pow10;
    if b == [] {
      assert a + b == a;
      NoDigits();
    } else {
      var c := DropLast(b);
      ToNatConcat(a, c);
      LastDigit(b);
      LastDigit(a + b);
      assert DropLast(a + b) == a + c && Last(a + b) == Last(b);
      AppendDigit(ToNat(a), ToNat(c), Pow10(|c|), DigitOf(Last(b)));
    }
  }

  lemma {:induction false} ToNatZeros(n: nat)
    ensures ToNat(Zeros(n)) == 0
  {
    if n > 0 {
      ToNatZeros(n - 1);
      assert DropLast(Zeros(n)) == Zeros(n - 1);
    }
  }

  lemma {:induction false} NatToStringLength(n: nat, w: nat)
    requires w >= 1
    ensures |NatToString(n)| <= w <==> n < Pow10(w)
  {
    if n >= 10 && w > 1 {
      NatToStringLength(n / 10, w - 1);
    }
  }

  /** Padding a number that fits gives its fixed-width form; a longer one is left alone. */
  lemma PadStartOfNat(n: nat, w: nat)
    requires w >= 1
    ensures var s := PadStart(NatToString(n), w);
      && |s| >= w
      && AllDigits(s) && ToNat(s) == n
      && (|s| > w ==> s == NatToString(n))
      && (n < Pow10(w) ==> s == Fixed(n, w))
  {
    var t, s := NatToString(n), PadStart(NatToString(n), w);
    NatToStringNames(n);
    NatToStringLength(n, w);
    if |t| < w {
      ToNatZeros(w - |t|);
      ToNatConcat(Zeros(w - |t|), t);
    }
    if n < Pow10(w) {
      FixedNames(n, w);
      ToNatIsInjective(s, Fixed(n, w));
    }
  }

  /** String order on equally long digit strings is numeric order. */
  lemma {:induction false} FixedOrder(a: nat, b: nat, w: nat)
    requires a < Pow10(w) && b < Pow10(w)
    ensures Less(Fixed(a, w), Fixed(b, w)) <==> a < b
  {
    if w > 0 {
      FixedOrder(a / 10, b / 10, w - 1);
      var p, q, x, y := Fixed(a / 10, w - 1), Fixed(b / 10, w - 1), [DigitChar(a % 10)], [DigitChar(b % 10)];
      if a / 10 == b / 10 {
        LessAfterCommonPrefix(p, x, y);
      } else {
        FixedNames(a / 10, w - 1);
        FixedNames(b / 10, w - 1);
        LessByHeads(p, q, x, y);
      }
    }
  }
}
