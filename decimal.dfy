/** Decimal text of numbers, as the firmware produces it: `sprintf("%Lu")` for the
    DISPLAY_VALUE command, and the fixed five-digit split `show_adc` uses. Digits are
    ASCII bytes '0'..'9' (48..57). */
module Decimal {
  import opened Machine

  const ZERO: byte := 48

  predicate IsDigit(c: byte) {
    ZERO <= c <= ZERO + 9
  }

  predicate AllDigits(ds: seq<byte>) {
    forall k :: 0 <= k < |ds| ==> IsDigit(ds[k])
  }

  /** The number a digit string denotes, most significant digit first. */
  function Value(ds: seq<byte>): nat
    requires AllDigits(ds)
    decreases |ds|
  {
    if ds == [] then 0 else Value(ds[..|ds| - 1]) * 10 + (ds[|ds| - 1] - ZERO) as nat
  }

  /** No leading zero: the only string that starts with '0' is "0" itself. */
  predicate Canonical(ds: seq<byte>) {
    |ds| > 0 && AllDigits(ds) && (ds[0] == ZERO ==> |ds| == 1)
  }

  /** The unsigned decimal text of v, as `%Lu` prints it (without the terminator). */
  function Digits(v: nat): (ds: seq<byte>)
    ensures |ds| > 0 && AllDigits(ds)
    decreases v
  {
    if v < 10 then [(ZERO as nat + v) as byte] else Digits(v / 10) + [(ZERO as nat + v % 10) as byte]
  }

  /** Reading the text back gives the number. */
  lemma {:induction false} ValueOfDigits(v: nat)
    ensures Value(Digits(v)) == v
    decreases v
  {
    if v >= 10 {
      ValueOfDigits(v / 10);
      var ds := Digits(v);
      assert ds[..|ds| - 1] == Digits(v / 10);
    }
  }

  /** The text has no leading zero. */
  lemma {:induction false} DigitsCanonical(v: nat)
    ensures Canonical(Digits(v))
    ensures v > 0 ==> Digits(v)[0] != ZERO
    decreases v
  {
    if v >= 10 {
      DigitsCanonical(v / 10);
    }
  }

  /** The text is at most n digits long exactly when v is below 10^n: so a 16-bit value
      has one to five digits. */
  lemma {:induction false} DigitsLength(v: nat, n: nat)
    requires n > 0
    ensures |Digits(v)| <= n <==> v < Pow10(n)
    decreases v
  {
    if v >= 10 && n > 1 {
      DigitsLength(v / 10, n - 1);
    }
  }

  function Pow10(n: nat): (p: nat)
    ensures p > 0
  {
    if n == 0 then 1 else 10 * Pow10(n - 1)
  }

  lemma DigitsOf16Bit(v: u16)
    ensures 1 <= |Digits(v as nat)| <= 5
  {
    DigitsLength(v as nat, 5);
  }

  /** A canonical digit string with a leading non-zero digit denotes at least 1. */
  lemma {:induction false} ValuePositive(ds: seq<byte>)
    requires AllDigits(ds) && |ds| > 0 && ds[0] != ZERO
    ensures Value(ds) > 0
    decreases |ds|
  {
    if |ds| > 1 {
      ValuePositive(ds[..|ds| - 1]);
    }
  }

  /** Digits is the only canonical text of a number: any digit string without a leading
      zero that denotes v is Digits(v). */
  lemma {:induction false} CanonicalIsDigits(ds: seq<byte>)
    requires Canonical(ds)
    ensures Digits(Value(ds)) == ds
    decreases |ds|
  {
    var init, last := ds[..|ds| - 1], ds[|ds| - 1];
    if |ds| == 1 {
      assert Value(ds) == (last - ZERO) as nat;
    } else {
      assert Canonical(init);
      ValuePositive(init);
      CanonicalIsDigits(init);
      var v := Value(ds);
      assert v == Value(init) * 10 + (last - ZERO) as nat;
      assert v / 10 == Value(init) && v % 10 == (last - ZERO) as nat;
      assert ds == init + [last];
    }
  }

  /** The five characters `show_adc` types for a value: ten-thousands, thousands,
      hundreds, tens and ones, each as `digit + 48`, leading zeros included. */
  function FiveDigits(v: u16): seq<byte>
  {
    [ (v / 10000 + 48) as byte,
      (v % 10000 / 1000 + 48) as byte,
      (v % 10000 % 1000 / 100 + 48) as byte,
      (v % 10000 % 1000 % 100 / 10 + 48) as byte,
      (v % 10000 % 1000 % 100 % 10 + 48) as byte ]
  }

  /** The characters `show_adc` types for a raw converter reading: it first scales the
      12-bit result by `val_adc / 16`. */
  function AdcDigits(raw: u16): seq<byte>
  {
    FiveDigits(raw / 16)
  }

  function Digit(d: nat): byte
    requires d < 10
  {
    (ZERO as nat + d) as byte
  }

  // Place-value arithmetic, one division by ten at a time.

  lemma SplitTen(x: nat)
    ensures (x / 10) * 10 + x % 10 == x
  {}

  lemma DivTens(n: nat)
    ensures n / 10 / 10 == n / 100 && n / 100 / 10 == n / 1000 && n / 1000 / 10 == n / 10000
  {}

  lemma DivExact(k: nat, r: nat, p: nat)
    requires p == 10 || p == 100 || p == 1000
    requires r < p
    ensures (p * k + r) / p == k
  {}

  /** The digit at place p (p = 10, 100, 1000) survives reduction modulo 10 * p. */
  lemma DigitBelow(n: nat, p: nat)
    requires p == 10 || p == 100 || p == 1000
    ensures n % (10 * p) / p == n / p % 10
  {
    var b := n / p;
    DivTens(n);
    assert n / (10 * p) == b / 10;
    assert n == p * b + n % p;
    assert b == 10 * (b / 10) + b % 10;
    assert n % (10 * p) == p * (b % 10) + n % p;
    DivExact(b % 10, n % p, p);
  }

  lemma Mod10000Mod1000(n: nat)
    ensures n % 10000 % 1000 == n % 1000
  {}

  lemma Mod1000Mod100(n: nat)
    ensures n % 1000 % 100 == n % 100
  {}

  lemma Mod100Mod10(n: nat)
    ensures n % 100 % 10 == n % 10
  {}

  lemma FiveDigitsShape(v: u16)
    ensures FiveDigits(v) == [Digit(v as nat / 10000), Digit(v as nat / 1000 % 10),
                              Digit(v as nat / 100 % 10), Digit(v as nat / 10 % 10), Digit(v as nat % 10)]
  {
    var n := v as nat;
    DigitBelow(n, 1000);
    Mod10000Mod1000(n);
    DigitBelow(n, 100);
    Mod1000Mod100(n);
    DigitBelow(n, 10);
    Mod100Mod10(n);
  }

  lemma ValueOfFive(a: nat, b: nat, c: nat, d: nat, e: nat)
    requires a < 10 && b < 10 && c < 10 && d < 10 && e < 10
    ensures Value([Digit(a), Digit(b), Digit(c), Digit(d), Digit(e)]) == (((a * 10 + b) * 10 + c) * 10 + d) * 10 + e
  {
    var ds := [Digit(a), Digit(b), Digit(c), Digit(d), Digit(e)];
    assert ds[..4] == [Digit(a), Digit(b), Digit(c), Digit(d)];
    assert ds[..4][..3] == [Digit(a), Digit(b), Digit(c)];
    assert ds[..4][..3][..2] == [Digit(a), Digit(b)];
    assert ds[..4][..3][..2][..1] == [Digit(a)];
    assert Value([Digit(a)]) == a;
    assert Value([Digit(a), Digit(b)]) == a * 10 + b;
    assert Value([Digit(a), Digit(b), Digit(c)]) == (a * 10 + b) * 10 + c;
    assert Value([Digit(a), Digit(b), Digit(c), Digit(d)]) == ((a * 10 + b) * 10 + c) * 10 + d;
  }

  lemma PlaceValue(n: nat)
    ensures ((((n / 10000) * 10 + n / 1000 % 10) * 10 + n / 100 % 10) * 10 + n / 10 % 10) * 10 + n % 10 == n
  {
    var a, b, c, d := n / 10, n / 100, n / 1000, n / 10000;
    DivTens(n);
    SplitTen(c);
    SplitTen(b);
    SplitTen(a);
    SplitTen(n);
    assert d * 10 + c % 10 == c;
    assert c * 10 + b % 10 == b;
    assert b * 10 + a % 10 == a;
  }

  /** The five-digit split reads back as the value. */
  lemma FiveDigitsValue(v: u16)
    ensures |FiveDigits(v)| == 5 && AllDigits(FiveDigits(v))
    ensures Value(FiveDigits(v)) == v as nat
  {
    var n := v as nat;
    FiveDigitsShape(v);
    ValueOfFive(n / 10000, n / 1000 % 10, n / 100 % 10, n / 10 % 10, n % 10);
    PlaceValue(n);
  }

  /** Stripping the leading zeros of a digit string that reads as a positive number
      gives its canonical text. */
  lemma {:induction false} StripZeros(ds: seq<byte>, k: nat)
    requires AllDigits(ds) && k < |ds|
    requires forall j :: 0 <= j < k ==> ds[j] == ZERO
    requires ds[k] != ZERO
    ensures Value(ds[k..]) == Value(ds)
    decreases |ds|
  {
    if |ds| - 1 > k {
      var init := ds[..|ds| - 1];
      StripZeros(init, k);
      assert ds[k..][..|ds| - 1 - k] == init[k..];
    } else {
      assert ds[..|ds| - 1] == ds[..k];
      LeadingZerosValue(ds[..k]);
    }
  }

  lemma {:induction false} LeadingZerosValue(ds: seq<byte>)
    requires forall j :: 0 <= j < |ds| ==> ds[j] == ZERO
    ensures AllDigits(ds) && Value(ds) == 0
    decreases |ds|
  {
    if ds != [] {
      LeadingZerosValue(ds[..|ds| - 1]);
    }
  }

  /** Where the five-digit split of a positive value stops having leading zeros. */
  lemma FirstNonZero(v: u16) returns (k: nat)
    requires v > 0
    ensures k < 5
    ensures forall j :: 0 <= j < k ==> FiveDigits(v)[j] == ZERO
    ensures FiveDigits(v)[k] != ZERO
  {
    var n := v as nat;
    FiveDigitsShape(v);
    if n >= 10000 {
      k := 0;
    } else if n >= 1000 {
      assert n / 10000 == 0 && 1 <= n / 1000 < 10;
      k := 1;
    } else if n >= 100 {
      assert n / 10000 == 0 && n / 1000 == 0 && 1 <= n / 100 < 10;
      k := 2;
    } else if n >= 10 {
      assert n / 10000 == 0 && n / 1000 == 0 && n / 100 == 0 && 1 <= n / 10 < 10;
      k := 3;
    } else {
      k := 4;
    }
  }

  /** The characters `show_adc` types are the scaled reading's decimal text, padded to
      five characters with leading zeros. */
  lemma AdcDigitsSpec(raw: u16)
    ensures |AdcDigits(raw)| == 5 && AllDigits(AdcDigits(raw))
    ensures Value(AdcDigits(raw)) == (raw / 16) as nat
    ensures |Digits((raw / 16) as nat)| <= 5
    ensures forall j :: 0 <= j < 5 - |Digits((raw / 16) as nat)| ==> AdcDigits(raw)[j] == ZERO
    ensures AdcDigits(raw)[5 - |Digits((raw / 16) as nat)|..] == Digits((raw / 16) as nat)
  {
    var v := raw / 16;
    var n := v as nat;
    var ds := AdcDigits(raw);
    FiveDigitsValue(v);
    FiveDigitsShape(v);
    DigitsOf16Bit(v);
    if n == 0 {
      assert ds[4..] == Digits(0);
    } else {
      var k := FirstNonZero(v);
      StripZeros(ds, k);
      CanonicalIsDigits(ds[k..]);
      assert Digits(n) == ds[k..];
    }
  }
}
