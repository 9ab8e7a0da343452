/**
 * The order key codec of thread.py: `create_order_key(price, amount)` prints each
 * value through `Decimal(x)` with the format `.8f` and joins the two with `_`.
 *
 * A float handed to `Decimal` keeps its exact binary value, which is a rational
 * number; the model takes that value as a `real`.  The `.8f` format rounds it to
 * eight fractional digits with the default decimal context (round half to even),
 * keeps the sign of the original value (so a tiny negative number prints as
 * `-0.00000000`), writes the integer part without grouping and always prints
 * exactly eight fractional digits.
 */
module OrderKey {
  import opened Wrappers

  /** A decimal as `.8f` prints it: a sign and a magnitude in units of 1e-8. */
  datatype Dec8 = Dec8(negative: bool, units: nat)

  /** Units of 1e-8 per whole unit. */
  const SCALE: nat := 100_000_000

  /** Number of fractional digits in a key component. */
  const FRACTION_DIGITS: nat := 8

  function Abs(x: real): real { if x < 0.0 then -x else x }

  /** Rounding to the nearest integer, ties to the even neighbour. */
  function RoundHalfEven(r: real): (n: int)
    ensures n as real - 0.5 <= r <= n as real + 0.5
    ensures (r - n as real == 0.5 || n as real - r == 0.5) ==> n % 2 == 0
  {
    var f := r.Floor;
    var d := r - f as real;
    if d < 0.5 then f
    else if d > 0.5 then f + 1
    else if f % 2 == 0 then f else f + 1
  }

  /** The two postconditions of RoundHalfEven determine its result. */
  lemma RoundHalfEvenUnique(r: real, n: int)
    requires n as real - 0.5 <= r <= n as real + 0.5
    requires (r - n as real == 0.5 || n as real - r == 0.5) ==> n % 2 == 0
    ensures n == RoundHalfEven(r)
  {
    var m := RoundHalfEven(r);
    assert -1 <= n - m <= 1;
  }

  /** Rounding half to even is symmetric about zero. */
  lemma RoundHalfEvenNegate(r: real)
    ensures RoundHalfEven(-r) == -RoundHalfEven(r)
  {
    var n := RoundHalfEven(r);
    assert (-n) % 2 == 0 <==> n % 2 == 0;
    RoundHalfEvenUnique(-r, -n);
  }

  /** An integer is not changed by rounding. */
  lemma RoundHalfEvenOfInteger(n: int)
    ensures RoundHalfEven(n as real) == n
  {
    RoundHalfEvenUnique(n as real, n);
  }

  /** The value `Decimal(x)` formatted with `.8f` stands for: the sign of `x` and its rounded magnitude. */
  function Canon(x: real): (d: Dec8)
    ensures d.negative <==> x < 0.0
  {
    var n := RoundHalfEven(Abs(x) * SCALE as real);
    Dec8(x < 0.0, n)
  }

  /** `x` rounded to eight fractional digits, as a signed count of 1e-8 units. */
  function Round8(x: real): (r: int)
    ensures -0.5 <= x * SCALE as real - r as real <= 0.5
  {
    RoundHalfEven(x * SCALE as real)
  }

  /** The magnitude in a key component is the magnitude of the rounded value. */
  lemma CanonUnits(x: real)
    ensures Canon(x).units == if x < 0.0 then -Round8(x) else Round8(x)
  {
    if x < 0.0 {
      assert Abs(x) * SCALE as real == -(x * SCALE as real);
      RoundHalfEvenNegate(x * SCALE as real);
    }
  }

  /** A value that already has eight fractional digits keeps them exactly. */
  lemma CanonOfEightDigits(n: int)
    ensures Canon(n as real / SCALE as real) == Dec8(n < 0, if n < 0 then -n else n)
  {
    var x := n as real / SCALE as real;
    assert x * SCALE as real == n as real;
    RoundHalfEvenOfInteger(n);
    CanonUnits(x);
  }

  function DigitChar(d: nat): (c: char)
    requires d < 10
    ensures '0' <= c <= '9'
  {
    "0123456789"[d]
  }

  predicate IsDigit(c: char) { '0' <= c <= '9' }

  /** The decimal digits of `n` without leading zeros (`"0"` for zero). */
  function NatDigits(n: nat): (s: string)
    ensures |s| >= 1
    ensures forall i :: 0 <= i < |s| ==> IsDigit(s[i])
    decreases n
  {
    if n < 10 then [DigitChar(n)] else NatDigits(n / 10) + [DigitChar(n % 10)]
  }

  /** The last `width` decimal digits of `n`, with leading zeros. */
  function PaddedDigits(n: nat, width: nat): (s: string)
    ensures |s| == width
    ensures forall i :: 0 <= i < |s| ==> IsDigit(s[i])
  {
    if width == 0 then [] else PaddedDigits(n / 10, width - 1) + [DigitChar(n % 10)]
  }

  /** The text `.8f` produces for a rounded decimal. */
  function FormatDec8(d: Dec8): (s: string)
    ensures '_' !in s
  {
    (if d.negative then "-" else "") + NatDigits(d.units / SCALE) + "." + PaddedDigits(d.units % SCALE, FRACTION_DIGITS)
  }

  /** `create_order_key`: both components formatted to eight fractional digits, joined by `_`. */
  function CreateOrderKey(price: real, amount: real): string
  {
    FormatDec8(Canon(price)) + "_" + FormatDec8(Canon(amount))
  }

  // ----- The inverse of the codec, used to prove that keys identify rounded pairs -----

  function DigitValue(c: char): nat
  {
    if IsDigit(c) then c as int - '0' as int else 0
  }

  /** The number a string of decimal digits denotes. */
  function ParseDigits(s: string): nat
  {
    if s == [] then 0 else ParseDigits(s[..|s| - 1]) * 10 + DigitValue(s[|s| - 1])
  }

  /** Reads `digits "." eight-digits` back as a count of 1e-8 units. */
  function ParseMagnitude(body: string): Option<nat>
  {
    if |body| < FRACTION_DIGITS + 2 || body[|body| - FRACTION_DIGITS - 1] != '.' then None
    else Some(ParseDigits(body[..|body| - FRACTION_DIGITS - 1]) * SCALE + ParseDigits(body[|body| - FRACTION_DIGITS..]))
  }

  /** Reads one key component back. */
  function ParseDec8(s: string): Option<Dec8>
  {
    var negative := |s| > 0 && s[0] == '-';
    match ParseMagnitude(if negative then s[1..] else s)
    case Some(units) => Some(Dec8(negative, units))
    case None => None
  }

  /** Index of the first `c` in `s`, or `|s|` when there is none. */
  function IndexOf(s: string, c: char): (i: nat)
    ensures i <= |s|
    ensures i < |s| ==> s[i] == c
    ensures forall j :: 0 <= j < i ==> s[j] != c
  {
    if s == [] then 0 else if s[0] == c then 0 else 1 + IndexOf(s[1..], c)
  }

  /** Splits a key at its first `_` and reads back both components. */
  function ParseKey(key: string): Option<(Dec8, Dec8)>
  {
    var i := IndexOf(key, '_');
    if i == |key| then None
    else match (ParseDec8(key[..i]), ParseDec8(key[i + 1..]))
      case (Some(p), Some(a)) => Some((p, a))
      case _ => None
  }

  /** The digits of a natural number read back as that number. */
  lemma {:induction false} ParseNatDigits(n: nat)
    ensures ParseDigits(NatDigits(n)) == n
    decreases n
  {
    if n >= 10 {
      var s := NatDigits(n);
      assert s[..|s| - 1] == NatDigits(n / 10);
      ParseNatDigits(n / 10);
    }
  }

  /** Zero-padded digits of a number below `10^width` read back as that number. */
  lemma {:induction false} ParsePaddedDigits(n: nat, width: nat, bound: nat)
    requires width > 0 ==> bound > 0
    requires n < bound
    requires bound == Pow10(width)
    ensures ParseDigits(PaddedDigits(n, width)) == n
    decreases width
  {
    if width > 0 {
      var s := PaddedDigits(n, width);
      assert s[..|s| - 1] == PaddedDigits(n / 10, width - 1);
      assert n / 10 < bound / 10 by { DivBound(n, bound / 10); }
      ParsePaddedDigits(n / 10, width - 1, bound / 10);
    }
  }

  /** Ten to the power `k`. */
  function Pow10(k: nat): (p: nat)
    ensures p > 0
  {
    if k == 0 then 1 else 10 * Pow10(k - 1)
  }

  /** Dropping the last digit of a number below `10 * b` gives a number below `b`. */
  lemma DivBound(n: nat, b: nat)
    requires n < 10 * b
    ensures n / 10 < b
  {
  }

  /** The scale of a key component is ten to the number of fraction digits. */
  lemma Pow10Scale()
    ensures Pow10(FRACTION_DIGITS) == SCALE
  {
    assert Pow10(FRACTION_DIGITS) == 10 * 10 * 10 * 10 * 10 * 10 * 10 * 10 * Pow10(0);
  }

  /** `whole "." fraction` with an eight-digit fraction splits back at the point. */
  lemma ParseMagnitudeSplit(whole: string, fraction: string)
    requires |whole| >= 1 && |fraction| == FRACTION_DIGITS
    ensures ParseMagnitude(whole + "." + fraction) == Some(ParseDigits(whole) * SCALE + ParseDigits(fraction))
  {
    var body := whole + "." + fraction;
    var point := |whole|;
    assert point == |body| - FRACTION_DIGITS - 1 && body[point] == '.';
    var before, after := body[..point], body[point + 1..];
    assert ParseMagnitude(body) == Some(ParseDigits(before) * SCALE + ParseDigits(after));
    assert before == whole;
    assert after == fraction;
  }

  /** Whole digits, a point and eight padded fraction digits read back as one count of units. */
  lemma ParseWholeAndFraction(q: nat, r: nat)
    requires r < SCALE
    ensures ParseMagnitude(NatDigits(q) + "." + PaddedDigits(r, FRACTION_DIGITS)) == Some(q * SCALE + r)
  {
    ParseMagnitudeSplit(NatDigits(q), PaddedDigits(r, FRACTION_DIGITS));
    ParseNatDigits(q);
    Pow10Scale();
    ParsePaddedDigits(r, FRACTION_DIGITS, SCALE);
  }

  /** The unsigned part of a formatted decimal reads back as its magnitude. */
  lemma ParseUnsignedBody(units: nat)
    ensures var body := NatDigits(units / SCALE) + "." + PaddedDigits(units % SCALE, FRACTION_DIGITS);
      IsDigit(body[0]) && ParseMagnitude(body) == Some(units)
  {
    ParseWholeAndFraction(units / SCALE, units % SCALE);
  }

  /** Every formatted key component reads back as the decimal it was printed from. */
  lemma ParseFormatDec8(d: Dec8)
    ensures ParseDec8(FormatDec8(d)) == Some(d)
  {
    var body := NatDigits(d.units / SCALE) + "." + PaddedDigits(d.units % SCALE, FRACTION_DIGITS);
    ParseUnsignedBody(d.units);
    if d.negative {
      ParseSigned(body, d);
    } else {
      ParseUnsigned(body, d);
    }
  }

  /** The negative case of ParseFormatDec8: a `-` followed by the magnitude. */
  lemma ParseSigned(body: string, d: Dec8)
    requires d.negative && body == NatDigits(d.units / SCALE) + "." + PaddedDigits(d.units % SCALE, FRACTION_DIGITS)
    requires ParseMagnitude(body) == Some(d.units)
    ensures ParseDec8(FormatDec8(d)) == Some(d)
  {
    var s := FormatDec8(d);
    assert s == "-" + body;
    assert s[0] == '-' && s[1..] == body;
  }

  /** The non-negative case of ParseFormatDec8: the magnitude starts with a digit, not `-`. */
  lemma ParseUnsigned(body: string, d: Dec8)
    requires !d.negative && body == NatDigits(d.units / SCALE) + "." + PaddedDigits(d.units % SCALE, FRACTION_DIGITS)
    requires IsDigit(body[0]) && ParseMagnitude(body) == Some(d.units)
    ensures ParseDec8(FormatDec8(d)) == Some(d)
  {
    var s := FormatDec8(d);
    assert s == body;
  }

  /** In `x + [c] + y` with no `c` in `x`, the first `c` is the one joined in. */
  lemma {:induction false} IndexOfSeparator(x: string, c: char, y: string)
    requires c !in x
    ensures IndexOf(x + [c] + y, c) == |x|
    decreases |x|
  {
    if x != [] {
      assert (x + [c] + y)[1..] == x[1..] + [c] + y;
      IndexOfSeparator(x[1..], c, y);
    }
  }

  /** Reading a key back gives the rounded price and amount it was made from. */
  lemma ParseCreateOrderKey(price: real, amount: real)
    ensures ParseKey(CreateOrderKey(price, amount)) == Some((Canon(price), Canon(amount)))
  {
    var p, a := FormatDec8(Canon(price)), FormatDec8(Canon(amount));
    var key := CreateOrderKey(price, amount);
    IndexOfSeparator(p, '_', a);
    assert key[..|p|] == p;
    assert key[|p| + 1..] == a;
    ParseFormatDec8(Canon(price));
    ParseFormatDec8(Canon(amount));
  }

  /** Two (price, amount) pairs get the same key exactly when they round to the same signed decimals. */
  lemma KeysEqualIffSameCanon(p1: real, a1: real, p2: real, a2: real)
    ensures CreateOrderKey(p1, a1) == CreateOrderKey(p2, a2) <==> Canon(p1) == Canon(p2) && Canon(a1) == Canon(a2)
  {
    if CreateOrderKey(p1, a1) == CreateOrderKey(p2, a2) {
      ParseCreateOrderKey(p1, a1);
      ParseCreateOrderKey(p2, a2);
    }
  }

  /** Two values give equal key components exactly when their rounded values and their signs agree. */
  lemma CanonEqualIff(x: real, y: real)
    ensures Canon(x) == Canon(y) <==> Round8(x) == Round8(y) && (x < 0.0 <==> y < 0.0)
  {
    CanonUnits(x);
    CanonUnits(y);
  }

  /**
   * For the non-negative prices and amounts of an order book, keys are equal
   * exactly when both rounded values are equal.
   */
  lemma KeysEqualIffSameRounding(p1: real, a1: real, p2: real, a2: real)
    requires p1 >= 0.0 && a1 >= 0.0 && p2 >= 0.0 && a2 >= 0.0
    ensures CreateOrderKey(p1, a1) == CreateOrderKey(p2, a2) <==> Round8(p1) == Round8(p2) && Round8(a1) == Round8(a2)
  {
    KeysEqualIffSameCanon(p1, a1, p2, a2);
    CanonEqualIff(p1, p2);
    CanonEqualIff(a1, a2);
  }

  /**
   * A value just below zero rounds to zero but keeps its sign in the text, so its
   * key differs from that of zero itself.
   */
  lemma NegativeZeroKeyDiffers(amount: real)
    ensures Round8(-0.000000001) == Round8(0.0)
    ensures CreateOrderKey(-0.000000001, amount) != CreateOrderKey(0.0, amount)
  {
    RoundHalfEvenUnique(-0.000000001 * SCALE as real, 0);
    RoundHalfEvenUnique(0.0, 0);
    KeysEqualIffSameCanon(-0.000000001, amount, 0.0, amount);
  }
}
