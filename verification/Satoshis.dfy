/** Conversions between bitcoins held in doubles, satoshis held in integers, and printed amounts. */
module Satoshis {
  import opened Powers
  import opened Binary64
  import opened Text

  const SATOSHIS_PER_BTC: int := 100_000_000

  /** 2^25 bitcoins, up to which doubles tell every two amounts apart by enough. */
  const EXACT_MONEY: int := 33_554_432 * SATOSHIS_PER_BTC

  // ----- conversions -----

  /** Conversion of a double to an integer drops the fraction. */
  function Truncate(x: real): int {
    if x >= 0.0 then x.Floor else -(-x).Floor
  }

  function Btc2Satoshi(value: real): int {
    Truncate(Round(Round(value * SATOSHIS_PER_BTC as real) + if value < 0.0 then -0.5 else 0.5))
  }

  function Satoshi2Btc(value: int): real {
    Round(Round(value as real) / SATOSHIS_PER_BTC as real)
  }

  // ----- rounding errors in the range of money -----

  lemma GridIsDouble(k: int, e: int, z: real)
    requires Pow2(PRECISION) >= k && Pow2(PRECISION) >= -k && MIN_EXPONENT <= e < MAX_EXPONENT
    requires z == k as real * Scale(e)
    ensures IsDouble(z)
  {
    hide Pow2, Scale;
    TopIsTwice();
    if k == Pow2(PRECISION) {
      CarriedSignificand(Pow2(PRECISION - 1), e, z);
    } else if -k == Pow2(PRECISION) {
      CarriedSignificand(-(Pow2(PRECISION - 1) as int), e, z);
    } else {
      assert Represents(k, e, z);
    }
  }

  /** From 2^(52+e) on, every double is a multiple of 2^e. */
  lemma LargeDoublesOnGrid(w: real, e: int) returns (k: int)
    requires IsDouble(w) && Abs(w) >= Scale(e - 1) * Pow2(PRECISION) as real
    ensures w == k as real * Scale(e)
  {
    hide Scale, Pow2;
    var m, f :| Represents(m, f, w);
    if f < e {
      ScaleMonotone(f, e - 1);
      SmallProduct(m as real, Pow2(PRECISION) as real, Scale(f), Scale(e - 1), w);
    }
    k := FinerOrEqualGrid(m, f, e, w);
  }

  lemma CoarseScales()
    ensures Scale(1) == 2.0 && Scale(0) == 1.0 && Scale(-1) == 0.5 && Scale(-2) == 0.25
  {
  }

  lemma FineScales()
    ensures Scale(-28) * 268_435_456.0 == 1.0 && Scale(-27) * 134_217_728.0 == 1.0
  {
    hide Scale, Pow2;
    CoarseScales();
    Pow2Of28();
    ScaleSum(-28, 28);
    ScaleStep(-28);
  }

  /** Quarters up to 2^51 are doubles. */
  lemma RoundToQuarter(x: real)
    requires Abs(x) <= 2_251_799_813_685_248.0
    ensures Abs(x - Round(x)) <= 0.125
  {
    hide Round, Pow2, Scale, IsDouble;
    CoarseScales();
    Pow2Of53();
    var k := (x * 4.0 + 0.5).Floor;
    GridIsDouble(k, -2, k as real * 0.25);
    RoundIsNearest(x, k as real * 0.25);
  }

  lemma RoundInteger(s: int)
    requires -9_007_199_254_740_992 < s < 9_007_199_254_740_992
    ensures IsDouble(s as real) && Round(s as real) == s as real
  {
    hide Round, Pow2, Scale, IsDouble;
    CoarseScales();
    Pow2Of53();
    GridIsDouble(s, 0, s as real);
    RoundIsNearest(s as real, s as real);
  }

  /** Amounts in bitcoins are rounded by less than a fifth of a satoshi. */
  lemma RoundBitcoins(q: real)
    requires Abs(q) <= 33_554_432.0
    ensures Abs(q - Round(q)) * 536_870_912.0 <= 1.0
  {
    hide Round, Pow2, Scale, IsDouble;
    FineScales();
    Pow2Of53();
    var k := (q * 268_435_456.0 + 0.5).Floor;
    var u := Scale(-28);
    assert k as real * u == k as real / 268_435_456.0 by { TimesReciprocal(k as real, u, 268_435_456.0); }
    GridIsDouble(k, -28, k as real * u);
    RoundIsNearest(q, k as real * u);
  }

  lemma TimesReciprocal(a: real, u: real, n: real)
    requires n > 0.0 && u * n == 1.0
    ensures a * u == a / n
  {
    assert a * u * n == a * (u * n);
  }

  // ----- round trips -----

  /** A double within a quarter of a satoshi of a whole amount converts to that amount. */
  lemma NearbyAmount(v: real, s: int)
    requires -EXACT_MONEY <= s <= EXACT_MONEY
    requires Abs(v * SATOSHIS_PER_BTC as real - s as real) < 0.25
    ensures Btc2Satoshi(v) == s
  {
    hide Round, IsDouble;
    var p := v * 100_000_000.0;
    if Abs(s as real) < 2_251_799_813_685_248.0 {
      RoundToQuarter(p);
      var y := Round(p) + if v < 0.0 then -0.5 else 0.5;
      RoundToQuarter(y);
    } else {
      RoundedInward(p, s);
      HalfAdded(Round(p), s);
    }
  }

  /** From 2^51 on there are no doubles strictly between an amount and the next half away from zero. */
  lemma RoundedInward(p: real, s: int)
    requires -EXACT_MONEY <= s <= EXACT_MONEY && Abs(s as real) >= 2_251_799_813_685_248.0
    requires Abs(p - s as real) < 0.25
    ensures Abs(Round(p) - s as real) < 0.5 && Abs(Round(p)) <= Abs(s as real)
  {
    hide Round, IsDouble, Scale, Pow2, Largest;
    RoundInteger(s);
    RoundIsNearest(p, s as real);
    if Abs(Round(p)) > Abs(s as real) {
      CoarseScales();
      MoneyBelowLargest(p, s);
      RoundIsDouble(p);
      ScaleBelowHalf();
      var k := LargeDoublesOnGrid(Round(p), -1);
      HalfGridGap(k, s);
    }
  }

  lemma HalfGridGap(k: int, s: int)
    requires Abs(k as real * 0.5 - s as real) < 0.5
    ensures k == 2 * s
  {
    assert (k - 2 * s) as real == k as real - 2.0 * s as real;
  }

  lemma MoneyBelowLargest(p: real, s: int)
    requires -EXACT_MONEY <= s <= EXACT_MONEY && Abs(p - s as real) < 0.25
    ensures Abs(p) <= Largest()
  {
    hide Largest;
    LargestIsLarge();
  }

  /** 2^51 is where the grid of halves begins. */
  lemma ScaleBelowHalf()
    ensures Scale(-2) * Pow2(PRECISION) as real == 2_251_799_813_685_248.0
  {
    hide Scale, Pow2;
    CoarseScales();
    Pow2Of53();
  }

  lemma LargestIsLarge()
    ensures Largest() >= 9_007_199_254_740_991.0
  {
    hide Scale, Pow2;
    Pow2Of53();
    CoarseScales();
    ScaleMonotone(0, MAX_EXPONENT);
    ScaleOrder(1.0, 9_007_199_254_740_991.0, 1.0);
    assert Scale(MAX_EXPONENT) * 9_007_199_254_740_991.0 >= 9_007_199_254_740_991.0;
  }

  /** Adding half away from zero and rounding stays short of the next amount. */
  lemma HalfAdded(r: real, s: int)
    requires 1.0 <= Abs(s as real) < 4_503_599_627_370_496.0
    requires Abs(r - s as real) <= 0.5 && Abs(r) <= Abs(s as real)
    ensures Truncate(Round(r + if s < 0 then -0.5 else 0.5)) == s
  {
    hide Round, IsDouble, Scale, Pow2;
    var half := if s < 0 then -0.5 else 0.5;
    RoundInteger(s);
    CoarseScales();
    Pow2Of53();
    var next := s as real + half;
    GridIsDouble(if s < 0 then 2 * s - 1 else 2 * s + 1, -1, next);
    RoundIsNearest(r + half, s as real);
    RoundIsNearest(r + half, next);
  }

  lemma QuotientNear(s: int)
    requires -EXACT_MONEY <= s <= EXACT_MONEY
    ensures Abs(Satoshi2Btc(s) * SATOSHIS_PER_BTC as real - s as real) < 0.1875
    ensures Satoshi2Btc(s) < 0.0 <==> s < 0
  {
    hide Round, IsDouble;
    RoundInteger(s);
    var q := s as real / 100_000_000.0;
    RoundBitcoins(q);
  }

  /** Converting an amount to bitcoins and back gives the same amount, up to 2^25 bitcoins and so for all
      the money there will ever be. */
  lemma SatoshiRoundTrip(s: int)
    requires -EXACT_MONEY <= s <= EXACT_MONEY
    ensures Btc2Satoshi(Satoshi2Btc(s)) == s
  {
    hide Btc2Satoshi, Satoshi2Btc;
    QuotientNear(s);
    NearbyAmount(Satoshi2Btc(s), s);
  }

  /** Any other double converts to an amount less than one satoshi away. */
  lemma ConversionError(v: real)
    requires Abs(v * SATOSHIS_PER_BTC as real) <= 2_100_000_000_000_000.0
    ensures Abs(Btc2Satoshi(v) as real - v * SATOSHIS_PER_BTC as real) <= 0.75
  {
    hide Round;
    var p := v * 100_000_000.0;
    RoundToQuarter(p);
    var y := Round(p) + if v < 0.0 then -0.5 else 0.5;
    RoundToQuarter(y);
  }

  // ----- printing -----

  /** The last `width` decimal digits of n. */
  function FixedDigits(n: nat, width: nat): (s: string)
    ensures |s| == width && IsDigits(s)
  {
    if width == 0 then "" else FixedDigits(n / 10, width - 1) + [DigitChar(n % 10)]
  }

  /** A satoshi amount in bitcoins, with all eight places. */
  function MoneyText(n: int): string {
    var a := if n < 0 then -n else n;
    (if n < 0 then "-" else "") + Digits(a / SATOSHIS_PER_BTC) + "." + FixedDigits(a % SATOSHIS_PER_BTC, 8)
  }

  /** Fixed notation with eight places: the exact value, rounded half to even at the last place. */
  function Fixed8(d: real): string {
    var n: nat := RoundHalfEven(Abs(d) * SATOSHIS_PER_BTC as real);
    (if d < 0.0 then "-" else "") + Digits(n / SATOSHIS_PER_BTC) + "." + FixedDigits(n % SATOSHIS_PER_BTC, 8)
  }

  const WIDTH: nat := 21

  function PadLeft(s: string, width: nat): string
    decreases width - |s|
  {
    if |s| >= width then s else PadLeft([' '] + s, width)
  }

  function BtcToString(d: real): string {
    TrimStart(PadLeft(Fixed8(d), WIDTH))
  }

  lemma {:induction false} TrimUndoesPad(s: string, width: nat)
    ensures TrimStart(PadLeft(s, width)) == TrimStart(s)
    decreases width - |s|
  {
    if |s| < width {
      TrimUndoesPad([' '] + s, width);
      assert ([' '] + s)[1..] == s;
    }
  }

  lemma FirstCharacter(n: int)
    ensures MoneyText(n) != "" && (MoneyText(n)[0] == '-' <==> n < 0) && MoneyText(n)[0] != ' '
  {
  }

  lemma WholeSatoshis(y: real, n: nat)
    requires Abs(y - n as real) < 0.5
    ensures RoundHalfEven(y) == n
  {
  }

  /** A printed amount is exact, to the last satoshi. */
  lemma PrintsExactly(s: int)
    requires -EXACT_MONEY <= s <= EXACT_MONEY
    ensures BtcToString(Satoshi2Btc(s)) == MoneyText(s)
  {
    hide Satoshi2Btc, RoundHalfEven;
    var d := Satoshi2Btc(s);
    QuotientNear(s);
    var a: nat := if s < 0 then -s else s;
    WholeSatoshis(Abs(d) * SATOSHIS_PER_BTC as real, a);
    assert Fixed8(d) == MoneyText(s);
    TrimUndoesPad(MoneyText(s), WIDTH);
    FirstCharacter(s);
  }

  lemma {:induction false} FixedDigitsShowPlaces(n: nat, width: nat)
    ensures ShowsPlaces(FixedDigits(n, width), n)
  {
    if width > 0 {
      FixedDigitsShowPlaces(n / 10, width - 1);
      OneMorePlace(FixedDigits(n / 10, width - 1), n);
    }
  }

  /** The printed amount, character by character: a minus sign for negative amounts only, the decimal places
      of the whole bitcoins without leading zeros, a point, and the eight places of the rest. */
  lemma PrintsInCharacters(s: int) returns (whole: string, places: string)
    requires -EXACT_MONEY <= s <= EXACT_MONEY
    ensures BtcToString(Satoshi2Btc(s)) == (if s < 0 then "-" else "") + whole + "." + places
    ensures var a := if s < 0 then -s else s;
      ShowsPlaces(whole, a / 100_000_000) && ShowsPlaces(places, a % 100_000_000)
    ensures |places| == 8 && |whole| >= 1 && (|whole| > 1 ==> whole[0] != '0')
  {
    hide Satoshi2Btc, BtcToString, ShowsPlaces, Digits, FixedDigits;
    PrintsExactly(s);
    var a := if s < 0 then -s else s;
    whole, places := Digits(a / SATOSHIS_PER_BTC), FixedDigits(a % SATOSHIS_PER_BTC, 8);
    DigitsShowPlaces(a / SATOSHIS_PER_BTC);
    FixedDigitsShowPlaces(a % SATOSHIS_PER_BTC, 8);
  }

  lemma NextDigit(n: nat, width: nat, before: string)
    requires width > 0 && FixedDigits(n / 10, width - 1) == before
    ensures FixedDigits(n, width) == before + ["0123456789"[n % 10]]
  {
  }

  lemma NoDigits()
    ensures FixedDigits(0, 0) == ""
  {
  }

  lemma NoPlaces()
    ensures FixedDigits(0, 8) == "00000000"
  {
    hide FixedDigits;
    NoDigits();
    NextDigit(0, 1, "");
    NextDigit(0, 2, "0");
    NextDigit(0, 3, "00");
    NextDigit(0, 4, "000");
    NextDigit(0, 5, "0000");
    NextDigit(0, 6, "00000");
    NextDigit(0, 7, "000000");
    NextDigit(0, 8, "0000000");
  }

  lemma AllPlaces()
    ensures FixedDigits(87_654_321, 8) == "87654321"
  {
    hide FixedDigits;
    NoDigits();
    NextDigit(8, 1, "");
    NextDigit(87, 2, "8");
    NextDigit(876, 3, "87");
    NextDigit(8_765, 4, "876");
    NextDigit(87_654, 5, "8765");
    NextDigit(876_543, 6, "87654");
    NextDigit(8_765_432, 7, "876543");
    NextDigit(87_654_321, 8, "8765432");
  }

  lemma SmallNumbers()
    ensures Digits(1) == "1" && Digits(109) == "109"
  {
    assert Digits(10) == "10";
  }

  /** Some amounts as they are printed. */
  lemma PrintedAmounts()
    ensures BtcToString(Satoshi2Btc(100_000_000)) == "1.00000000"
    ensures BtcToString(Satoshi2Btc(10_987_654_321)) == "109.87654321"
    ensures BtcToString(Satoshi2Btc(-10_987_654_321)) == "-109.87654321"
  {
    hide Satoshi2Btc, BtcToString, FixedDigits, Digits;
    PrintsExactly(100_000_000);
    PrintsExactly(10_987_654_321);
    PrintsExactly(-10_987_654_321);
    NoPlaces();
    AllPlaces();
    SmallNumbers();
  }

  // ----- reading back -----

  function Power10(n: nat): nat {
    if n == 0 then 1 else 10 * Power10(n - 1)
  }

  lemma {:induction false} ValueOfFixedDigits(n: nat, width: nat)
    requires n < Power10(width)
    ensures Value(FixedDigits(n, width)) == n
  {
    if width > 0 {
      ValueOfFixedDigits(n / 10, width - 1);
      assert FixedDigits(n, width)[..width - 1] == FixedDigits(n / 10, width - 1);
    }
  }

  lemma {:induction false} ValueOfConcat(s: string, t: string)
    requires IsDigits(s) && IsDigits(t)
    ensures IsDigits(s + t) && Value(s + t) == Value(s) * Power10(|t|) + Value(t)
  {
    if t == "" {
      assert s + t == s;
    } else {
      var u := t[..|t| - 1];
      ValueOfConcat(s, u);
      assert (s + t)[..|s + t| - 1] == s + u;
      assert Value(s + t) == 10 * Value(s + u) + DigitValue(t[|t| - 1]);
      AppendDigit(Value(s), Power10(|u|), Value(u), DigitValue(t[|t| - 1]));
    }
  }

  lemma AppendDigit(v: nat, p: nat, w: nat, d: nat)
    ensures 10 * (v * p + w) + d == v * (10 * p) + (10 * w + d)
  {
  }

  datatype Amount = NotAnAmount | Satoshis(n: int)

  /** Reads an amount in bitcoins written with exactly eight places. */
  function ParseMoney(text: string): Amount {
    var negative := text != "" && text[0] == '-';
    var body := if negative then text[1..] else text;
    if |body| < 10 || body[|body| - 9] != '.' then NotAnAmount
    else
      var whole, places := body[..|body| - 9], body[|body| - 8..];
      if !IsDigits(whole) || !IsDigits(places) then NotAnAmount
      else
        var v: int := Value(whole + places);
        Satoshis(if negative then -v else v)
  }

  lemma ParseUnderstandsMoneyText(n: int)
    ensures ParseMoney(MoneyText(n)) == Satoshis(n)
  {
    hide Digits, FixedDigits, Value, IsDigits, Power10;
    FirstCharacter(n);
    var a: nat := if n < 0 then -n else n;
    var whole, places := Digits(a / SATOSHIS_PER_BTC), FixedDigits(a % SATOSHIS_PER_BTC, 8);
    var body := whole + "." + places;
    assert n < 0 ==> MoneyText(n)[1..] == body;
    assert n >= 0 ==> MoneyText(n) == body;
    assert body[..|body| - 9] == whole && body[|body| - 8..] == places && body[|body| - 9] == '.';
    ValueOfPlaces(a);
  }

  lemma ValueOfPlaces(a: nat)
    ensures var whole, places := Digits(a / SATOSHIS_PER_BTC), FixedDigits(a % SATOSHIS_PER_BTC, 8);
      IsDigits(whole + places) && Value(whole + places) == a
  {
    hide Digits, FixedDigits, Value, IsDigits, Power10;
    EightPlaces();
    ValueOfDigits(a / SATOSHIS_PER_BTC);
    ValueOfFixedDigits(a % SATOSHIS_PER_BTC, 8);
    ValueOfConcat(Digits(a / SATOSHIS_PER_BTC), FixedDigits(a % SATOSHIS_PER_BTC, 8));
  }

  lemma EightPlaces()
    ensures Power10(8) == SATOSHIS_PER_BTC
  {
  }

  // ----- the change of a new transaction -----

  /** The printed change when a fee is taken from an input, both given in bitcoins. */
  function ChangeText(inputValue: real, fee: real): string {
    BtcToString(Satoshi2Btc(Btc2Satoshi(inputValue) - Btc2Satoshi(fee)))
  }

  /** The printed change and the fee add up to the input, to the satoshi. A fee above the input is
      not rejected: it shows up as a minus sign in front of the change. */
  lemma ChangeIsConserved(inputValue: real, fee: real)
    requires -EXACT_MONEY <= Btc2Satoshi(inputValue) - Btc2Satoshi(fee) <= EXACT_MONEY
    ensures ParseMoney(ChangeText(inputValue, fee)) == Satoshis(Btc2Satoshi(inputValue) - Btc2Satoshi(fee))
    ensures ChangeText(inputValue, fee) != ""
    ensures ChangeText(inputValue, fee)[0] == '-' <==> Btc2Satoshi(fee) > Btc2Satoshi(inputValue)
  {
    hide Btc2Satoshi, Satoshi2Btc, ParseMoney, MoneyText, BtcToString;
    var change := Btc2Satoshi(inputValue) - Btc2Satoshi(fee);
    PrintsExactly(change);
    ParseUnderstandsMoneyText(change);
    FirstCharacter(change);
  }

  /** Reading decimal text is one rounding, the same one that the conversion from satoshis makes. */
  lemma ReadingIsConversion(s: int)
    requires -EXACT_MONEY <= s <= EXACT_MONEY
    ensures Round(s as real / SATOSHIS_PER_BTC as real) == Satoshi2Btc(s)
  {
    hide Round;
    RoundInteger(s);
  }

  /** With the input and the fee given as decimal text of at most eight places, the printed change is
      the difference of the two amounts. */
  lemma ChangeOfDecimalAmounts(input: int, fee: int)
    requires 0 <= fee <= EXACT_MONEY && 0 <= input <= EXACT_MONEY
    ensures ChangeText(Round(input as real / SATOSHIS_PER_BTC as real),
      Round(fee as real / SATOSHIS_PER_BTC as real)) == MoneyText(input - fee)
  {
    hide Round, Btc2Satoshi, Satoshi2Btc, MoneyText, BtcToString;
    ReadingIsConversion(input);
    ReadingIsConversion(fee);
    SatoshiRoundTrip(input);
    SatoshiRoundTrip(fee);
    PrintsExactly(input - fee);
  }

  // ----- beyond the range -----

  /** From 2^25 bitcoins on, quotients lie on a grid of 2^-27. */
  lemma RoundedQuotient(s: int) returns (k: int)
    requires EXACT_MONEY < s <= EXACT_MONEY + 19
    ensures Round(s as real / 100_000_000.0) * 134_217_728.0 == k as real
    ensures Abs(s as real * 1.34217728 - k as real) <= 0.5
  {
    hide Round, IsDouble, Scale, Pow2, Largest;
    FineScales();
    Pow2Of53();
    LargestIsLarge();
    var q, u := s as real / 100_000_000.0, Scale(-27);
    var j := (q * 134_217_728.0 + 0.5).Floor;
    TimesReciprocal(j as real, u, 134_217_728.0);
    GridIsDouble(j, -27, j as real * u);
    RoundIsNearest(q, j as real * u);
    RoundIsDouble(q);
    TimesReciprocal(9_007_199_254_740_992.0, Scale(-28), 268_435_456.0);
    k := LargeDoublesOnGrid(Round(q), -27);
    TimesReciprocal(k as real, u, 134_217_728.0);
  }

  /** Products there lie on the grid of halves. */
  lemma RoundedProduct(p: real) returns (h: int)
    requires 2_251_799_813_685_249.0 <= p <= 4_503_599_627_370_495.0
    ensures Round(p) == h as real * 0.5 && Abs(p - Round(p)) <= 0.25
  {
    hide Round, IsDouble, Scale, Pow2, Largest;
    CoarseScales();
    Pow2Of53();
    LargestIsLarge();
    var j := (p * 2.0 + 0.5).Floor;
    GridIsDouble(j, -1, j as real * 0.5);
    RoundIsNearest(p, j as real * 0.5);
    RoundIsDouble(p);
    h := LargeDoublesOnGrid(Round(p), -1);
  }

  /** Of the first nineteen amounts above the range, only the last is moved up by more than a quarter
      of a satoshi. */
  lemma ProductAbove(d: int, j: int)
    requires 1 <= d <= 19 && Abs(d as real * 1.34217728 - j as real) <= 0.5
    ensures d as real - 0.375 <= j as real * 100.0 / 134.217728
    ensures j as real * 100.0 / 134.217728 <= d as real + if d == 19 then 0.375 else 0.24
    ensures d == 19 ==> j as real * 100.0 / 134.217728 >= d as real + 0.37
  {
  }

  lemma HalvesAround(s: int, p: real, h: int)
    requires Abs(p - h as real * 0.5) <= 0.25
    ensures s as real - 0.375 <= p <= s as real + 0.24 ==> h == 2 * s || h == 2 * s - 1
    ensures s as real + 0.37 <= p <= s as real + 0.375 ==> h == 2 * s + 1
  {
  }

  /** The first eighteen amounts above the range survive the trip too, and the next one does not. */
  lemma TripAboveTheRange(s: int)
    requires EXACT_MONEY < s <= EXACT_MONEY + 19
    ensures Satoshi2Btc(s) > 0.0
    ensures Btc2Satoshi(Satoshi2Btc(s)) == if s == EXACT_MONEY + 19 then s + 1 else s
  {
    hide Round, IsDouble;
    RoundInteger(s);
    var k := RoundedQuotient(s);
    ProductAbove(s - EXACT_MONEY, k - 4_503_599_627_370_496);
    var p := Satoshi2Btc(s) * 100_000_000.0;
    assert p == k as real * 100.0 / 134.217728;
    var h := RoundedProduct(p);
    HalvesAround(s, p, h);
    if s == EXACT_MONEY + 19 {
      RoundInteger(s + 1);
    } else {
      HalfAdded(Round(p), s);
    }
  }

  lemma TripIsOdd(s: int)
    requires Satoshi2Btc(s) > 0.0
    ensures Btc2Satoshi(Satoshi2Btc(-s)) == -Btc2Satoshi(Satoshi2Btc(s))
  {
    hide Round;
    var v := Satoshi2Btc(s);
    RoundIsOdd(s as real);
    RoundIsOdd(Round(s as real) / 100_000_000.0);
    RoundIsOdd(v * 100_000_000.0);
    RoundIsOdd(Round(v * 100_000_000.0) + 0.5);
  }

  /** The range of the round trip, exactly: the first amounts that fail are 19 satoshis above 2^25
      bitcoins and the same below zero. */
  lemma RoundTripRange(m: int)
    ensures (forall s | -m <= s <= m :: Btc2Satoshi(Satoshi2Btc(s)) == s) <==> m <= EXACT_MONEY + 18
  {
    hide Btc2Satoshi, Satoshi2Btc;
    if m <= EXACT_MONEY + 18 {
      forall s | -m <= s <= m ensures Btc2Satoshi(Satoshi2Btc(s)) == s {
        if -EXACT_MONEY <= s <= EXACT_MONEY {
          SatoshiRoundTrip(s);
        } else {
          TripAboveTheRange(if s > 0 then s else -s);
          TripIsOdd(if s > 0 then s else -s);
        }
      }
    } else {
      TripAboveTheRange(EXACT_MONEY + 19);
    }
  }

  /** Where the trip first fails it is off by one, away from zero. */
  lemma FailureAboveTheRange()
    ensures Btc2Satoshi(Satoshi2Btc(EXACT_MONEY + 19)) == EXACT_MONEY + 20
    ensures Btc2Satoshi(Satoshi2Btc(-EXACT_MONEY - 19)) == -EXACT_MONEY - 20
  {
    hide Btc2Satoshi, Satoshi2Btc;
    TripAboveTheRange(EXACT_MONEY + 19);
    TripIsOdd(EXACT_MONEY + 19);
  }

  /** From 2^53 on all doubles are even integers. */
  lemma LargeDoublesAreEven(w: real) returns (h: int)
    requires IsDouble(w) && Abs(w) >= Pow2(PRECISION) as real
    ensures w == (2 * h) as real
  {
    hide Scale, Pow2;
    CoarseScales();
    h := LargeDoublesOnGrid(w, 1);
  }

  /** So beyond 2^53 satoshis, either way, no double at all converts to an odd amount. */
  lemma OddAmountsAreUnreachable(v: real, s: int)
    requires (s > Pow2(PRECISION) || -s > Pow2(PRECISION)) && s % 2 == 1
    requires Abs(Round(v * SATOSHIS_PER_BTC as real)) + 0.5 <= Largest()
    ensures Btc2Satoshi(v) != s
  {
    hide Round, Pow2, Largest;
    var y := Round(v * SATOSHIS_PER_BTC as real) + if v < 0.0 then -0.5 else 0.5;
    RoundIsDouble(y);
    if Btc2Satoshi(v) == s {
      var h := LargeDoublesAreEven(Round(y));
    }
  }

  /** Rounding does not pass a power of two. */
  lemma RoundBounded(x: real, e: int)
    requires 0 <= e <= MAX_EXPONENT && Abs(x) <= Scale(e)
    ensures Abs(Round(x)) <= Scale(e)
  {
    hide Round, Scale, Pow2;
    Pow2Of53();
    assert Represents(1, e, Scale(e)) && Represents(-1, e, -Scale(e));
    RoundIsNearest(x, Scale(e));
    RoundIsNearest(x, -Scale(e));
  }

  lemma WideAmountsBelowLargest()
    ensures Scale(63) == Pow2(63) as real && Scale(63) * 100_000_000.0 <= Scale(90) && Scale(90) + 0.5 <= Largest()
  {
    hide Scale, Pow2;
    CoarseScales();
    ScaleSum(0, 63);
    ScaleSum(62, 28);
    ScaleStep(62);
    Pow2Of28();
    ScaleOrder(200_000_000.0, 268_435_456.0, Scale(62));
    ScaleMonotone(0, 90);
    ScaleStep(90);
    ScaleMonotone(91, MAX_EXPONENT);
    Pow2Of53();
    ScaleOrder(1.0, 9_007_199_254_740_991.0, Scale(MAX_EXPONENT));
  }

  /** The trip fails for every odd amount of 64 bits beyond 2^53. */
  lemma OddAmountsFail(s: int)
    requires (s > Pow2(PRECISION) || -s > Pow2(PRECISION)) && s % 2 == 1
    requires s <= Pow2(63) && -s <= Pow2(63)
    ensures Btc2Satoshi(Satoshi2Btc(s)) != s
  {
    hide Round, Scale, Pow2, Largest;
    WideAmountsBelowLargest();
    RoundBounded(s as real, 63);
    RoundBounded(Round(s as real) / 100_000_000.0, 63);
    var v := Satoshi2Btc(s);
    RoundBounded(v * 100_000_000.0, 90);
    OddAmountsAreUnreachable(v, s);
  }
}
