/** Characters, decimal numbers and leading blanks. */
module Text {

  predicate IsDigit(c: char) {
    '0' <= c <= '9'
  }

  predicate IsDigits(s: string) {
    forall i | 0 <= i < |s| :: IsDigit(s[i])
  }

  function DigitChar(d: nat): (c: char)
    requires d < 10
    ensures IsDigit(c) && c == "0123456789"[d]
  {
    '0' + d as char
  }

  /** The decimal digits of n without leading zeros. */
  function Digits(n: nat): (s: string)
    ensures s != "" && IsDigits(s)
  {
    if n < 10 then [DigitChar(n)] else Digits(n / 10) + [DigitChar(n % 10)]
  }

  function DigitValue(c: char): (d: nat)
    requires IsDigit(c)
    ensures d < 10 && "0123456789"[d] == c
  {
    (c - '0') as nat
  }

  /** The decimal digit of n that k others follow. */
  function Place(n: nat, k: nat): (d: nat)
    ensures d < 10
  {
    if k == 0 then n % 10 else Place(n / 10, k - 1)
  }

  /** Read from the right, the characters are the decimal places of the number. */
  ghost predicate ShowsPlaces(s: string, n: nat) {
    forall k | 0 <= k < |s| :: s[|s| - 1 - k] == "0123456789"[Place(n, k)]
  }

  lemma OneMorePlace(s: string, n: nat)
    requires ShowsPlaces(s, n / 10)
    ensures ShowsPlaces(s + [DigitChar(n % 10)], n)
  {
    var t := s + [DigitChar(n % 10)];
    forall k | 0 <= k < |t| ensures t[|t| - 1 - k] == "0123456789"[Place(n, k)] {
      if k > 0 {
        assert t[|t| - 1 - k] == s[|s| - 1 - (k - 1)];
      }
    }
  }

  /** A number is written with all its decimal places, and the first one is not zero unless it is the
      only one. */
  lemma {:induction false} DigitsShowPlaces(n: nat)
    ensures ShowsPlaces(Digits(n), n)
    ensures |Digits(n)| > 1 ==> Digits(n)[0] != '0'
    decreases n
  {
    if n >= 10 {
      DigitsShowPlaces(n / 10);
      OneMorePlace(Digits(n / 10), n);
    }
  }

  function Value(s: string): nat
    requires IsDigits(s)
  {
    if s == "" then 0 else 10 * Value(s[..|s| - 1]) + DigitValue(s[|s| - 1])
  }

  lemma {:induction false} ValueOfDigits(n: nat)
    ensures Value(Digits(n)) == n
  {
    if n >= 10 {
      ValueOfDigits(n / 10);
      assert Digits(n)[..|Digits(n)| - 1] == Digits(n / 10);
    } else {
      assert Digits(n)[..0] == "";
    }
  }

  lemma TenthAndRest(v: nat, d: nat)
    requires d < 10
    ensures (10 * v + d) / 10 == v && (10 * v + d) % 10 == d
  {
  }

  /** A text of digits is the number whose decimal places it shows. */
  lemma {:induction false} ValueShowsPlaces(s: string)
    requires IsDigits(s)
    ensures ShowsPlaces(s, Value(s))
  {
    if s != "" {
      hide ShowsPlaces;
      var front, last := s[..|s| - 1], s[|s| - 1];
      ValueShowsPlaces(front);
      TenthAndRest(Value(front), DigitValue(last));
      assert DigitChar(DigitValue(last)) == last;
      OneMorePlace(front, Value(s));
      assert s == front + [last];
    }
  }

  function TrimStart(s: string): string {
    if s != "" && s[0] == ' ' then TrimStart(s[1..]) else s
  }
}
