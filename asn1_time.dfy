/** The two alternatives of the certificate Time: UTCTime and GeneralizedTime
    content octets in the forms section 4.1.2.5 of RFC 5280 requires
    (YYMMDDHHMMSSZ and YYYYMMDDHHMMSSZ: Zulu, seconds present, no fractions),
    read as milliseconds since the epoch and written back from them. */
module Asn1Time {
  import opened Wrappers
  import opened Der
  import opened Calendar

  const DigitZero: byte := 0x30
  const LetterZ: byte := 0x5A

  predicate IsDigit(b: byte)
  {
    DigitZero <= b <= DigitZero + 9
  }

  function TwoDigits(n: nat): seq<byte>
    requires n < 100
  {
    [DigitZero + n / 10, DigitZero + n % 10]
  }

  function FourDigits(n: nat): seq<byte>
    requires n < 10000
  {
    TwoDigits(n / 100) + TwoDigits(n % 100)
  }

  function DigitPairValue(hi: byte, lo: byte): (n: nat)
    requires IsDigit(hi) && IsDigit(lo)
    ensures n < 100
  {
    (hi - DigitZero) * 10 + (lo - DigitZero)
  }

  lemma DigitPairInverse(hi: byte, lo: byte)
    requires IsDigit(hi) && IsDigit(lo)
    ensures TwoDigits(DigitPairValue(hi, lo)) == [hi, lo]
  {
  }

  lemma TwoDigitsInverse(n: nat)
    requires n < 100
    ensures IsDigit(TwoDigits(n)[0]) && IsDigit(TwoDigits(n)[1])
    ensures DigitPairValue(TwoDigits(n)[0], TwoDigits(n)[1]) == n
  {
  }

  /** Section 4.1.2.5.1 of RFC 5280: a two-digit year of 50 or more is 19YY,
      below 50 it is 20YY; that is, the one year of 1950 to 2049 that ends
      in those digits. */
  function UtcYear(yy: nat): (y: nat)
    requires yy < 100
    ensures 1950 <= y <= 2049 && y % 100 == yy
  {
    if yy >= 50 then 1900 + yy else 2000 + yy
  }

  predicate AllDigits(c: seq<byte>, n: nat)
    requires n <= |c|
  {
    forall i | 0 <= i < n :: IsDigit(c[i])
  }

  /** The date and time in `c` after `yearDigits` digits of year. */
  function DateTimeAfterYear(year: nat, c: seq<byte>, at: nat): DateTime
    requires at + 10 <= |c| && forall i | at <= i < at + 10 :: IsDigit(c[i])
  {
    DateTime(year,
             DigitPairValue(c[at], c[at + 1]), DigitPairValue(c[at + 2], c[at + 3]),
             DigitPairValue(c[at + 4], c[at + 5]), DigitPairValue(c[at + 6], c[at + 7]),
             DigitPairValue(c[at + 8], c[at + 9]))
  }

  function MonthToSecond(t: DateTime): seq<byte>
    requires t.month < 100 && t.day < 100 && t.hour < 100 && t.minute < 100 && t.second < 100
  {
    TwoDigits(t.month) + TwoDigits(t.day) + TwoDigits(t.hour) + TwoDigits(t.minute) + TwoDigits(t.second)
  }

  lemma MonthToSecondInverse(year: nat, c: seq<byte>, at: nat)
    requires at + 10 <= |c| && forall i | at <= i < at + 10 :: IsDigit(c[i])
    ensures var t := DateTimeAfterYear(year, c, at);
      t.month < 100 && t.day < 100 && t.hour < 100 && t.minute < 100 && t.second < 100 &&
      MonthToSecond(t) == c[at..at + 10]
  {
    var t := DateTimeAfterYear(year, c, at);
    DigitPairInverse(c[at], c[at + 1]);
    DigitPairInverse(c[at + 2], c[at + 3]);
    DigitPairInverse(c[at + 4], c[at + 5]);
    DigitPairInverse(c[at + 6], c[at + 7]);
    DigitPairInverse(c[at + 8], c[at + 9]);
    assert c[at..at + 10] == [c[at], c[at + 1]] + [c[at + 2], c[at + 3]] + [c[at + 4], c[at + 5]]
                             + [c[at + 6], c[at + 7]] + [c[at + 8], c[at + 9]];
  }

  lemma DateTimeAfterYearInverse(t: DateTime, prefix: seq<byte>, suffix: seq<byte>)
    requires ValidDateTime(t)
    ensures var c := prefix + MonthToSecond(t) + suffix;
      (forall i | |prefix| <= i < |prefix| + 10 :: IsDigit(c[i])) &&
      DateTimeAfterYear(t.year, c, |prefix|) == t
  {
    var c := prefix + MonthToSecond(t) + suffix;
    var at := |prefix|;
    TwoDigitsInverse(t.month);
    TwoDigitsInverse(t.day);
    TwoDigitsInverse(t.hour);
    TwoDigitsInverse(t.minute);
    TwoDigitsInverse(t.second);
    assert c[at..at + 10] == MonthToSecond(t);
  }

  // ---------------------------------------------------------------------------
  // UTCTime: YYMMDDHHMMSSZ

  function UtcTimeText(t: DateTime): seq<byte>
    requires ValidDateTime(t)
  {
    TwoDigits(t.year % 100) + MonthToSecond(t) + [LetterZ]
  }

  function ParseUtcTimeText(c: seq<byte>): (r: Option<DateTime>)
    ensures r.Some? ==> ValidDateTime(r.value) && 1950 <= r.value.year <= 2049
    ensures r.Some? ==> UtcTimeText(r.value) == c
  {
    if |c| != 13 || c[12] != LetterZ || !AllDigits(c, 12) then None
    else
      var year := UtcYear(DigitPairValue(c[0], c[1]));
      var t := DateTimeAfterYear(year, c, 2);
      if !ValidDateTime(t) then None
      else
        DigitPairInverse(c[0], c[1]);
        MonthToSecondInverse(year, c, 2);
        assert c == c[..2] + c[2..12] + [c[12]];
        Some(t)
  }

  lemma ParseUtcTimeTextInverse(t: DateTime)
    requires ValidDateTime(t) && 1950 <= t.year <= 2049
    ensures ParseUtcTimeText(UtcTimeText(t)) == Some(t)
  {
    var c := UtcTimeText(t);
    TwoDigitsInverse(t.year % 100);
    DateTimeAfterYearInverse(t, TwoDigits(t.year % 100), [LetterZ]);
    assert UtcYear(DigitPairValue(c[0], c[1])) == t.year;
  }

  /** The content octets of a UTCTime for an instant of 1950 to 2049. */
  function UtcTimeContent(ms: int): seq<byte>
    requires InYears(ms, 1950, 2049)
  {
    ToInstantOfFromInstant(ms, 1950, 2049);
    UtcTimeText(FromInstant(ms))
  }

  function ParseUtcTimeContent(c: seq<byte>): (r: Result<int, DerError>)
    ensures r.Ok? ==> InYears(r.value, 1950, 2049) && UtcTimeContent(r.value) == c
  {
    match ParseUtcTimeText(c)
    case None => Err(BadContent)
    case Some(t) =>
      FromInstantOfToInstant(t);
      InYearsWiden(ToInstant(t), t.year, t.year, 1950, 2049);
      Ok(ToInstant(t))
  }

  lemma ParseUtcTimeContentInverse(ms: int)
    requires InYears(ms, 1950, 2049)
    ensures ParseUtcTimeContent(UtcTimeContent(ms)) == Ok(ms)
  {
    ToInstantOfFromInstant(ms, 1950, 2049);
    ParseUtcTimeTextInverse(FromInstant(ms));
  }

  // ---------------------------------------------------------------------------
  // GeneralizedTime: YYYYMMDDHHMMSSZ

  function GeneralizedTimeText(t: DateTime): seq<byte>
    requires ValidDateTime(t)
  {
    FourDigits(t.year) + MonthToSecond(t) + [LetterZ]
  }

  lemma FourDigitsOfPairs(hi: nat, lo: nat)
    requires hi < 100 && lo < 100
    ensures FourDigits(hi * 100 + lo) == TwoDigits(hi) + TwoDigits(lo)
  {
    var n := hi * 100 + lo;
    assert n / 100 == hi && n % 100 == lo;
  }

  /** The text of t is its three parts back to back. */
  lemma GeneralizedTimeTextParts(c: seq<byte>, t: DateTime)
    requires |c| == 15 && c[14] == LetterZ && ValidDateTime(t)
    requires FourDigits(t.year) == c[..4] && MonthToSecond(t) == c[4..14]
    ensures GeneralizedTimeText(t) == c
  {
    assert c == c[..4] + c[4..14] + [c[14]];
  }

  function ParseGeneralizedTimeText(c: seq<byte>): (r: Option<DateTime>)
    ensures r.Some? ==> ValidDateTime(r.value)
    ensures r.Some? ==> GeneralizedTimeText(r.value) == c
  {
    if |c| != 15 || c[14] != LetterZ || !AllDigits(c, 14) then None
    else
      var century := DigitPairValue(c[0], c[1]);
      var yy := DigitPairValue(c[2], c[3]);
      var year := century * 100 + yy;
      var t := DateTimeAfterYear(year, c, 4);
      if !ValidDateTime(t) then None
      else
        FourDigitsOfPairs(century, yy);
        DigitPairInverse(c[0], c[1]);
        DigitPairInverse(c[2], c[3]);
        MonthToSecondInverse(year, c, 4);
        GeneralizedTimeTextParts(c, t);
        Some(t)
  }

  lemma ParseGeneralizedTimeTextInverse(t: DateTime)
    requires ValidDateTime(t)
    ensures ParseGeneralizedTimeText(GeneralizedTimeText(t)) == Some(t)
  {
    var c := GeneralizedTimeText(t);
    TwoDigitsInverse(t.year / 100);
    TwoDigitsInverse(t.year % 100);
    DateTimeAfterYearInverse(t, FourDigits(t.year), [LetterZ]);
    assert DigitPairValue(c[0], c[1]) * 100 + DigitPairValue(c[2], c[3]) == t.year;
  }

  /** The content octets of a GeneralizedTime for an instant of 0 to 9999. */
  function GeneralizedTimeContent(ms: int): seq<byte>
    requires InYears(ms, 0, 9999)
  {
    ToInstantOfFromInstant(ms, 0, 9999);
    GeneralizedTimeText(FromInstant(ms))
  }

  function ParseGeneralizedTimeContent(c: seq<byte>): (r: Result<int, DerError>)
    ensures r.Ok? ==> InYears(r.value, 0, 9999) && GeneralizedTimeContent(r.value) == c
  {
    match ParseGeneralizedTimeText(c)
    case None => Err(BadContent)
    case Some(t) =>
      FromInstantOfToInstant(t);
      Ok(ToInstant(t))
  }

  lemma ParseGeneralizedTimeContentInverse(ms: int)
    requires InYears(ms, 0, 9999)
    ensures ParseGeneralizedTimeContent(GeneralizedTimeContent(ms)) == Ok(ms)
  {
    ToInstantOfFromInstant(ms, 0, 9999);
    ParseGeneralizedTimeTextInverse(FromInstant(ms));
  }
}
