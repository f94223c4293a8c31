/**
 * The string key under which a day's events are stored:
 * `${date.getFullYear()}-${date.getMonth()}-${date.getDate()}`, i.e. the year,
 * the zero-based month index and the day of the month in decimal, joined by
 * dashes. A parser for the same format shows that the key loses nothing.
 */
module DateKey {
  import opened Dates

  datatype Option<T> = None | Some(value: T)

  predicate IsDigit(c: char) {
    '0' <= c <= '9'
  }

  predicate AllDigits(s: string) {
    forall k :: 0 <= k < |s| ==> IsDigit(s[k])
  }

  function DigitChar(n: nat): (c: char)
    requires n < 10
    ensures IsDigit(c)
  {
    ['0', '1', '2', '3', '4', '5', '6', '7', '8', '9'][n]
  }

  function DigitValue(c: char): (n: nat)
    requires IsDigit(c)
    ensures n < 10
  {
    (c as int - '0' as int) as nat
  }

  /** Decimal notation of a natural number, without leading zeros, as JavaScript prints it. */
  function NatToDecimal(n: nat): (s: string)
    ensures |s| > 0 && AllDigits(s)
  {
    if n < 10 then [DigitChar(n)] else NatToDecimal(n / 10) + [DigitChar(n % 10)]
  }

  /** Decimal notation of an integer: a minus sign before negative numbers. */
  function IntToDecimal(i: int): (s: string)
  {
    if i < 0 then "-" + NatToDecimal(-i) else NatToDecimal(i)
  }

  /** The events key of a date. */
  function FormatDateKey(d: Date): string
  {
    IntToDecimal(d.year) + "-" + IntToDecimal(d.month0) + "-" + IntToDecimal(d.day)
  }

  /** Value of a string of decimal digits. */
  function ParseNat(s: string): nat
    requires AllDigits(s)
  {
    if |s| == 0 then 0 else 10 * ParseNat(s[..|s| - 1]) + DigitValue(s[|s| - 1])
  }

  /** Index of the first dash of `s`, or |s| when there is none. */
  function FirstDash(s: string): (i: nat)
    ensures i <= |s|
    ensures forall k :: 0 <= k < i ==> s[k] != '-'
    ensures i < |s| ==> s[i] == '-'
  {
    if |s| == 0 then 0 else if s[0] == '-' then 0 else 1 + FirstDash(s[1..])
  }

  /** Reads a non-empty run of digits up to the next dash, returning its value and what follows the dash. */
  function ParseField(s: string): Option<(nat, string)>
  {
    var i := FirstDash(s);
    if 0 < i < |s| && AllDigits(s[..i]) then Some((ParseNat(s[..i]), s[i + 1..])) else None
  }

  /** Reads "y-m-d" with three unsigned decimal fields. */
  function ParseFields(s: string): Option<(nat, nat, nat)>
  {
    match ParseField(s)
    case None => None
    case Some((y, afterYear)) =>
      match ParseField(afterYear)
      case None => None
      case Some((m, dayText)) =>
        if |dayText| > 0 && AllDigits(dayText) then Some((y, m, ParseNat(dayText))) else None
  }

  /** Reads a key back into the date it was formatted from; a leading dash is the year's sign. */
  function ParseDateKey(s: string): Option<Date>
  {
    var negative := |s| > 0 && s[0] == '-';
    match ParseFields(if negative then s[1..] else s)
    case None => None
    case Some((y, m, d)) => Some(Date(if negative then -(y as int) else y, m, d))
  }

  // ---------------------------------------------------------------------------
  // Round trip

  lemma {:induction false} ParseNatToDecimal(n: nat)
    ensures ParseNat(NatToDecimal(n)) == n
  {
    if n >= 10 {
      var s := NatToDecimal(n / 10) + [DigitChar(n % 10)];
      assert s[..|s| - 1] == NatToDecimal(n / 10);
      ParseNatToDecimal(n / 10);
    }
  }

  lemma ParseFieldOf(digits: string, rest: string)
    requires |digits| > 0 && AllDigits(digits)
    ensures ParseField(digits + "-" + rest) == Some((ParseNat(digits), rest))
  {
    var s := digits + "-" + rest;
    assert s[|digits|] == '-';
    assert FirstDash(s) == |digits|;
    assert s[..|digits|] == digits;
    assert s[|digits| + 1..] == rest;
  }

  lemma ParseFieldsOf(y: nat, m: nat, d: nat)
    ensures ParseFields(NatToDecimal(y) + "-" + NatToDecimal(m) + "-" + NatToDecimal(d)) == Some((y, m, d))
  {
    var tail := NatToDecimal(m) + "-" + NatToDecimal(d);
    ParseNatToDecimal(y);
    ParseNatToDecimal(m);
    ParseNatToDecimal(d);
    ParseFieldOf(NatToDecimal(m), NatToDecimal(d));
    ParseFieldOf(NatToDecimal(y), tail);
    assert NatToDecimal(y) + "-" + NatToDecimal(m) + "-" + NatToDecimal(d) == NatToDecimal(y) + "-" + tail;
  }

  /** A leading digit means a non-negative year: the fields are read as they stand. */
  lemma ParseUnsignedKey(k: string, y: nat, m: nat, d: nat)
    requires |k| > 0 && IsDigit(k[0])
    requires ParseFields(k) == Some((y, m, d))
    ensures ParseDateKey(k) == Some(Date(y, m, d))
  {
  }

  /** A leading dash is the year's minus sign. */
  lemma ParseSignedKey(k: string, unsigned: string, y: nat, m: nat, d: nat)
    requires k == "-" + unsigned
    requires ParseFields(unsigned) == Some((y, m, d))
    ensures ParseDateKey(k) == Some(Date(-(y as int), m, d))
  {
    assert k[1..] == unsigned;
  }

  /** A minus sign before the first of three dash-separated fields is read as the sign of the year. */
  lemma ParseSignedFields(a: string, b: string, c: string, y: nat, m: nat, d: nat)
    requires ParseFields(a + "-" + b + "-" + c) == Some((y, m, d))
    ensures ParseDateKey(("-" + a) + "-" + b + "-" + c) == Some(Date(-(y as int), m, d))
  {
    assert ("-" + a) + "-" + b + "-" + c == "-" + (a + "-" + b + "-" + c);
    ParseSignedKey(("-" + a) + "-" + b + "-" + c, a + "-" + b + "-" + c, y, m, d);
  }

  /** The key of a date with a non-negative year is its three unsigned fields. */
  lemma KeyOfNonNegativeYear(d: Date)
    requires d.year >= 0 && d.month0 >= 0 && d.day >= 0
    ensures ParseDateKey(FormatDateKey(d)) == Some(d)
  {
    var k := NatToDecimal(d.year) + "-" + NatToDecimal(d.month0) + "-" + NatToDecimal(d.day);
    assert FormatDateKey(d) == k;
    ParseFieldsOf(d.year, d.month0, d.day);
    assert k[0] == NatToDecimal(d.year)[0];
    ParseUnsignedKey(k, d.year, d.month0, d.day);
  }

  /** The key of a date with a negative year is a dash before its three unsigned fields. */
  lemma KeyOfNegativeYear(magnitude: nat, m: nat, n: nat)
    requires magnitude > 0
    ensures ParseDateKey(FormatDateKey(Date(-(magnitude as int), m, n))) == Some(Date(-(magnitude as int), m, n))
  {
    var a, b, c := NatToDecimal(magnitude), NatToDecimal(m), NatToDecimal(n);
    assert FormatDateKey(Date(-(magnitude as int), m, n)) == ("-" + a) + "-" + b + "-" + c;
    ParseFieldsOf(magnitude, m, n);
    ParseSignedFields(a, b, c, magnitude, m, n);
  }

  /** Parsing a formatted key gives back the date, for any year and a non-negative month and day. */
  lemma FormatParseRoundTrip(d: Date)
    requires d.month0 >= 0 && d.day >= 0
    ensures ParseDateKey(FormatDateKey(d)) == Some(d)
  {
    if d.year < 0 {
      KeyOfNegativeYear(-d.year, d.month0, d.day);
    } else {
      KeyOfNonNegativeYear(d);
    }
  }

  /** Distinct valid dates have distinct keys. */
  lemma FormatDateKeyInjective(a: Date, b: Date)
    requires Valid(a) && Valid(b)
    requires FormatDateKey(a) == FormatDateKey(b)
    ensures a == b
  {
    FormatParseRoundTrip(a);
    FormatParseRoundTrip(b);
  }
}
