/**
 * The .NET parsers the loader calls, as Option-returning functions:
 * int.TryParse / long.TryParse / int.Parse (NumberStyles.Integer),
 * DateOnly.ParseExact with "yyyy-MM-dd", TimeOnly.ParseExact with "hh\:mm"
 * (and the 24-hour "HH\:mm", for files that write times on the 24-hour clock), decimal.TryParse
 * and the invariant rendering of a decimal that decimal.TryParse reads back.
 * A parser that would throw returns None; the caller decides whether that aborts.
 */
module Parsing {
  import opened Wrappers
  import opened Text

  predicate IsDigit(c: char) {
    '0' <= c <= '9'
  }

  predicate AllDigits(s: string) {
    forall i :: 0 <= i < |s| ==> IsDigit(s[i])
  }

  function DigitValue(c: char): nat
    requires IsDigit(c)
  {
    c as int - '0' as int
  }

  /** The value of a string of decimal digits, most significant first. */
  function DigitsValue(s: string): nat
    requires AllDigits(s)
  {
    if s == [] then 0 else DigitsValue(s[..|s| - 1]) * 10 + DigitValue(s[|s| - 1])
  }

  function Pow10(w: nat): (r: nat)
    ensures r >= 1
  {
    if w == 0 then 1 else 10 * Pow10(w - 1)
  }

  /** Exactly w digits, with leading zeros: the rendering of a custom format such as "yyyy" or "MM". */
  function FixedDigits(n: nat, w: nat): (r: string)
    ensures |r| == w && AllDigits(r)
  {
    if w == 0 then [] else FixedDigits(n / 10, w - 1) + [DigitChar(n % 10)]
  }

  lemma {:induction false} DigitsValueOfNatToString(n: nat)
    ensures AllDigits(NatToString(n)) && DigitsValue(NatToString(n)) == n
    decreases n
  {
    if n >= 10 {
      DigitsValueOfNatToString(n / 10);
      var s := NatToString(n);
      assert s[..|s| - 1] == NatToString(n / 10);
    }
  }

  lemma {:induction false} DigitsValueOfFixedDigits(n: nat, w: nat)
    requires n < Pow10(w)
    ensures DigitsValue(FixedDigits(n, w)) == n
  {
    if w > 0 {
      DigitsValueOfFixedDigits(n / 10, w - 1);
      var s := FixedDigits(n, w);
      assert s[..|s| - 1] == FixedDigits(n / 10, w - 1);
    }
  }

  lemma {:induction false} FixedDigitsOfDigitsValue(s: string)
    requires AllDigits(s)
    ensures DigitsValue(s) < Pow10(|s|)
    ensures FixedDigits(DigitsValue(s), |s|) == s
  {
    if s != [] {
      var init := s[..|s| - 1];
      FixedDigitsOfDigitsValue(init);
      var v := DigitsValue(s);
      assert v / 10 == DigitsValue(init);
      assert v % 10 == DigitValue(s[|s| - 1]);
      assert s == init + [s[|s| - 1]];
    }
  }

  // ---- int.TryParse / long.TryParse (NumberStyles.Integer, invariant signs) ----

  /** The white space that NumberStyles.AllowLeadingWhite and AllowTrailingWhite accept. */
  predicate IsNumberWhite(c: char) {
    c == ' ' || ('\t' <= c <= '\r')
  }

  function StripNumberWhite(s: string): (r: string)
    ensures |r| <= |s|
    ensures r == [] || (!IsNumberWhite(r[0]) && !IsNumberWhite(r[|r| - 1]))
    decreases |s|
  {
    if s == [] then []
    else if IsNumberWhite(s[0]) then StripNumberWhite(s[1..])
    else if IsNumberWhite(s[|s| - 1]) then StripNumberWhite(s[..|s| - 1])
    else s
  }

  lemma {:induction false} StripNumberWhiteKeeps(s: string)
    requires s == [] || (!IsNumberWhite(s[0]) && !IsNumberWhite(s[|s| - 1]))
    ensures StripNumberWhite(s) == s
  {
  }

  const Int32Min: int := -0x8000_0000
  const Int32Max: int := 0x7FFF_FFFF
  const Int64Min: int := -0x8000_0000_0000_0000
  const Int64Max: int := 0x7FFF_FFFF_FFFF_FFFF

  /** An optional sign followed by one or more digits, with surrounding white space, within [lo, hi]. */
  function ParseInteger(s: string, lo: int, hi: int): (r: Option<int>)
    ensures r.Some? ==> lo <= r.value <= hi
  {
    var t := StripNumberWhite(s);
    if t == [] then None
    else
      var negative := t[0] == '-';
      var body := if t[0] == '-' || t[0] == '+' then t[1..] else t;
      if body == [] || !AllDigits(body) then None
      else
        var magnitude: int := DigitsValue(body);
        var v := if negative then -magnitude else magnitude;
        if lo <= v <= hi then Some(v) else None
  }

  /** int.TryParse. */
  function ParseInt32(s: string): (r: Option<int>)
    ensures r.Some? ==> Int32Min <= r.value <= Int32Max
  {
    ParseInteger(s, Int32Min, Int32Max)
  }

  /** long.TryParse. */
  function ParseInt64(s: string): (r: Option<int>)
    ensures r.Some? ==> Int64Min <= r.value <= Int64Max
  {
    ParseInteger(s, Int64Min, Int64Max)
  }

  /** Every integer in range is read back from its own rendering. */
  lemma ParseIntegerRoundTrip(n: int, lo: int, hi: int)
    requires lo <= n <= hi
    ensures ParseInteger(IntToString(n), lo, hi) == Some(n)
  {
    var s := IntToString(n);
    var m := if n < 0 then -n else n;
    DigitsValueOfNatToString(m);
    var digits := NatToString(m);
    assert !IsNumberWhite(digits[0]) && !IsNumberWhite(digits[|digits| - 1]);
    StripNumberWhiteKeeps(s);
    if n < 0 {
      assert s[1..] == digits;
    }
  }

  /** Input that is empty or white space only is never an integer. */
  lemma ParseIntegerRejectsBlank(s: string, lo: int, hi: int)
    requires IsBlank(s)
    ensures ParseInteger(s, lo, hi) == None
  {
    BlankStripsToEmpty(s);
  }

  lemma {:induction false} BlankStripsToEmpty(s: string)
    requires IsBlank(s)
    ensures StripNumberWhite(s) == [] || IsWhiteSpace(StripNumberWhite(s)[0])
    decreases |s|
  {
    if s != [] {
      if IsNumberWhite(s[0]) {
        BlankStripsToEmpty(s[1..]);
      } else if IsNumberWhite(s[|s| - 1]) {
        BlankStripsToEmpty(s[..|s| - 1]);
      }
    }
  }

  // ---- DateOnly.ParseExact(s, "yyyy-MM-dd") ----

  datatype Date = Date(year: int, month: int, day: int)

  predicate IsLeapYear(y: int) {
    y % 4 == 0 && (y % 100 != 0 || y % 400 == 0)
  }

  function DaysInMonth(y: int, m: int): int {
    if m == 2 then (if IsLeapYear(y) then 29 else 28)
    else if m == 4 || m == 6 || m == 9 || m == 11 then 30
    else 31
  }

  /** A calendar date DateOnly can hold. */
  predicate ValidDate(d: Date) {
    1 <= d.year <= 9999 && 1 <= d.month <= 12 && 1 <= d.day <= DaysInMonth(d.year, d.month)
  }

  /** The rendering of a date in the "yyyy-MM-dd" format. */
  function FormatDate(d: Date): string
    requires ValidDate(d)
  {
    FixedDigits(d.year, 4) + "-" + FixedDigits(d.month, 2) + "-" + FixedDigits(d.day, 2)
  }

  /** The fixed shape of "yyyy-MM-dd": four digits, '-', two digits, '-', two digits. */
  predicate DateShape(s: string) {
    |s| == 10 && s[4] == '-' && s[7] == '-' && AllDigits(s[..4]) && AllDigits(s[5..7]) && AllDigits(s[8..])
  }

  /** DateOnly.ParseExact with "yyyy-MM-dd": exactly four, two and two digits, no white space. */
  function ParseDate(s: string): (r: Option<Date>)
    ensures r.Some? ==> ValidDate(r.value)
  {
    if !DateShape(s) then None
    else
      var d := Date(DigitsValue(s[..4]), DigitsValue(s[5..7]), DigitsValue(s[8..]));
      if ValidDate(d) then Some(d) else None
  }

  /** Every valid date is read back from its rendering. */
  lemma ParseDateRoundTrip(d: Date)
    requires ValidDate(d)
    ensures ParseDate(FormatDate(d)) == Some(d)
  {
    var s := FormatDate(d);
    var y, m, dd := FixedDigits(d.year, 4), FixedDigits(d.month, 2), FixedDigits(d.day, 2);
    assert s == y + "-" + m + "-" + dd;
    assert s[..4] == y;
    assert s[5..7] == m;
    assert s[8..] == dd;
    assert DateShape(s);
    DigitsValueOfFixedDigits(d.year, 4);
    DigitsValueOfFixedDigits(d.month, 2);
    DigitsValueOfFixedDigits(d.day, 2);
  }

  /** The format is exact: a string is accepted only if it is the rendering of the date it yields. */
  lemma ParseDateExact(s: string)
    requires ParseDate(s).Some?
    ensures FormatDate(ParseDate(s).value) == s
  {
    FixedDigitsOfDigitsValue(s[..4]);
    FixedDigitsOfDigitsValue(s[5..7]);
    FixedDigitsOfDigitsValue(s[8..]);
    assert s == s[..4] + "-" + s[5..7] + "-" + s[8..];
  }

  // ---- TimeOnly.ParseExact(s, "hh\:mm") and the intended "HH\:mm" ----

  datatype Time = Time(hour: int, minute: int)

  predicate ValidTime(t: Time) {
    0 <= t.hour < 24 && 0 <= t.minute < 60
  }

  /** The rendering of a time of day as two-digit hour, ':' and two-digit minute. */
  function FormatTime(t: Time): string
    requires ValidTime(t)
  {
    FixedDigits(t.hour, 2) + ":" + FixedDigits(t.minute, 2)
  }

  /** Shape shared by both time formats: two digits, ':', two digits. */
  predicate TimeShape(s: string) {
    |s| == 5 && s[2] == ':' && AllDigits(s[..2]) && AllDigits(s[3..])
  }

  /**
   * TimeOnly.ParseExact with "hh\:mm", as the loader calls it. "hh" is the 12-hour-clock hour:
   * with no AM/PM designator the time is taken as AM, so hours above 12 are rejected and 12 means 0.
   */
  function ParseTimeHh(s: string): (r: Option<Time>)
    ensures r.Some? ==> ValidTime(r.value) && r.value.hour < 12
  {
    if !TimeShape(s) then None
    else
      var h := DigitsValue(s[..2]);
      var m := DigitsValue(s[3..]);
      if h > 12 || m > 59 then None
      else Some(Time(if h == 12 then 0 else h, m))
  }

  /** TimeOnly.ParseExact with "HH\:mm": the hour on the 24-hour clock. */
  function ParseTimeHH(s: string): (r: Option<Time>)
    ensures r.Some? ==> ValidTime(r.value)
  {
    if !TimeShape(s) then None
    else
      var h := DigitsValue(s[..2]);
      var m := DigitsValue(s[3..]);
      if h > 23 || m > 59 then None else Some(Time(h, m))
  }

  lemma FormatTimeFields(t: Time)
    requires ValidTime(t)
    ensures TimeShape(FormatTime(t))
    ensures DigitsValue(FormatTime(t)[..2]) == t.hour && DigitsValue(FormatTime(t)[3..]) == t.minute
  {
    var s := FormatTime(t);
    assert s[..2] == FixedDigits(t.hour, 2);
    assert s[3..] == FixedDigits(t.minute, 2);
    DigitsValueOfFixedDigits(t.hour, 2);
    DigitsValueOfFixedDigits(t.minute, 2);
  }

  /** The 24-hour format reads back every time of day. */
  lemma ParseTimeHHRoundTrip(t: Time)
    requires ValidTime(t)
    ensures ParseTimeHH(FormatTime(t)) == Some(t)
  {
    FormatTimeFields(t);
  }

  /** The 12-hour format rejects every afternoon time written in 24-hour form. */
  lemma ParseTimeHhRejectsAfternoon(t: Time)
    requires ValidTime(t) && t.hour > 12
    ensures ParseTimeHh(FormatTime(t)) == None
  {
    FormatTimeFields(t);
  }

  /** The 12-hour format reads the hour 12 as midnight. */
  lemma ParseTimeHhNoonIsMidnight(minute: int)
    requires 0 <= minute < 60
    ensures ParseTimeHh(FormatTime(Time(12, minute))) == Some(Time(0, minute))
  {
    FormatTimeFields(Time(12, minute));
  }

  /** Concretely: a 13:45 collection time does not parse. */
  lemma ParseTimeHhCounterexample()
    ensures ParseTimeHh("13:45") == None && ParseTimeHH("13:45") == Some(Time(13, 45))
  {
    FormatTimeFields(Time(13, 45));
    assert FormatTime(Time(13, 45)) == "13:45";
  }

  // ---- decimal.TryParse(s, NumberStyles.Any, InvariantCulture), the part the data uses ----

  /** A decimal number: units scaled by 10 to the minus scale. */
  datatype Decimal = Decimal(units: int, scale: nat)

  /** Optional sign, digits with at most one '.', at least one digit, surrounding white space. */
  function ParseDecimal(s: string): (r: Option<Decimal>)
  {
    SignedDecimal(StripNumberWhite(s))
  }

  /** A decimal after the white space is stripped: an optional '-' or '+', then the digits. */
  function SignedDecimal(t: string): (r: Option<Decimal>)
  {
    if t == [] then None
    else
      var negative := t[0] == '-';
      var body := if t[0] == '-' || t[0] == '+' then t[1..] else t;
      match DecimalDigits(body)
      case None => None
      case Some(Decimal(magnitude, scale)) => Some(Decimal(if negative then -magnitude else magnitude, scale))
  }

  /** The unsigned part of a decimal: digits, optionally split by one '.', at least one digit in all. */
  function DecimalDigits(body: string): (r: Option<Decimal>)
    ensures r.Some? ==> r.value.units >= 0
  {
    var point := IndexOf(body, '.');
    var whole := if point.Some? then body[..point.value] else body;
    var fraction := if point.Some? then body[point.value + 1..] else [];
    if |whole| + |fraction| == 0 || !AllDigits(whole) || !AllDigits(fraction) then None
    else Some(Decimal(DigitsValue(whole + fraction), |fraction|))
  }

  /** The first position of c in s. */
  function IndexOf(s: string, c: char): (r: Option<nat>)
    ensures r.Some? <==> c in s
    ensures r.Some? ==> r.value < |s| && s[r.value] == c && c !in s[..r.value]
  {
    if s == [] then None
    else if s[0] == c then Some(0)
    else match IndexOf(s[1..], c)
      case None => None
      case Some(i) => assert s[..i + 1] == [s[0]] + s[1..][..i]; Some(i + 1)
  }

  /**
   * The loader's ParseNullableDecimal: empty or white-space input gives no value,
   * a number gives its value, and anything else gives no value; it never fails.
   */
  function ParseNullableDecimal(field: string): (r: Option<Decimal>)
    ensures IsBlank(field) ==> r == None
    ensures !IsBlank(field) ==> r == ParseDecimal(field)
  {
    if IsBlank(field) then None else ParseDecimal(field)
  }

  /** A non-empty run of digits without a point is a whole number: its value at scale zero. */
  lemma DecimalDigitsOfWhole(digits: string)
    requires |digits| > 0 && AllDigits(digits)
    ensures DecimalDigits(digits) == Some(Decimal(DigitsValue(digits), 0))
  {
    assert '.' !in digits;
    assert digits + [] == digits;
  }

  /** Digits parse as the whole number they spell. */
  lemma ParseDecimalOfDigits(digits: string)
    requires |digits| > 0 && AllDigits(digits)
    ensures ParseDecimal(digits) == Some(Decimal(DigitsValue(digits), 0))
  {
    assert IsDigit(digits[0]) && IsDigit(digits[|digits| - 1]);
    StripNumberWhiteKeeps(digits);
    DecimalDigitsOfWhole(digits);
  }

  /** A '-' followed by digits parses as the negated whole number. */
  lemma ParseDecimalOfNegatedDigits(s: string)
    requires |s| > 1 && s[0] == '-' && AllDigits(s[1..])
    ensures ParseDecimal(s) == Some(Decimal(-(DigitsValue(s[1..]) as int), 0))
  {
    assert IsDigit(s[1..][|s| - 2]);
    StripNumberWhiteKeeps(s);
    DecimalDigitsOfWhole(s[1..]);
    SignedDecimalNegative(s);
  }

  /** A leading '-' negates the value of the digits after it. */
  lemma SignedDecimalNegative(t: string)
    requires |t| > 0 && t[0] == '-' && DecimalDigits(t[1..]).Some?
    ensures var d := DecimalDigits(t[1..]).value; SignedDecimal(t) == Some(Decimal(-d.units, d.scale))
  {
  }

  /** An integer written out parses back as that integer at scale zero. */
  lemma ParseDecimalOfInteger(n: int)
    ensures ParseDecimal(IntToString(n)) == Some(Decimal(n, 0))
  {
    var m := if n < 0 then -n else n;
    DigitsValueOfNatToString(m);
    if n < 0 {
      var s := IntToString(n);
      assert s[1..] == NatToString(m);
      ParseDecimalOfNegatedDigits(s);
    } else {
      ParseDecimalOfDigits(NatToString(m));
    }
  }

  /** An integer written out reads back as that decimal with scale zero (RefRangeLow "70" gives 70). */
  lemma ParseNullableDecimalOfInteger(n: int)
    ensures ParseNullableDecimal(IntToString(n)) == Some(Decimal(n, 0))
  {
    var s := IntToString(n);
    var digits := NatToString(if n < 0 then -n else n);
    assert s[|s| - 1] == digits[|digits| - 1];
    assert !IsWhiteSpace(s[|s| - 1]);
    ParseDecimalOfInteger(n);
  }

  // ---- decimal.ToString(CultureInfo.InvariantCulture): the partner of ParseDecimal ----

  /**
   * The invariant rendering of a decimal: a '-' when it is negative, the whole part, and for a
   * positive scale a '.' followed by exactly scale digits (trailing zeros kept, as .NET keeps them).
   */
  function FormatDecimal(d: Decimal): (r: string)
  {
    (if d.units < 0 then "-" else "") + DecimalBody(if d.units < 0 then -d.units else d.units, d.scale)
  }

  /** The digits of m with the point placed scale digits from the right, zero-padded. */
  function DecimalBody(m: nat, scale: nat): (r: string)
    ensures |r| > 0 && IsDigit(r[0]) && IsDigit(r[|r| - 1])
  {
    if scale == 0 then NatToString(m)
    else
      var whole := NatToString(DropDigits(m, scale));
      var fraction := FixedDigits(m, scale);
      assert IsDigit(whole[0]) && IsDigit(fraction[scale - 1]);
      whole + "." + fraction
  }

  /** m without its last k decimal digits: m divided by 10 to the k, rounded down. */
  function DropDigits(m: nat, k: nat): nat {
    if k == 0 then m else DropDigits(m / 10, k - 1)
  }

  /** The dropped digits and the last k digits together make m again. */
  lemma {:induction false} DropDigitsFixedDigits(m: nat, k: nat)
    ensures DropDigits(m, k) * Pow10(k) + DigitsValue(FixedDigits(m, k)) == m
  {
    if k > 0 {
      DropDigitsFixedDigits(m / 10, k - 1);
      var d, v := DropDigits(m / 10, k - 1), DigitsValue(FixedDigits(m / 10, k - 1));
      var f := FixedDigits(m, k);
      assert f[..|f| - 1] == FixedDigits(m / 10, k - 1);
      assert DigitsValue(f) == v * 10 + m % 10;
      assert DropDigits(m, k) == d && Pow10(k) == 10 * Pow10(k - 1);
      ShiftOneDigit(d, Pow10(k - 1), v, m % 10);
    }
  }

  /** Appending one digit to x * p + y multiplies both parts by ten. */
  lemma ShiftOneDigit(x: int, p: int, y: int, c: int)
    ensures (x * p + y) * 10 + c == x * (10 * p) + (y * 10 + c)
  {
  }

  /** The value of digits followed by more digits: the first part shifted left by the second's length. */
  lemma {:induction false} DigitsValueAppend(a: string, b: string)
    requires AllDigits(a) && AllDigits(b)
    ensures AllDigits(a + b)
    ensures DigitsValue(a + b) == DigitsValue(a) * Pow10(|b|) + DigitsValue(b)
  {
    if b == [] {
      assert a + b == a;
    } else {
      var init, last := b[..|b| - 1], b[|b| - 1];
      DigitsValueAppend(a, init);
      var ab := a + b;
      assert AllDigits(ab) by {
        forall i | 0 <= i < |ab|
          ensures IsDigit(ab[i])
        {
          if i >= |a| {
            assert ab[i] == b[i - |a|];
          }
        }
      }
      assert ab[..|ab| - 1] == a + init;
      assert ab[|ab| - 1] == last;
      var va, vi := DigitsValue(a), DigitsValue(init);
      assert DigitsValue(ab) == DigitsValue(a + init) * 10 + DigitValue(last);
      assert DigitsValue(b) == vi * 10 + DigitValue(last);
      assert Pow10(|b|) == 10 * Pow10(|init|);
      ShiftOneDigit(va, Pow10(|init|), vi, DigitValue(last));
    }
  }

  /** Whole digits, a point and fraction digits read back as the digits' value at the fraction's length. */
  lemma DecimalDigitsSplit(whole: string, fraction: string)
    requires AllDigits(whole) && AllDigits(fraction) && |whole| > 0
    ensures DecimalDigits(whole + "." + fraction) == Some(Decimal(DigitsValue(whole + fraction), |fraction|))
  {
    var k := |whole|;
    var body := whole + "." + fraction;
    assert body[k] == '.';
    var point := IndexOf(body, '.');
    assert point.Some? && point.value == k;
    assert body[..point.value] == whole;
    assert body[point.value + 1..] == fraction;
  }

  /** The unsigned rendering reads back as the magnitude at its scale. */
  lemma DecimalDigitsOfBody(m: nat, scale: nat)
    ensures DecimalDigits(DecimalBody(m, scale)) == Some(Decimal(m, scale))
  {
    if scale == 0 {
      DigitsValueOfNatToString(m);
      DecimalDigitsOfWhole(NatToString(m));
      assert DecimalBody(m, scale) == NatToString(m);
    } else {
      var whole := NatToString(DropDigits(m, scale));
      var fraction := FixedDigits(m, scale);
      DigitsValueOfNatToString(DropDigits(m, scale));
      DecimalDigitsSplit(whole, fraction);
      DigitsValueAppend(whole, fraction);
      DropDigitsFixedDigits(m, scale);
      assert DigitsValue(whole + fraction) == m;
      assert DecimalBody(m, scale) == whole + "." + fraction;
    }
  }

  /** A sign-less body of digits, with or without a leading '-', parses as the body's value, negated after a '-'. */
  lemma ParseSignedBody(s: string, body: string, negative: bool, v: Decimal)
    requires |body| > 0 && IsDigit(body[0]) && IsDigit(body[|body| - 1]) && DecimalDigits(body) == Some(v)
    requires s == (if negative then "-" else "") + body
    ensures ParseDecimal(s) == Some(if negative then Decimal(-v.units, v.scale) else v)
  {
    StripNumberWhiteKeeps(s);
    if negative {
      assert s[1..] == body;
      SignedDecimalNegative(s);
    } else {
      assert s == body && s[0] != '-' && s[0] != '+';
      assert StripNumberWhite(s) == s;
      assert SignedDecimal(s) == DecimalDigits(body);
    }
  }

  /** Every decimal, rendered, parses back to itself: units and scale alike. */
  lemma ParseDecimalRoundTrip(d: Decimal)
    ensures ParseDecimal(FormatDecimal(d)) == Some(d)
  {
    var m: nat := if d.units < 0 then -d.units else d.units;
    var body := DecimalBody(m, d.scale);
    DecimalDigitsOfBody(m, d.scale);
    ParseSignedBody(FormatDecimal(d), body, d.units < 0, Decimal(m, d.scale));
  }

  /** The loader's ParseNullableDecimal reads every rendered decimal back, e.g. "3.5" as 35 at scale 1. */
  lemma ParseNullableDecimalRoundTrip(d: Decimal)
    ensures ParseNullableDecimal(FormatDecimal(d)) == Some(d)
  {
    var s := FormatDecimal(d);
    assert IsDigit(s[|s| - 1]) && !IsWhiteSpace(s[|s| - 1]);
    ParseDecimalRoundTrip(d);
  }
}
