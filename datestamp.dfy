/** The date stamp `YYYY-MM-DD` that Go's `time.Format(time.DateOnly)` writes
    for a UTC calendar date. Go writes each field with `appendInt(b, x, w)`:
    a `-` for a negative value, then the decimal digits of its magnitude,
    zero-padded on the left to at least `w` digits (4 for the year, 2 for the
    month and the day). */
module DateStamp {

  import opened Wrappers

  /** A calendar date as Go's `time.Time.Date` reports it. */
  datatype Date = Date(year: int, month: int, day: int)

  predicate IsLeapYear(y: int) {
    y % 4 == 0 && (y % 100 != 0 || y % 400 == 0)
  }

  /** The number of days in a month of the proleptic Gregorian calendar. */
  function DaysIn(year: int, month: int): (n: int)
    requires 1 <= month <= 12
    ensures 28 <= n <= 31
  {
    if month == 2 then (if IsLeapYear(year) then 29 else 28)
    else if month == 4 || month == 6 || month == 9 || month == 11 then 30
    else 31
  }

  /** A date that the clock can report. */
  predicate ValidDate(d: Date) {
    1 <= d.month <= 12 && 1 <= d.day <= DaysIn(d.year, d.month)
  }

  /** The date after `d`. */
  function NextDay(d: Date): (e: Date)
    requires ValidDate(d)
    ensures ValidDate(e)
    ensures e != d
    ensures e.year == d.year || (e.year == d.year + 1 && e.month == 1 && e.day == 1)
  {
    if d.day < DaysIn(d.year, d.month) then Date(d.year, d.month, d.day + 1)
    else if d.month < 12 then Date(d.year, d.month + 1, 1)
    else Date(d.year + 1, 1, 1)
  }

  predicate IsDecimal(c: char) {
    '0' <= c <= '9'
  }

  function DigitChar(n: int): (c: char)
    requires 0 <= n < 10
    ensures IsDecimal(c)
  {
    ('0' as int + n) as char
  }

  /** The decimal digits of `n`, most significant first, without leading zeros. */
  function Decimal(n: nat): (s: string)
    ensures |s| >= 1
    ensures forall i :: 0 <= i < |s| ==> IsDecimal(s[i])
  {
    if n < 10 then [DigitChar(n)] else Decimal(n / 10) + [DigitChar(n % 10)]
  }

  /** The value of a string of decimal digits. */
  function ValueOf(s: string): (n: nat)
    requires forall i :: 0 <= i < |s| ==> IsDecimal(s[i])
  {
    if s == [] then 0
    else
      assert IsDecimal(s[|s| - 1]);
      ValueOf(s[..|s| - 1]) * 10 + (s[|s| - 1] as int - '0' as int)
  }

  function Zeros(k: nat): (s: string)
    ensures |s| == k && forall i :: 0 <= i < k ==> s[i] == '0'
  {
    seq(k, _ => '0')
  }

  predicate AllDecimal(s: string) {
    forall i :: 0 <= i < |s| ==> IsDecimal(s[i])
  }

  /** The digits of `n` zero-padded on the left to at least `width`: they
      read back as `n`, a value below `10^width` takes exactly `width`
      characters, and a longer result has no leading zero (it is `"0"` or
      starts with a non-zero digit). Together these leave one string. */
  function Padded(n: nat, width: nat): (s: string)
    ensures |s| >= width && |s| >= 1
    ensures AllDecimal(s) && ValueOf(s) == n
    ensures |s| > width ==> s[0] != '0' || s == "0"
    ensures n < Pow10(width) && width >= 1 ==> |s| == width
    ensures n >= Pow10(width) ==> |s| > width
  {
    var digits := Decimal(n);
    DigitsFacts(n, width);
    if |digits| < width then
      var padded := Zeros(width - |digits|) + digits;
      ZerosValue(width - |digits|, digits);
      assert AllDecimal(padded);
      padded
    else digits
  }

  /** What `Padded` needs about the digits of `n` against a width. */
  lemma DigitsFacts(n: nat, width: nat)
    ensures ValueOf(Decimal(n)) == n
    ensures n < Pow10(width) && width >= 1 ==> |Decimal(n)| <= width
    ensures |Decimal(n)| <= width ==> n < Pow10(width)
    ensures n >= 1 ==> Decimal(n)[0] != '0'
    ensures n == 0 ==> Decimal(n) == "0"
  {
    DecimalValue(n);
    if n < Pow10(width) && width >= 1 { DecimalLength(n, width); }
    if |Decimal(n)| <= width { DecimalBelow(n, width); }
    if n >= 1 { DecimalLeading(n); }
  }

  /** Go's `appendInt(b, x, width)`: a `-` for a negative value, then the
      magnitude zero-padded to `width`, with no leading zero beyond the
      padding. */
  function FormatInt(x: int, width: nat): (s: string)
    ensures |s| >= width
    ensures StampChars(s)
    ensures x >= 0 ==> AllDecimal(s) && ValueOf(s) == x
    ensures x >= 0 ==> |s| >= 1 && (|s| > width ==> s[0] != '0' || s == "0")
    ensures x < 0 ==> |s| >= 2 && s[0] == '-' && AllDecimal(s[1..]) && ValueOf(s[1..]) == -x
    ensures x < 0 ==> |s| >= width + 1 && (|s| > width + 1 ==> s[1] != '0')
    ensures 0 <= x < Pow10(width) && width >= 1 ==> |s| == width
    ensures x >= Pow10(width) ==> |s| > width
  {
    if x < 0 then
      var p := Padded(-x, width);
      assert ("-" + p)[1..] == p && ("-" + p)[1] == p[0];
      "-" + p
    else Padded(x, width)
  }

  /** `YYYY-MM-DD` for the date `d`: only digits and hyphens, at least ten
      characters, and for a year in 0..9999 exactly ten, with the hyphens at
      indices 4 and 7. */
  function Format(d: Date): (s: string)
    ensures |s| >= 10
    ensures StampChars(s)
    ensures 0 <= d.year <= 9999 && 0 <= d.month <= 99 && 0 <= d.day <= 99 ==>
              |s| == 10 && s[4] == '-' && s[7] == '-' &&
              forall i :: 0 <= i < 10 && i != 4 && i != 7 ==> IsDecimal(s[i])
    ensures d.year > 9999 ==> |s| > 10
  {
    var y, m, dd := FormatInt(d.year, 4), FormatInt(d.month, 2), FormatInt(d.day, 2);
    assert Pow10(4) == 10000 && Pow10(2) == 100;
    Joined(y, m, dd);
    y + "-" + m + "-" + dd
  }

  /** Only decimal digits and hyphens. */
  predicate StampChars(s: string) {
    forall i :: 0 <= i < |s| ==> IsDecimal(s[i]) || s[i] == '-'
  }

  /** Three fields joined by hyphens keep their characters, and fields of
      four, two and two digits put the hyphens at indices 4 and 7. */
  lemma Joined(y: string, m: string, dd: string)
    requires StampChars(y) && StampChars(m) && StampChars(dd)
    ensures StampChars(y + "-" + m + "-" + dd)
    ensures |y| == 4 && |m| == 2 && |dd| == 2 && AllDecimal(y) && AllDecimal(m) && AllDecimal(dd) ==>
              var s := y + "-" + m + "-" + dd;
              s[4] == '-' && s[7] == '-' &&
              forall i :: 0 <= i < 10 && i != 4 && i != 7 ==> IsDecimal(s[i])
  {
    var s := y + "-" + m + "-" + dd;
    forall i | 0 <= i < |s| ensures IsDecimal(s[i]) || s[i] == '-' {
      if i < |y| { assert s[i] == y[i]; }
      else if |y| < i < |y| + 1 + |m| { assert s[i] == m[i - |y| - 1]; }
      else if i > |y| + 1 + |m| { assert s[i] == dd[i - |y| - |m| - 2]; }
    }
  }

  /** Reads a 10-character stamp back as a date; `None` if it is not shaped
      as four digits, `-`, two digits, `-`, two digits. */
  function Parse(s: string): (r: Option<Date>)
  {
    if |s| == 10 && s[4] == '-' && s[7] == '-'
       && (forall i :: 0 <= i < 10 && i != 4 && i != 7 ==> IsDecimal(s[i])) then
      Some(Date(ValueOf(s[..4]), ValueOf(s[5..7]), ValueOf(s[8..])))
    else None
  }

  function Pow10(k: nat): (p: nat)
    ensures p >= 1
  {
    if k == 0 then 1 else 10 * Pow10(k - 1)
  }

  /** Reading the digits of `n` back gives `n`. */
  lemma {:induction false} DecimalValue(n: nat)
    ensures ValueOf(Decimal(n)) == n
  {
    var s := Decimal(n);
    if n < 10 {
      assert s[..|s| - 1] == [];
    } else {
      assert s[..|s| - 1] == Decimal(n / 10);
      DecimalValue(n / 10);
    }
  }

  /** A positive value does not start with the digit zero. */
  lemma {:induction false} DecimalLeading(n: nat)
    requires n >= 1
    ensures Decimal(n)[0] != '0'
  {
    if n >= 10 {
      DecimalLeading(n / 10);
    }
  }

  /** A value below `10^k`, for `k >= 1`, has at most `k` digits. */
  lemma {:induction false} DecimalLength(n: nat, k: nat)
    requires n < Pow10(k) && k >= 1
    ensures |Decimal(n)| <= k
  {
    if n >= 10 {
      DecimalLength(n / 10, k - 1);
    }
  }

  /** A value with at most `k` digits is below `10^k`. */
  lemma {:induction false} DecimalBelow(n: nat, k: nat)
    requires |Decimal(n)| <= k
    ensures n < Pow10(k)
  {
    if n >= 10 {
      DecimalBelow(n / 10, k - 1);
    }
  }

  /** Leading zeros do not change the value of a digit string. */
  lemma {:induction false} ZerosValue(k: nat, s: string)
    requires forall i :: 0 <= i < |s| ==> IsDecimal(s[i])
    ensures ValueOf(Zeros(k) + s) == ValueOf(s)
    decreases |s|
  {
    var t := Zeros(k) + s;
    if s == [] {
      assert t == Zeros(k);
      ZerosOnly(k);
    } else {
      var init := s[..|s| - 1];
      assert t[..|t| - 1] == Zeros(k) + init;
      ZerosValue(k, init);
    }
  }

  lemma {:induction false} ZerosOnly(k: nat)
    ensures ValueOf(Zeros(k)) == 0
  {
    if k > 0 {
      assert Zeros(k)[..k - 1] == Zeros(k - 1);
      ZerosOnly(k - 1);
    }
  }

  /** For a year in 0..9999 the stamp is ten characters: digits, with `-` at
      indices 4 and 7, and it reads back as the date it was made from. */
  lemma StampShape(d: Date)
    requires 0 <= d.year <= 9999 && 1 <= d.month <= 12 && 1 <= d.day <= 31
    ensures |Format(d)| == 10
    ensures Format(d)[4] == '-' && Format(d)[7] == '-'
    ensures forall i :: 0 <= i < 10 && i != 4 && i != 7 ==> IsDecimal(Format(d)[i])
    ensures Parse(Format(d)) == Some(d)
  {
    assert Pow10(4) == 10000 && Pow10(2) == 100;
    var y, m, dd := FormatInt(d.year, 4), FormatInt(d.month, 2), FormatInt(d.day, 2);
    var s := Format(d);
    assert s == y + "-" + m + "-" + dd;
    assert s[..4] == y && s[5..7] == m && s[8..] == dd;
  }

  /** Different dates in years 0..9999 give different stamps. */
  lemma StampInjective(d: Date, e: Date)
    requires 0 <= d.year <= 9999 && 1 <= d.month <= 12 && 1 <= d.day <= 31
    requires 0 <= e.year <= 9999 && 1 <= e.month <= 12 && 1 <= e.day <= 31
    requires Format(d) == Format(e)
    ensures d == e
  {
    StampShape(d);
    StampShape(e);
  }

  /** The stamp of 1 January 2024. */
  lemma StampExample()
    ensures Format(Date(2024, 1, 1)) == "2024-01-01"
  {
    assert Decimal(2024) == "2024";
    assert FormatInt(2024, 4) == "2024";
    assert FormatInt(1, 2) == "01";
  }

  /** Go's padding at the edges: a negative value is padded after its sign,
      a value wider than the field is written in full, and zero in a field of
      width zero is `"0"`. */
  lemma FormatIntExamples()
    ensures FormatInt(-5, 4) == "-0005"
    ensures FormatInt(12345, 4) == "12345"
    ensures FormatInt(0, 0) == "0"
  {
    assert Decimal(5) == "5" && Decimal(0) == "0";
    assert Decimal(12345) == "12345";
  }

  /** `10^a` grows with `a`. */
  lemma {:induction false} Pow10Monotone(a: nat, b: nat)
    ensures a <= b ==> Pow10(a) <= Pow10(b)
    decreases b
  {
    if a < b {
      Pow10Monotone(a, b - 1);
    }
  }

  /** A string of `k` digits stands for a value below `10^k`. */
  lemma {:induction false} ValueBelow(s: string)
    requires AllDecimal(s)
    ensures ValueOf(s) < Pow10(|s|)
  {
    if s != [] {
      var init := s[..|s| - 1];
      ValueBelow(init);
      assert ValueOf(s) == ValueOf(init) * 10 + (s[|s| - 1] as int - '0' as int);
      assert ValueOf(init) * 10 <= (Pow10(|init|) - 1) * 10;
    }
  }

  /** A string of `k` digits that does not start with zero stands for a value
      of at least `10^(k-1)`. */
  lemma {:induction false} ValueAtLeast(s: string)
    requires AllDecimal(s)
    ensures |s| >= 1 && s[0] != '0' ==> ValueOf(s) >= Pow10(|s| - 1)
  {
    if |s| == 0 || s[0] == '0' {
    } else if |s| == 1 {
      assert s[..0] == [];
    } else {
      var init := s[..|s| - 1];
      assert init[0] == s[0];
      ValueAtLeast(init);
      assert ValueOf(s) >= ValueOf(init) * 10;
    }
  }

  /** Two digit strings of the same length and value are the same string. */
  lemma {:induction false} ValueInjective(s: string, t: string)
    requires AllDecimal(s) && AllDecimal(t) && |s| == |t|
    requires ValueOf(s) == ValueOf(t)
    ensures s == t
  {
    if s != [] {
      var k := |s| - 1;
      var ds, dt := s[k] as int - '0' as int, t[k] as int - '0' as int;
      assert ValueOf(s) == ValueOf(s[..k]) * 10 + ds;
      assert ValueOf(t) == ValueOf(t[..k]) * 10 + dt;
      assert ds == dt && ValueOf(s[..k]) == ValueOf(t[..k]);
      ValueInjective(s[..k], t[..k]);
      assert s == s[..k] + [s[k]] && t == t[..k] + [t[k]];
    }
  }

  /** The zero-padded digits are the only string that reads back as `n`, has
      at least `width` and at least one character, and has no leading zero
      beyond the padding. */
  lemma PaddedUnique(n: nat, width: nat, t: string)
    requires AllDecimal(t) && ValueOf(t) == n && |t| >= width && |t| >= 1
    requires |t| > width ==> t[0] != '0' || t == "0"
    ensures t == Padded(n, width)
  {
    var s := Padded(n, width);
    DigitsFacts(n, width);
    ValueBelow(s);
    ValueBelow(t);
    NoLeadingZeroLength(n, s);
    NoLeadingZeroLength(n, t);
    assert |s| == |t|;
    ValueInjective(s, t);
  }

  /** A digit string for `n` that is `"0"` or starts with a non-zero digit
      has as many characters as the plain decimal form of `n`. */
  lemma NoLeadingZeroLength(n: nat, t: string)
    requires AllDecimal(t) && ValueOf(t) == n
    ensures |t| >= 1 && (t[0] != '0' || t == "0") ==> |t| == |Decimal(n)|
  {
    var d := Decimal(n);
    DigitsFacts(n, 0);
    assert ValueOf("0") == 0 by {
      assert "0"[..0] == [];
    }
    ValueBelow(t);
    ValueBelow(d);
    ValueAtLeast(t);
    ValueAtLeast(d);
    if |t| >= 1 {
      Pow10Monotone(|t|, |d| - 1);
      Pow10Monotone(|d|, |t| - 1);
    }
  }

  /** Go's `appendInt` output is the only string with the shape `FormatInt`
      promises: for a negative value, `-` then the padded magnitude. */
  lemma FormatIntUnique(x: int, width: nat, t: string)
    requires x >= 0 ==> AllDecimal(t) && ValueOf(t) == x && |t| >= width && |t| >= 1
                        && (|t| > width ==> t[0] != '0' || t == "0")
    requires x < 0 ==> |t| >= width + 1 && t[0] == '-' && AllDecimal(t[1..]) && ValueOf(t[1..]) == -x
                       && (|t| > width + 1 ==> t[1] != '0')
    ensures t == FormatInt(x, width)
  {
    if x >= 0 {
      PaddedUnique(x, width, t);
    } else {
      PaddedUnique(-x, width, t[1..]);
      assert t == "-" + t[1..];
    }
  }
}
