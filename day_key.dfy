/**
 * Day keys of `utils/date.ts`: `formatDate` turns an instant into the `YYYY-MM-DD` part of
 * `toISOString`, the complete calendar date in extended format of section 5.2.1.1 of
 * ISO 8601:2004, taken in UTC; `isToday` and `isDateInPast` compare keys as strings.
 * Proved here: keys of years 0..9999 are ten characters, parse back to their date, and their
 * string order is the chronological order, so comparing keys compares days.
 */
module DayKey {
  import opened Wrappers
  import opened Calendar

  /** Milliseconds in a day. */
  const MsPerDay := 86_400_000

  /** The largest magnitude of a valid `Date` time value, in milliseconds. */
  const MaxTimeValue := 8_640_000_000_000_000

  /** What `toISOString` throws for a `Date` whose time value is not valid. */
  datatype DateError = RangeError

  /** JavaScript's `<` on strings: element by element, and a proper prefix is smaller. */
  predicate StrLess(a: string, b: string): (less: bool)
    ensures less ==> a != b
    ensures |a| < |b| && a == b[..|a|] ==> less
    decreases |a|
  {
    if |a| == 0 then |b| > 0
    else if |b| == 0 then false
    else if a[0] == b[0] then
      assert |a| < |b| && a == b[..|a|] ==> a[1..] == b[1..][..|a| - 1];
      StrLess(a[1..], b[1..])
    else a[0] < b[0]
  }

  /** String `<` is a strict total order: of two different strings exactly one is smaller. */
  lemma {:induction false} StrLessTotal(a: string, b: string)
    ensures StrLess(a, b) ==> !StrLess(b, a)
    ensures a != b ==> StrLess(a, b) || StrLess(b, a)
    decreases |a|
  {
    if |a| > 0 && |b| > 0 && a[0] == b[0] {
      StrLessTotal(a[1..], b[1..]);
      assert a != b ==> a[1..] != b[1..] by {
        if a[1..] == b[1..] {
          assert a == [a[0]] + a[1..] && b == [b[0]] + b[1..];
        }
      }
    }
  }

  /** Comparing concatenations whose first parts have equal length: the first parts decide unless they are equal. */
  lemma {:induction false} StrLessConcat(a1: string, a2: string, b1: string, b2: string)
    requires |a1| == |b1|
    ensures StrLess(a1 + a2, b1 + b2) == if a1 == b1 then StrLess(a2, b2) else StrLess(a1, b1)
    decreases |a1|
  {
    if a1 == [] {
      assert a1 + a2 == a2 && b1 + b2 == b2;
    } else {
      assert (a1 + a2)[0] == a1[0] && (b1 + b2)[0] == b1[0];
      assert (a1 + a2)[1..] == a1[1..] + a2 && (b1 + b2)[1..] == b1[1..] + b2;
      StrLessConcat(a1[1..], a2, b1[1..], b2);
      if a1[0] == b1[0] {
        assert a1 == b1 <==> a1[1..] == b1[1..] by {
          assert a1 == [a1[0]] + a1[1..] && b1 == [b1[0]] + b1[1..];
        }
      }
    }
  }

  /** Ten to the power `n`. */
  function Pow10(n: nat): (r: nat)
    ensures r >= 1
  {
    if n == 0 then 1 else 10 * Pow10(n - 1)
  }

  predicate IsDigit(c: char) {
    '0' <= c <= '9'
  }

  predicate AllDigits(s: string) {
    forall i :: 0 <= i < |s| ==> IsDigit(s[i])
  }

  /** The character of a decimal digit. */
  function DigitChar(d: int): (c: char)
    requires 0 <= d <= 9
    ensures IsDigit(c) && c as int - '0' as int == d
  {
    ('0' as int + d) as char
  }

  /** The last `n` decimal digits of `x`, most significant first, padded with zeros. */
  function Digits(x: nat, n: nat): (s: string)
    ensures |s| == n && AllDigits(s)
  {
    if n == 0 then [] else Digits(x / 10, n - 1) + [DigitChar(x % 10)]
  }

  /** The number a string of decimal digits denotes. */
  function DigitsValue(s: string): (v: nat)
    requires AllDigits(s)
  {
    if s == [] then 0 else 10 * DigitsValue(s[..|s| - 1]) + (s[|s| - 1] as int - '0' as int)
  }

  /** Reading back the digits of a number that fits gives the number. */
  lemma {:induction false} DigitsRoundTrip(x: nat, n: nat)
    requires x < Pow10(n)
    ensures DigitsValue(Digits(x, n)) == x
  {
    if n > 0 {
      var s := Digits(x, n);
      assert s[..|s| - 1] == Digits(x / 10, n - 1);
      DigitsRoundTrip(x / 10, n - 1);
    }
  }

  /** A digit string is the padded digits of its own value. */
  lemma {:induction false} ValueRoundTrip(s: string)
    requires AllDigits(s)
    ensures DigitsValue(s) < Pow10(|s|)
    ensures Digits(DigitsValue(s), |s|) == s
  {
    if s != [] {
      var init := s[..|s| - 1];
      ValueRoundTrip(init);
      var v := DigitsValue(s);
      var last := s[|s| - 1] as int - '0' as int;
      assert v == 10 * DigitsValue(init) + last;
      assert v / 10 == DigitsValue(init) && v % 10 == last;
      assert DigitChar(last) == s[|s| - 1];
      assert s == init + [s[|s| - 1]];
    }
  }

  /** Padded digit strings of one width compare as their numbers do. */
  lemma {:induction false} DigitsOrder(x: nat, y: nat, n: nat)
    requires x < Pow10(n) && y < Pow10(n)
    ensures StrLess(Digits(x, n), Digits(y, n)) <==> x < y
  {
    if n > 0 {
      var a, b := Digits(x / 10, n - 1), Digits(y / 10, n - 1);
      StrLessConcat(a, [DigitChar(x % 10)], b, [DigitChar(y % 10)]);
      DigitsOrder(x / 10, y / 10, n - 1);
      DigitsRoundTrip(x / 10, n - 1);
      DigitsRoundTrip(y / 10, n - 1);
      assert StrLess([DigitChar(x % 10)], [DigitChar(y % 10)]) <==> x % 10 < y % 10 by {
        assert [DigitChar(x % 10)][1..] == [] && [DigitChar(y % 10)][1..] == [];
      }
    }
  }

  /**
   * The year part of `toISOString`: four digits for years 0..9999, otherwise a sign and six
   * digits (the expanded years of ECMAScript, which valid time values never exceed).
   */
  function YearField(y: int): (s: string)
    ensures 0 <= y <= 9999 ==> s == Digits(y, 4)
  {
    if 0 <= y <= 9999 then Digits(y, 4)
    else if y < 0 then "-" + Digits(-y, 6)
    else "+" + Digits(y, 6)
  }

  /** The key of a civil date: year, month and day, joined by hyphens. */
  function KeyOfDate(d: Date): (key: string)
    requires Valid(d)
  {
    YearField(d.year) + ("-" + (Digits(d.month, 2) + ("-" + Digits(d.day, 2))))
  }

  /** The key of a day: the key of its civil date. */
  function FormatDay(n: Day): (key: string) {
    KeyOfDate(DateOfDay(n))
  }

  /**
   * `formatDate` of a `Date` with time value `t` (milliseconds since the epoch):
   * `toISOString().split("T")[0]`, which throws a RangeError for a time value that is not valid.
   */
  function FormatDate(t: int): (r: Result<string, DateError>)
    ensures r.Ok? <==> -MaxTimeValue <= t <= MaxTimeValue
    ensures r.Ok? ==> r.value == FormatDay(t / MsPerDay)
    ensures r.Ok? && HasFourDigitYear(t / MsPerDay) ==>
              |r.value| == 10 && ParseKey(r.value) == Some(DateOfDay(t / MsPerDay))
  {
    if -MaxTimeValue <= t <= MaxTimeValue then
      var n := t / MsPerDay;
      if HasFourDigitYear(n) then
        KeyShape(DateOfDay(n));
        ParseFormatted(DateOfDay(n));
        Ok(FormatDay(n))
      else Ok(FormatDay(n))
    else Err(RangeError)
  }

  /** A day whose year has four digits, where keys have the plain `YYYY-MM-DD` form. */
  predicate HasFourDigitYear(n: Day) {
    0 <= DateOfDay(n).year <= 9999
  }

  /** Reads a `YYYY-MM-DD` key back to the date it names; anything else is not a key. */
  function ParseKey(s: string): (r: Option<Date>)
    ensures r.Some? ==> Valid(r.value) && 0 <= r.value.year <= 9999
  {
    if |s| == 10 && s[4] == '-' && s[7] == '-' && AllDigits(s[..4]) && AllDigits(s[5..7]) && AllDigits(s[8..]) then
      var d := Date(DigitsValue(s[..4]), DigitsValue(s[5..7]), DigitsValue(s[8..]));
      ValueRoundTrip(s[..4]);
      if Valid(d) then Some(d) else None
    else None
  }

  /** A key of a four-digit year is ten characters: digits, with hyphens at positions 4 and 7. */
  lemma KeyShape(d: Date)
    requires Valid(d) && 0 <= d.year <= 9999
    ensures var k := KeyOfDate(d);
      |k| == 10 && k[4] == '-' && k[7] == '-'
      && (forall i :: 0 <= i < 10 && i != 4 && i != 7 ==> IsDigit(k[i]))
      && k[..4] == Digits(d.year, 4) && k[5..7] == Digits(d.month, 2) && k[8..] == Digits(d.day, 2)
  {
    var k := KeyOfDate(d);
    var y, m, dd := Digits(d.year, 4), Digits(d.month, 2), Digits(d.day, 2);
    assert k == y + ("-" + (m + ("-" + dd)));
    assert k[..4] == y;
    assert k[5..7] == m;
    assert k[8..] == dd;
  }

  /** Parsing a formatted key gives back its date. */
  lemma ParseFormatted(d: Date)
    requires Valid(d) && 0 <= d.year <= 9999
    ensures ParseKey(KeyOfDate(d)) == Some(d)
  {
    KeyShape(d);
    var k := KeyOfDate(d);
    DigitsRoundTrip(d.year, 4);
    DigitsRoundTrip(d.month, 2);
    DigitsRoundTrip(d.day, 2);
    assert AllDigits(k[..4]) && AllDigits(k[5..7]) && AllDigits(k[8..]);
  }

  /** Whatever parses is the canonical key of the date it parses to. */
  lemma FormatParsed(s: string)
    requires ParseKey(s).Some?
    ensures KeyOfDate(ParseKey(s).value) == s
  {
    var d := ParseKey(s).value;
    ValueRoundTrip(s[..4]);
    ValueRoundTrip(s[5..7]);
    ValueRoundTrip(s[8..]);
    KeyShape(d);
    var k := KeyOfDate(d);
    assert k[..4] == s[..4] && k[5..7] == s[5..7] && k[8..] == s[8..];
    assert k[4] == s[4] && k[7] == s[7];
    assert forall i :: 0 <= i < 10 ==> k[i] == s[i] by {
      forall i | 0 <= i < 10 ensures k[i] == s[i] {
        if i < 4 { assert k[i] == k[..4][i]; }
        else if 5 <= i < 7 { assert k[i] == k[5..7][i - 5] && s[i] == s[5..7][i - 5]; }
        else if 8 <= i { assert k[i] == k[8..][i - 8] && s[i] == s[8..][i - 8]; }
      }
    }
  }

  /** Keys of four-digit years compare as strings exactly as their dates compare in time. */
  lemma KeyOrder(a: Date, b: Date)
    requires Valid(a) && 0 <= a.year <= 9999
    requires Valid(b) && 0 <= b.year <= 9999
    ensures StrLess(KeyOfDate(a), KeyOfDate(b)) <==> Before(a, b)
  {
    var ya, yb := Digits(a.year, 4), Digits(b.year, 4);
    var ma, mb := Digits(a.month, 2), Digits(b.month, 2);
    var da, db := Digits(a.day, 2), Digits(b.day, 2);
    DigitsOrder(a.year, b.year, 4);
    DigitsOrder(a.month, b.month, 2);
    DigitsOrder(a.day, b.day, 2);
    DigitsRoundTrip(a.year, 4); DigitsRoundTrip(b.year, 4);
    DigitsRoundTrip(a.month, 2); DigitsRoundTrip(b.month, 2);
    StrLessConcat(ya, "-" + (ma + ("-" + da)), yb, "-" + (mb + ("-" + db)));
    StrLessConcat("-", ma + ("-" + da), "-", mb + ("-" + db));
    StrLessConcat(ma, "-" + da, mb, "-" + db);
    StrLessConcat("-", da, "-", db);
  }

  /** Keys of four-digit-year days order as the days do: what `isDateInPast` relies on. */
  lemma DayKeyOrder(n: Day, m: Day)
    requires HasFourDigitYear(n) && HasFourDigitYear(m)
    ensures StrLess(FormatDay(n), FormatDay(m)) <==> n < m
  {
    KeyOrder(DateOfDay(n), DateOfDay(m));
    if n < m {
      DateOfDayMonotone(n, m);
    } else if m < n {
      DateOfDayMonotone(m, n);
    }
  }

  /** Distinct four-digit-year days have distinct keys. */
  lemma DayKeyInjective(n: Day, m: Day)
    requires HasFourDigitYear(n) && HasFourDigitYear(m)
    ensures FormatDay(n) == FormatDay(m) <==> n == m
  {
    if FormatDay(n) == FormatDay(m) {
      ParseFormatted(DateOfDay(n));
      ParseFormatted(DateOfDay(m));
      DateOfDayInjective(n, m);
    }
  }

  /** Two valid instants get the same key exactly when they fall on the same UTC day. */
  lemma FormatDateSameDay(t1: int, t2: int)
    requires -MaxTimeValue <= t1 <= MaxTimeValue && -MaxTimeValue <= t2 <= MaxTimeValue
    requires HasFourDigitYear(t1 / MsPerDay) && HasFourDigitYear(t2 / MsPerDay)
    ensures FormatDate(t1) == FormatDate(t2) <==> t1 / MsPerDay == t2 / MsPerDay
  {
    DayKeyInjective(t1 / MsPerDay, t2 / MsPerDay);
  }

  /**
   * `isToday(date)`: the string equals today's key. For a four-digit year that is the same as
   * the string being a key that names today's date.
   */
  predicate IsToday(date: string, today: Day): (b: bool)
    ensures HasFourDigitYear(today) ==> (b <==> ParseKey(date) == Some(DateOfDay(today)))
  {
    if HasFourDigitYear(today) then
      ParseFormatted(DateOfDay(today));
      if ParseKey(date).Some? then
        FormatParsed(date);
        date == FormatDay(today)
      else date == FormatDay(today)
    else date == FormatDay(today)
  }

  /**
   * `isDateInPast(date)`: the string is smaller, as a string, than today's key. For a string
   * that is a key, and a four-digit year today, that is its date being earlier than today.
   */
  predicate IsDateInPast(date: string, today: Day): (b: bool)
    ensures HasFourDigitYear(today) && ParseKey(date).Some? ==>
              (b <==> Before(ParseKey(date).value, DateOfDay(today)))
  {
    if HasFourDigitYear(today) && ParseKey(date).Some? then
      FormatParsed(date);
      KeyOrder(ParseKey(date).value, DateOfDay(today));
      StrLess(date, FormatDay(today))
    else StrLess(date, FormatDay(today))
  }

  /** On keys of four-digit-year days, `isToday` is equality of days. */
  lemma IsTodayOfKey(d: Day, today: Day)
    requires HasFourDigitYear(d) && HasFourDigitYear(today)
    ensures IsToday(FormatDay(d), today) <==> d == today
  {
    DayKeyInjective(d, today);
  }

  /** On keys of four-digit-year days, `isDateInPast` is "strictly before today". */
  lemma IsDateInPastOfKey(d: Day, today: Day)
    requires HasFourDigitYear(d) && HasFourDigitYear(today)
    ensures IsDateInPast(FormatDay(d), today) <==> d < today
  {
    DayKeyOrder(d, today);
  }

  /** The keys `completedDates` holds for a list of days. */
  function Keys(days: seq<Day>): (keys: seq<string>)
    ensures |keys| == |days|
    ensures forall i :: 0 <= i < |days| ==> keys[i] == FormatDay(days[i])
  {
    if days == [] then [] else [FormatDay(days[0])] + Keys(days[1..])
  }

  /**
   * Looking up a day's key among the keys of four-digit-year days is looking up the day: the
   * reason the streak and store functions may hold completed days as day numbers.
   */
  lemma KeysMembership(days: seq<Day>, d: Day)
    requires forall i :: 0 <= i < |days| ==> HasFourDigitYear(days[i])
    requires HasFourDigitYear(d)
    ensures FormatDay(d) in Keys(days) <==> d in days
  {
    var keys := Keys(days);
    if FormatDay(d) in keys {
      var i :| 0 <= i < |keys| && keys[i] == FormatDay(d);
      DayKeyInjective(days[i], d);
    }
  }
}
