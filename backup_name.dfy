/** The name under which `backup_mongodb_to_gcs` uploads a dump:
    `<prefix>-<YYYYMMDDHHMMSS>.gz`, the timestamp printed by
    `strftime("%Y%m%d%H%M%S")` from the wall clock at the start of the run. */
module BackupName {
  import opened Wrappers

  /** A wall-clock reading, as the fields of a Python `datetime`. */
  datatype DateTime = DateTime(year: int, month: int, day: int, hour: int, minute: int, second: int)

  predicate IsLeapYear(year: int) {
    year % 4 == 0 && (year % 100 != 0 || year % 400 == 0)
  }

  function DaysInMonth(year: int, month: int): (n: int)
    requires 1 <= month <= 12
    ensures 28 <= n <= 31
    ensures n == 29 <==> month == 2 && IsLeapYear(year)
  {
    if month == 2 then (if IsLeapYear(year) then 29 else 28)
    else if month == 4 || month == 6 || month == 9 || month == 11 then 30
    else 31
  }

  /** A reading a `datetime` can hold (no leap second), with a four-digit year. */
  predicate Valid(dt: DateTime) {
    && 1000 <= dt.year <= 9999
    && 1 <= dt.month <= 12
    && 1 <= dt.day <= DaysInMonth(dt.year, dt.month)
    && 0 <= dt.hour < 24
    && 0 <= dt.minute < 60
    && 0 <= dt.second < 60
  }

  function Pow10(n: nat): (r: nat)
    ensures r >= 1
  {
    if n == 0 then 1 else 10 * Pow10(n - 1)
  }

  predicate IsDigit(c: char) {
    '0' <= c <= '9'
  }

  predicate AllDigits(s: string) {
    forall i :: 0 <= i < |s| ==> IsDigit(s[i])
  }

  function DigitChar(d: nat): (c: char)
    requires d < 10
    ensures IsDigit(c)
  {
    ('0' as int + d) as char
  }

  function DigitValue(c: char): (d: nat)
    requires IsDigit(c)
    ensures d < 10
    ensures DigitChar(d) == c
  {
    c as int - '0' as int
  }

  /** The number a string of decimal digits denotes, most significant first. */
  function DecimalValue(s: string): (n: nat)
    requires AllDigits(s)
    ensures n < Pow10(|s|)
  {
    if s == [] then 0
    else
      var init := s[..|s| - 1];
      assert AllDigits(init);
      DecimalValue(init) * 10 + DigitValue(s[|s| - 1])
  }

  /** `n` printed in exactly `width` decimal digits, zeros in front, as `%Y`
      prints a four-digit year and `%m`, `%d`, `%H`, `%M`, `%S` two digits. */
  function ZeroPad(n: nat, width: nat): (s: string)
    requires n < Pow10(width)
    ensures |s| == width && AllDigits(s)
    ensures DecimalValue(s) == n
  {
    if width == 0 then []
    else
      var s := ZeroPad(n / 10, width - 1) + [DigitChar(n % 10)];
      assert s[..width - 1] == ZeroPad(n / 10, width - 1);
      s
  }

  /** Every digit string of length `width` is the zero-padded print of its value,
      so printing a field loses nothing and admits one spelling only. */
  lemma {:induction false} ZeroPadOfValue(s: string)
    requires AllDigits(s)
    ensures ZeroPad(DecimalValue(s), |s|) == s
  {
    if s != [] {
      var init := s[..|s| - 1];
      var n := DecimalValue(s);
      assert AllDigits(init);
      ZeroPadOfValue(init);
      assert n / 10 == DecimalValue(init) && n % 10 == DigitValue(s[|s| - 1]);
      assert s == init + [s[|s| - 1]];
    }
  }

  /** The fourteen digits `strftime("%Y%m%d%H%M%S")` prints. */
  function Timestamp(dt: DateTime): (t: string)
    requires Valid(dt)
    ensures |t| == 14 && AllDigits(t)
  {
    ZeroPad(dt.year, 4) + ZeroPad(dt.month, 2) + ZeroPad(dt.day, 2)
      + ZeroPad(dt.hour, 2) + ZeroPad(dt.minute, 2) + ZeroPad(dt.second, 2)
  }

  lemma DigitsOfSlice(s: string, lo: int, hi: int)
    requires AllDigits(s) && 0 <= lo <= hi <= |s|
    ensures AllDigits(s[lo..hi])
  {
    forall i | 0 <= i < hi - lo ensures IsDigit(s[lo..hi][i]) {
      assert s[lo..hi][i] == s[lo + i];
    }
  }

  /** Reads fourteen digits back into the clock reading they print, if they
      print one. */
  function ParseTimestamp(t: string): Option<DateTime> {
    if |t| != 14 || !AllDigits(t) then None
    else
      DigitsOfSlice(t, 0, 4);
      DigitsOfSlice(t, 4, 6);
      DigitsOfSlice(t, 6, 8);
      DigitsOfSlice(t, 8, 10);
      DigitsOfSlice(t, 10, 12);
      DigitsOfSlice(t, 12, 14);
      var dt := DateTime(DecimalValue(t[0..4]), DecimalValue(t[4..6]), DecimalValue(t[6..8]),
                         DecimalValue(t[8..10]), DecimalValue(t[10..12]), DecimalValue(t[12..14]));
      if Valid(dt) then Some(dt) else None
  }

  /** Year, month, day, hour, minute and second sit at fixed places in the
      timestamp, each zero-padded. */
  lemma TimestampFields(dt: DateTime)
    requires Valid(dt)
    ensures var t := Timestamp(dt);
      && t[0..4] == ZeroPad(dt.year, 4)
      && t[4..6] == ZeroPad(dt.month, 2)
      && t[6..8] == ZeroPad(dt.day, 2)
      && t[8..10] == ZeroPad(dt.hour, 2)
      && t[10..12] == ZeroPad(dt.minute, 2)
      && t[12..14] == ZeroPad(dt.second, 2)
  {
    SixFields(ZeroPad(dt.year, 4), ZeroPad(dt.month, 2), ZeroPad(dt.day, 2),
              ZeroPad(dt.hour, 2), ZeroPad(dt.minute, 2), ZeroPad(dt.second, 2));
  }

  /** Where each of six fields of widths 4, 2, 2, 2, 2, 2 sits in their concatenation. */
  lemma SixFields(y: string, mo: string, d: string, h: string, mi: string, s: string)
    requires |y| == 4 && |mo| == 2 && |d| == 2 && |h| == 2 && |mi| == 2 && |s| == 2
    ensures var t := y + mo + d + h + mi + s;
      && t[0..4] == y && t[4..6] == mo && t[6..8] == d
      && t[8..10] == h && t[10..12] == mi && t[12..14] == s
  {
  }

  /** A string of fourteen characters is the concatenation of its six fields. */
  lemma SplitSix(t: string)
    requires |t| == 14
    ensures t == t[0..4] + t[4..6] + t[6..8] + t[8..10] + t[10..12] + t[12..14]
  {
  }

  /** Parsing the printed timestamp gives back the clock reading. */
  lemma TimestampRoundTrip(dt: DateTime)
    requires Valid(dt)
    ensures ParseTimestamp(Timestamp(dt)) == Some(dt)
  {
    TimestampFields(dt);
  }

  /** Whatever parses is exactly the print of what it parses to. */
  lemma TimestampCanonical(t: string, dt: DateTime)
    requires ParseTimestamp(t) == Some(dt)
    ensures Valid(dt) && Timestamp(dt) == t
  {
    DigitsOfSlice(t, 0, 4);
    DigitsOfSlice(t, 4, 6);
    DigitsOfSlice(t, 6, 8);
    DigitsOfSlice(t, 8, 10);
    DigitsOfSlice(t, 10, 12);
    DigitsOfSlice(t, 12, 14);
    ZeroPadOfValue(t[0..4]);
    ZeroPadOfValue(t[4..6]);
    ZeroPadOfValue(t[6..8]);
    ZeroPadOfValue(t[8..10]);
    ZeroPadOfValue(t[10..12]);
    ZeroPadOfValue(t[12..14]);
    SplitSix(t);
  }

  /** `f"{prefix}-{timestamp}.gz"`. */
  function FileName(prefix: string, dt: DateTime): (name: string)
    requires Valid(dt)
    ensures |name| == |prefix| + 18
    ensures name[..|prefix| + 1] == prefix + "-"
    ensures name[|prefix| + 15..] == ".gz"
    ensures AllDigits(name[|prefix| + 1..|prefix| + 15])
  {
    var name := prefix + "-" + Timestamp(dt) + ".gz";
    assert name[|prefix| + 1..|prefix| + 15] == Timestamp(dt);
    name
  }

  /** Splits a name of the form `<prefix>-<timestamp>.gz` and parses its timestamp. */
  function ParseFileName(prefix: string, name: string): Option<DateTime> {
    if |name| >= |prefix| + 4 && name[..|prefix| + 1] == prefix + "-" && name[|name| - 3..] == ".gz"
    then ParseTimestamp(name[|prefix| + 1..|name| - 3])
    else None
  }

  /** The clock reading can be read back from the object name. */
  lemma FileNameRoundTrip(prefix: string, dt: DateTime)
    requires Valid(dt)
    ensures ParseFileName(prefix, FileName(prefix, dt)) == Some(dt)
  {
    var name := FileName(prefix, dt);
    assert name[|prefix| + 1..|name| - 3] == Timestamp(dt);
    TimestampRoundTrip(dt);
  }

  /** A name that parses is the name the backup of that reading gets. */
  lemma FileNameCanonical(prefix: string, name: string, dt: DateTime)
    requires ParseFileName(prefix, name) == Some(dt)
    ensures Valid(dt) && FileName(prefix, dt) == name
  {
    var t := name[|prefix| + 1..|name| - 3];
    TimestampCanonical(t, dt);
    assert name == name[..|prefix| + 1] + t + name[|name| - 3..];
  }

  /** Two runs of the same prefix in different seconds never write the same object. */
  lemma FileNameInjective(prefix: string, a: DateTime, b: DateTime)
    requires Valid(a) && Valid(b) && FileName(prefix, a) == FileName(prefix, b)
    ensures a == b
  {
    FileNameRoundTrip(prefix, a);
    FileNameRoundTrip(prefix, b);
  }

  /** Printing with one more digit puts the last digit after the print of the rest. */
  lemma ZeroPadStep(n: nat, width: nat)
    requires n < Pow10(width + 1)
    ensures n / 10 < Pow10(width)
    ensures ZeroPad(n, width + 1) == ZeroPad(n / 10, width) + [DigitChar(n % 10)]
  {
  }

  lemma ZeroPadTwo(n: nat)
    requires n < 100
    ensures ZeroPad(n, 2) == [DigitChar(n / 10), DigitChar(n % 10)]
  {
    assert Pow10(2) == 100 && Pow10(1) == 10;
    ZeroPadStep(n, 1);
    ZeroPadStep(n / 10, 0);
    assert ZeroPad(n / 10 / 10, 0) == [];
  }

  lemma ZeroPadFour(n: nat)
    requires n < 10000
    ensures ZeroPad(n, 4) == [DigitChar(n / 100 / 10), DigitChar(n / 100 % 10), DigitChar(n / 10 % 10), DigitChar(n % 10)]
  {
    assert Pow10(4) == 10000 && Pow10(3) == 1000;
    ZeroPadStep(n, 3);
    ZeroPadStep(n / 10, 2);
    assert n / 10 / 10 == n / 100;
    ZeroPadTwo(n / 100);
  }

  lemma DigitCharsAt()
    ensures DigitChar(0) == '0' && DigitChar(1) == '1' && DigitChar(2) == '2' && DigitChar(3) == '3'
    ensures DigitChar(4) == '4' && DigitChar(5) == '5' && DigitChar(9) == '9'
  {
  }

  lemma YearExample()
    ensures ZeroPad(2024, 4) == "2024"
  {
    ZeroPadFour(2024);
    DigitCharsAt();
  }

  lemma MonthExample()
    ensures ZeroPad(1, 2) == "01" && ZeroPad(15, 2) == "15"
  {
    ZeroPadTwo(1);
    ZeroPadTwo(15);
    DigitCharsAt();
  }

  lemma TimeExample()
    ensures ZeroPad(9, 2) == "09" && ZeroPad(30, 2) == "30" && ZeroPad(0, 2) == "00"
  {
    ZeroPadTwo(9);
    ZeroPadTwo(30);
    ZeroPadTwo(0);
    DigitCharsAt();
  }

  lemma ExampleLiteral()
    ensures "backup" + "-" + ("2024" + "01" + "15" + "09" + "30" + "00") + ".gz" == "backup-20240115093000.gz"
  {
  }

  lemma ExampleTimestamp()
    ensures Timestamp(DateTime(2024, 1, 15, 9, 30, 0)) == "2024" + "01" + "15" + "09" + "30" + "00"
  {
    YearExample();
    MonthExample();
    TimeExample();
  }

  /** The run started on 15 January 2024 at 09:30:00 with the default prefix
      uploads `backup-20240115093000.gz`. */
  lemma DefaultPrefixExample()
    ensures FileName("backup", DateTime(2024, 1, 15, 9, 30, 0)) == "backup-20240115093000.gz"
  {
    ExampleTimestamp();
    ExampleLiteral();
  }
}
