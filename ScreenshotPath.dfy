/** Where a screenshot is saved: `os.path.join(directory, "screenshot_" + stamp + ".png")`,
    where `stamp` is the capture time formatted with `"%Y-%d-%m_%H-%M-%S"` --
    year, then DAY, then month, then hour, minute and second, each field
    zero-padded (the year to four digits, the others to two).
 */
module ScreenshotPath {

  datatype Option<T> = None | Some(value: T)

  /** A local date and time as `datetime.now()` returns it, to the second. */
  datatype Timestamp = Timestamp(year: int, month: int, day: int, hour: int, minute: int, second: int)

  predicate IsLeapYear(year: int)
  {
    year % 4 == 0 && (year % 100 != 0 || year % 400 == 0)
  }

  function DaysInMonth(year: int, month: int): int
  {
    if month == 2 then (if IsLeapYear(year) then 29 else 28)
    else if month in {4, 6, 9, 11} then 30
    else 31
  }

  /** The values a `datetime` can hold (years 1 to 9999). */
  predicate Valid(t: Timestamp)
  {
    1 <= t.year <= 9999 && 1 <= t.month <= 12 && 1 <= t.day <= DaysInMonth(t.year, t.month) &&
    0 <= t.hour <= 23 && 0 <= t.minute <= 59 && 0 <= t.second <= 59
  }

  // ---------------------------------------------------------------------------
  // Formatting

  function DigitChar(d: int): char
    requires 0 <= d <= 9
  {
    ('0' as int + d) as char
  }

  predicate IsDigit(c: char)
  {
    '0' <= c <= '9'
  }

  function DigitValue(c: char): int
    requires IsDigit(c)
  {
    c as int - '0' as int
  }

  /** `n` in two decimal digits, as `%d`, `%m`, `%H`, `%M` and `%S` write it. */
  function Pad2(n: int): string
    requires 0 <= n <= 99
  {
    [DigitChar(n / 10), DigitChar(n % 10)]
  }

  /** `n` in four decimal digits, as `%Y` writes it. */
  function Pad4(n: int): string
    requires 0 <= n <= 9999
  {
    Pad2(n / 100) + Pad2(n % 100)
  }

  /** `t.strftime("%Y-%d-%m_%H-%M-%S")`. */
  function Stamp(t: Timestamp): string
    requires Valid(t)
  {
    Pad4(t.year) + "-" + Pad2(t.day) + "-" + Pad2(t.month) + "_" +
    Pad2(t.hour) + "-" + Pad2(t.minute) + "-" + Pad2(t.second)
  }

  /** The file name of a screenshot taken at `t`. */
  function FileName(t: Timestamp): string
    requires Valid(t)
  {
    "screenshot_" + Stamp(t) + ".png"
  }

  /** `os.path.join(a, b)` on a POSIX system: an absolute `b` replaces `a`;
      otherwise `b` is appended, with a `/` in between unless `a` is empty or
      already ends with one. */
  function Join(a: string, b: string): (r: string)
    ensures 0 < |b| && b[0] == '/' ==> r == b
    ensures 0 < |b| && b[0] != '/' ==>
      |a| + |b| <= |r| <= |a| + |b| + 1 && r[..|a|] == a && r[|r| - |b|..] == b
    ensures 0 < |b| && b[0] != '/' ==> (|r| == |a| + |b| + 1 <==> a != [] && a[|a| - 1] != '/')
    ensures 0 < |b| && b[0] != '/' && |r| == |a| + |b| + 1 ==> r[|a|] == '/'
  {
    if 0 < |b| && b[0] == '/' then b
    else a + Separator(a) + b
  }

  /** What `Join` puts between a directory and a relative name. */
  function Separator(a: string): string
  {
    if a == [] || a[|a| - 1] == '/' then "" else "/"
  }

  /** The path `take_screenshot` saves the screenshot under. */
  function SavePath(directory: string, t: Timestamp): string
    requires Valid(t)
  {
    Join(directory, FileName(t))
  }

  // ---------------------------------------------------------------------------
  // Reading a name back

  function ParsePad2(s: string): (r: Option<int>)
    ensures r.Some? ==> 0 <= r.value <= 99
  {
    if |s| == 2 && IsDigit(s[0]) && IsDigit(s[1]) then Some(DigitValue(s[0]) * 10 + DigitValue(s[1]))
    else None
  }

  function ParsePad4(s: string): (r: Option<int>)
    ensures r.Some? ==> 0 <= r.value <= 9999
  {
    if |s| != 4 then None
    else match (ParsePad2(s[..2]), ParsePad2(s[2..]))
      case (Some(hi), Some(lo)) => Some(hi * 100 + lo)
      case _ => None
  }

  /** The timestamp a 19-character `%Y-%d-%m_%H-%M-%S` stamp stands for, if it is one. */
  function ParseStamp(s: string): Option<Timestamp>
  {
    if |s| != 19 || s[4] != '-' || s[7] != '-' || s[10] != '_' || s[13] != '-' || s[16] != '-' then None
    else match (ParsePad4(s[..4]), ParsePad2(s[5..7]), ParsePad2(s[8..10]),
                ParsePad2(s[11..13]), ParsePad2(s[14..16]), ParsePad2(s[17..]))
      case (Some(y), Some(d), Some(mo), Some(h), Some(mi), Some(se)) =>
        var t := Timestamp(y, mo, d, h, mi, se);
        if Valid(t) then Some(t) else None
      case _ => None
  }

  /** The timestamp a screenshot file name stands for, if it is one. */
  function ParseFileName(name: string): Option<Timestamp>
  {
    if |name| == 34 && name[..11] == "screenshot_" && name[30..] == ".png" then ParseStamp(name[11..30])
    else None
  }

  /** The last component of a path: what follows its last `/`. */
  function Basename(path: string): (r: string)
    ensures '/' !in r
  {
    if path == [] || path[|path| - 1] == '/' then []
    else Basename(path[..|path| - 1]) + [path[|path| - 1]]
  }

  // ---------------------------------------------------------------------------
  // Lemmas

  lemma Pad2RoundTrip(n: int)
    requires 0 <= n <= 99
    ensures ParsePad2(Pad2(n)) == Some(n)
  {
  }

  lemma Pad2Inverse(s: string)
    requires ParsePad2(s).Some?
    ensures Pad2(ParsePad2(s).value) == s
  {
    var d0, d1 := DigitValue(s[0]), DigitValue(s[1]);
    assert (d0 * 10 + d1) / 10 == d0 && (d0 * 10 + d1) % 10 == d1;
    assert DigitChar(d0) == s[0] && DigitChar(d1) == s[1];
  }

  lemma Pad4RoundTrip(n: int)
    requires 0 <= n <= 9999
    ensures ParsePad4(Pad4(n)) == Some(n)
  {
    var s := Pad4(n);
    assert s[..2] == Pad2(n / 100) && s[2..] == Pad2(n % 100);
    Pad2RoundTrip(n / 100);
    Pad2RoundTrip(n % 100);
  }

  lemma Pad4Inverse(s: string)
    requires ParsePad4(s).Some?
    ensures Pad4(ParsePad4(s).value) == s
  {
    var hi, lo := ParsePad2(s[..2]).value, ParsePad2(s[2..]).value;
    assert (hi * 100 + lo) / 100 == hi && (hi * 100 + lo) % 100 == lo;
    Pad2Inverse(s[..2]);
    Pad2Inverse(s[2..]);
    assert s == s[..2] + s[2..];
  }

  /** Every stamp reads back as the timestamp it was made from. */
  lemma StampRoundTrip(t: Timestamp)
    requires Valid(t)
    ensures |Stamp(t)| == 19
    ensures ParseStamp(Stamp(t)) == Some(t)
  {
    var s := Stamp(t);
    assert s[..4] == Pad4(t.year);
    assert s[5..7] == Pad2(t.day);
    assert s[8..10] == Pad2(t.month);
    assert s[11..13] == Pad2(t.hour);
    assert s[14..16] == Pad2(t.minute);
    assert s[17..] == Pad2(t.second);
    Pad4RoundTrip(t.year);
    Pad2RoundTrip(t.day);
    Pad2RoundTrip(t.month);
    Pad2RoundTrip(t.hour);
    Pad2RoundTrip(t.minute);
    Pad2RoundTrip(t.second);
  }

  /** Whatever reads as a timestamp is exactly that timestamp's stamp. */
  lemma StampInverse(s: string)
    requires ParseStamp(s).Some?
    ensures Valid(ParseStamp(s).value)
    ensures Stamp(ParseStamp(s).value) == s
  {
    var t := ParseStamp(s).value;
    Pad4Inverse(s[..4]);
    Pad2Inverse(s[5..7]);
    Pad2Inverse(s[8..10]);
    Pad2Inverse(s[11..13]);
    Pad2Inverse(s[14..16]);
    Pad2Inverse(s[17..]);
    assert s == s[..4] + [s[4]] + s[5..7] + [s[7]] + s[8..10] + [s[10]] + s[11..13] + [s[13]] + s[14..16] + [s[16]] + s[17..];
  }

  /** Two screenshots taken at different seconds never get the same name. */
  lemma FileNameInjective(t1: Timestamp, t2: Timestamp)
    requires Valid(t1) && Valid(t2) && t1 != t2
    ensures FileName(t1) != FileName(t2)
  {
    FileNameRoundTrip(t1);
    FileNameRoundTrip(t2);
  }

  lemma FileNameRoundTrip(t: Timestamp)
    requires Valid(t)
    ensures |FileName(t)| == 34
    ensures ParseFileName(FileName(t)) == Some(t)
  {
    var name := FileName(t);
    StampRoundTrip(t);
    assert name[..11] == "screenshot_";
    assert name[11..30] == Stamp(t);
    assert name[30..] == ".png";
  }

  /** The day comes before the month: 7 March 2024, 09:05:00 is stamped "2024-07-03_09-05-00". */
  lemma DayBeforeMonth()
    ensures Stamp(Timestamp(2024, 3, 7, 9, 5, 0)) == "2024-07-03_09-05-00"
  {
  }

  lemma {:induction false} BasenameAfterSeparator(a: string, b: string)
    requires a == [] || a[|a| - 1] == '/'
    requires '/' !in b
    ensures Basename(a + b) == b
    decreases |b|
  {
    if b == [] {
      assert a + b == a;
    } else {
      var ab := a + b;
      assert ab[..|ab| - 1] == a + b[..|b| - 1];
      BasenameAfterSeparator(a, b[..|b| - 1]);
      assert b == b[..|b| - 1] + [b[|b| - 1]];
    }
  }

  lemma FileNameHasNoSeparator(t: Timestamp)
    requires Valid(t)
    ensures '/' !in FileName(t)
  {
    var s := Stamp(t);
    assert '/' !in Pad4(t.year);
    assert '/' !in s;
    assert FileName(t) == "screenshot_" + s + ".png";
  }

  /** The saved file lies directly in the configured directory, and its name
      reads back as the capture time. */
  lemma SavePathRoundTrip(directory: string, t: Timestamp)
    requires Valid(t)
    ensures var p := SavePath(directory, t);
      p == directory + Separator(directory) + FileName(t) &&
      ParseFileName(Basename(p)) == Some(t)
  {
    var name := FileName(t);
    FileNameHasNoSeparator(t);
    FileNameRoundTrip(t);
    var p := SavePath(directory, t);
    assert p == (directory + Separator(directory)) + name;
    BasenameAfterSeparator(directory + Separator(directory), name);
  }
}
