/** Fixed-width `strftime`/`strptime` for the patterns the tool uses:
    "%Y:%m:%d %H:%M:%S" (metadata tags, separator ':') and
    "%Y-%m-%d %H:%M:%S" (the comparison report, separator '-'). */
module DateFormat {
  import opened Wrappers
  import opened Calendar

  function DigitChar(d: int): char
    requires 0 <= d <= 9
  {
    ('0' as int + d) as char
  }

  function DigitValue(c: char): Option<int> {
    if '0' <= c <= '9' then Some(c as int - '0' as int) else None
  }

  lemma DigitRoundTrip(d: int)
    requires 0 <= d <= 9
    ensures DigitValue(DigitChar(d)) == Some(d)
  {
  }

  /** Two decimal digits, zero padded (`%m`, `%d`, `%H`, `%M`, `%S`). */
  function Pad2(x: int): (r: string)
    requires 0 <= x < 100
    ensures |r| == 2
  {
    [DigitChar(x / 10), DigitChar(x % 10)]
  }

  /** Four decimal digits, zero padded (`%Y` as macOS renders it): the two digits of the
      hundreds, then the two of the rest. */
  function Pad4(x: int): (r: string)
    requires 0 <= x < 10000
    ensures |r| == 4
  {
    Pad2(x / 100) + Pad2(x % 100)
  }

  function Number2(s: string): Option<int>
    requires |s| == 2
  {
    match (DigitValue(s[0]), DigitValue(s[1]))
    case (Some(a), Some(b)) => Some(10 * a + b)
    case _ => None
  }

  function Number4(s: string): Option<int>
    requires |s| == 4
  {
    match (Number2(s[..2]), Number2(s[2..]))
    case (Some(a), Some(b)) => Some(100 * a + b)
    case _ => None
  }

  lemma Number2Pad2(x: int)
    requires 0 <= x < 100
    ensures Number2(Pad2(x)) == Some(x)
  {
    DigitRoundTrip(x / 10);
    DigitRoundTrip(x % 10);
  }

  lemma Pad2Number2(s: string)
    requires |s| == 2 && Number2(s).Some?
    ensures 0 <= Number2(s).value < 100 && Pad2(Number2(s).value) == s
  {
    var a, b := DigitValue(s[0]).value, DigitValue(s[1]).value;
    assert (10 * a + b) / 10 == a && (10 * a + b) % 10 == b;
  }

  lemma HundredsSplit(hi: int, lo: int)
    requires 0 <= hi < 100 && 0 <= lo < 100
    ensures 0 <= 100 * hi + lo < 10000 && (100 * hi + lo) / 100 == hi && (100 * hi + lo) % 100 == lo
  {
  }

  lemma Number4Pad4(x: int)
    requires 0 <= x < 10000
    ensures Number4(Pad4(x)) == Some(x)
  {
    var s := Pad4(x);
    assert s[..2] == Pad2(x / 100) && s[2..] == Pad2(x % 100);
    Number2Pad2(x / 100);
    Number2Pad2(x % 100);
  }

  lemma Pad4Number4(s: string)
    requires |s| == 4 && Number4(s).Some?
    ensures 0 <= Number4(s).value < 10000 && Pad4(Number4(s).value) == s
  {
    var hi, lo := Number2(s[..2]).value, Number2(s[2..]).value;
    Pad2Number2(s[..2]);
    Pad2Number2(s[2..]);
    HundredsSplit(hi, lo);
    assert s == s[..2] + s[2..];
  }

  /** `dt.strftime("%Y<sep>%m<sep>%d %H:%M:%S")`. */
  function Format(dt: DateTime, sep: char): (r: string)
    requires Valid(dt)
    ensures |r| == 19
  {
    FormatDate(dt, sep) + " " + FormatTime(dt)
  }

  /** The date half, `strftime("%Y<sep>%m<sep>%d")`. */
  function FormatDate(dt: DateTime, sep: char): (r: string)
    requires Valid(dt)
    ensures |r| == 10
  {
    Pad4(dt.year) + [sep] + Pad2(dt.month) + [sep] + Pad2(dt.day)
  }

  /** The time half, `strftime("%H:%M:%S")`. */
  function FormatTime(dt: DateTime): (r: string)
    requires Valid(dt)
    ensures |r| == 8
  {
    Pad2(dt.hour) + ":" + Pad2(dt.minute) + ":" + Pad2(dt.second)
  }

  /** The full rendering is the date, one space, and the time. */
  lemma FormatHalves(dt: DateTime, sep: char)
    requires Valid(dt)
    ensures Format(dt, sep)[..10] == FormatDate(dt, sep)
    ensures Format(dt, sep)[10] == ' '
    ensures Format(dt, sep)[11..] == FormatTime(dt)
  {
  }

  /** `strftime` of a wall clock. */
  function FormatWall(w: int, sep: char): (r: string)
    requires InRange(w)
    ensures |r| == 19
  {
    Format(FromWall(w), sep)
  }

  /** Rendering the wall clock of a broken-down time renders that time. */
  lemma FormatWallToWall(dt: DateTime, sep: char)
    requires Valid(dt)
    ensures InRange(ToWall(dt)) && FormatWall(ToWall(dt), sep) == Format(dt, sep)
  {
    FromWallToWall(dt);
  }

  /** `datetime.strptime(s, "%Y<sep>%m<sep>%d %H:%M:%S")` restricted to the fixed-width,
      zero-padded layout that `strftime` renders: a string in that layout that is not a valid
      date and time gives None. strptime also accepts fields without leading zeros; this
      parser rejects them, and the tool only parses strings it rendered itself. */
  function Parse(s: string, sep: char): (r: Option<DateTime>)
  {
    if |s| != 19 || s[4] != sep || s[7] != sep || s[10] != ' ' || s[13] != ':' || s[16] != ':' then None
    else
      match (Number4(s[0..4]), Number2(s[5..7]), Number2(s[8..10]), Number2(s[11..13]), Number2(s[14..16]), Number2(s[17..19]))
      case (Some(y), Some(mo), Some(d), Some(h), Some(mi), Some(sec)) =>
        var dt := DateTime(y, mo, d, h, mi, sec);
        if Valid(dt) then Some(dt) else None
      case _ => None
  }

  /** Parsing a rendering gives the broken-down time back. */
  lemma {:induction false} ParseFormat(dt: DateTime, sep: char)
    requires Valid(dt)
    ensures Parse(Format(dt, sep), sep) == Some(dt)
  {
    var s := Format(dt, sep);
    FormatHalves(dt, sep);
    assert s[0..4] == Pad4(dt.year) && s[5..7] == Pad2(dt.month) && s[8..10] == Pad2(dt.day);
    assert s[11..13] == Pad2(dt.hour) && s[14..16] == Pad2(dt.minute) && s[17..19] == Pad2(dt.second);
    Number4Pad4(dt.year);
    Number2Pad2(dt.month);
    Number2Pad2(dt.day);
    Number2Pad2(dt.hour);
    Number2Pad2(dt.minute);
    Number2Pad2(dt.second);
  }

  /** Whatever parses is exactly the rendering of what it parses to. */
  lemma {:induction false} FormatParse(s: string, sep: char)
    requires Parse(s, sep).Some?
    ensures Valid(Parse(s, sep).value) && Format(Parse(s, sep).value, sep) == s
  {
    var dt := Parse(s, sep).value;
    Pad4Number4(s[0..4]);
    Pad2Number2(s[5..7]);
    Pad2Number2(s[8..10]);
    Pad2Number2(s[11..13]);
    Pad2Number2(s[14..16]);
    Pad2Number2(s[17..19]);
    assert Format(dt, sep) == s;
  }

  /** Distinct wall clocks render differently: the rendering loses nothing. */
  lemma FormatWallInjective(w1: int, w2: int, sep: char)
    requires InRange(w1) && InRange(w2) && FormatWall(w1, sep) == FormatWall(w2, sep)
    ensures w1 == w2
  {
    ParseFormat(FromWall(w1), sep);
    ParseFormat(FromWall(w2), sep);
    ToWallFromWall(w1);
    ToWallFromWall(w2);
  }
}
