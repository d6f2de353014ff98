/** The date/time collaborators the core calls: `datetime_naive_to_local`,
    `datetime_to_new_tz`, `datetime_tz_to_utc`, `format_offset_time`,
    `update_datetime` and `strptime(..., "%Y:%m:%d %H:%M:%S%z")`.
    Their Python sources are not part of this model; each body here is the
    behaviour their call sites rely on, stated on integer seconds. */
module TimeConv {
  import opened Wrappers
  import opened Calendar
  import opened DateFormat

  /** A timezone as the tool uses it: seconds east of UTC and a display name. */
  datatype Timezone = Timezone(offset: int, name: string)

  /** The process's local zone: the UTC offset in effect at each naive wall clock. */
  type LocalZone = int -> int

  /** An offset-aware `datetime`: its wall clock and its UTC offset. */
  datatype Aware = Aware(wall: int, offset: int) {
    /** The moment it denotes, as a UTC wall clock. */
    function Instant(): int {
      wall - offset
    }
  }

  /** The moment a naive local wall clock denotes, as a UTC wall clock. */
  function CaptureInstant(w: int, zone: LocalZone): int {
    w - zone(w)
  }

  /** The wall clock, at offset `off`, of the moment a naive `w` denotes in `zone`. */
  function WallAt(w: int, zone: LocalZone, off: int): int {
    CaptureInstant(w, zone) + off
  }

  /** `datetime.timezone` accepts offsets strictly inside one day. */
  predicate ValidOffset(off: int) {
    -86400 < off < 86400
  }

  /** `datetime_naive_to_local(dt)`: attach the local offset in effect at dt. */
  function NaiveToLocal(w: int, zone: LocalZone): (a: Aware)
    ensures a.wall == w && a.offset == zone(w) && a.Instant() == CaptureInstant(w, zone)
  {
    Aware(w, zone(w))
  }

  /** `datetime_to_new_tz(dt, offset)`: the same moment seen at another offset;
      None where Python raises (offset of a day or more, or a year outside 1..9999). */
  function ToNewTz(a: Aware, off: int): (r: Option<Aware>)
    ensures r.Some? <==> ValidOffset(off) && InRange(a.Instant() + off)
    ensures r.Some? ==> r.value.offset == off && r.value.Instant() == a.Instant()
  {
    if ValidOffset(off) && InRange(a.wall - a.offset + off) then Some(Aware(a.wall - a.offset + off, off)) else None
  }

  /** `datetime_tz_to_utc(dt)`. */
  function ToUtc(a: Aware): (r: Option<Aware>)
    ensures r.Some? <==> InRange(a.Instant())
    ensures r.Some? ==> r.value.offset == 0 && r.value.wall == a.Instant()
  {
    ToNewTz(a, 0)
  }

  /** Re-zoning twice is re-zoning once to the last offset. */
  lemma ToNewTzTwice(a: Aware, o1: int, o2: int)
    requires ToNewTz(a, o1).Some?
    ensures ToNewTz(ToNewTz(a, o1).value, o2) == ToNewTz(a, o2)
  {
  }

  /** Sign character of an offset: '-' west of UTC, '+' otherwise (also for zero). */
  function SignChar(off: int): char {
    if off < 0 then '-' else '+'
  }

  function Abs(x: int): nat {
    if x < 0 then -x else x
  }

  /** `format_offset_time(offset)`: "±HH:MM" as section 4.6.5 of Exif 2.31 lays out OffsetTimeOriginal
      (seconds, if any, are dropped). */
  function FormatOffsetTime(off: int): (r: string)
    requires ValidOffset(off)
    ensures |r| == 6 && r[0] == SignChar(off) && r[3] == ':'
  {
    [SignChar(off)] + Pad2(Abs(off) / 3600) + ":" + Pad2(Abs(off) % 3600 / 60)
  }

  /** "±HHMM", the compact form `strftime("%z")` gives and the catalog reports. */
  function FormatOffsetCompact(off: int): (r: string)
    requires ValidOffset(off)
    ensures |r| == 5 && r[0] == SignChar(off)
  {
    [SignChar(off)] + Pad2(Abs(off) / 3600) + Pad2(Abs(off) % 3600 / 60)
  }

  /** The offset truncated to whole minutes toward zero. */
  function WholeMinutes(off: int): int {
    if off < 0 then -(Abs(off) / 60 * 60) else Abs(off) / 60 * 60
  }

  /** The `%z` directive of `strptime` for the "±HH:MM" and "±HHMM" forms; None for anything
      else, including the forms with seconds or "Z" that strptime also accepts. */
  function ParseOffset(s: string): (r: Option<int>)
    ensures r.Some? ==> ValidOffset(r.value)
  {
    if |s| == 6 && s[3] == ':' then ParseOffsetParts(s[0], s[1..3], s[4..6])
    else if |s| == 5 then ParseOffsetParts(s[0], s[1..3], s[3..5])
    else None
  }

  function ParseOffsetParts(sign: char, hh: string, mm: string): (r: Option<int>)
    requires |hh| == 2 && |mm| == 2
    ensures r.Some? ==> ValidOffset(r.value)
  {
    if sign != '+' && sign != '-' then None
    else match (Number2(hh), Number2(mm))
      case (Some(h), Some(m)) =>
        var mag := h * 3600 + m * 60;
        if m < 60 && mag < 86400 then Some(if sign == '-' then -mag else mag) else None
      case _ => None
  }

  /** Rendering an offset and reading it back gives the offset in whole minutes. */
  lemma ParseFormatOffsetTime(off: int)
    requires ValidOffset(off)
    ensures ParseOffset(FormatOffsetTime(off)) == Some(WholeMinutes(off))
  {
    var s := FormatOffsetTime(off);
    var h, m := Abs(off) / 3600, Abs(off) % 3600 / 60;
    assert s[1..3] == Pad2(h) && s[4..6] == Pad2(m);
    Number2Pad2(h);
    Number2Pad2(m);
    assert h * 3600 + m * 60 == Abs(off) / 60 * 60;
  }

  lemma ParseFormatOffsetCompact(off: int)
    requires ValidOffset(off)
    ensures ParseOffset(FormatOffsetCompact(off)) == Some(WholeMinutes(off))
  {
    var s := FormatOffsetCompact(off);
    var h, m := Abs(off) / 3600, Abs(off) % 3600 / 60;
    assert s[1..3] == Pad2(h) && s[3..5] == Pad2(m);
    Number2Pad2(h);
    Number2Pad2(m);
    assert h * 3600 + m * 60 == Abs(off) / 60 * 60;
  }

  /** For offsets in whole minutes (every real zone's), the round trip is exact. */
  lemma WholeMinutesExact(off: int)
    requires off % 60 == 0
    ensures WholeMinutes(off) == off
  {
  }

  /** `datetime.strptime(s, "%Y:%m:%d %H:%M:%S%z")` on the fixed-width layout with a
      "±HH:MM" or "±HHMM" offset, which is what the tool renders; None for anything else. */
  function ParseExifAware(s: string): (r: Option<Aware>)
    ensures r.Some? ==> InRange(r.value.wall) && ValidOffset(r.value.offset)
  {
    if |s| < 19 then None
    else match (Parse(s[..19], ':'), ParseOffset(s[19..]))
      case (Some(dt), Some(off)) => FromWallToWall(dt); Some(Aware(ToWall(dt), off))
      case _ => None
  }

  /** An Exif date/time followed by a "±HH:MM" offset parses to that wall clock and offset. */
  lemma ParseExifAwareFormat(w: int, off: int)
    requires InRange(w) && ValidOffset(off) && off % 60 == 0
    ensures ParseExifAware(FormatWall(w, ':') + FormatOffsetTime(off)) == Some(Aware(w, off))
  {
    var head, tail := FormatWall(w, ':'), FormatOffsetTime(off);
    var s := head + tail;
    assert s[..19] == head && s[19..] == tail;
    assert Parse(head, ':') == Some(FromWall(w)) by {
      ParseFormat(FromWall(w), ':');
    }
    assert ParseOffset(tail) == Some(off) by {
      ParseFormatOffsetTime(off);
      WholeMinutesExact(off);
    }
    assert ToWall(FromWall(w)) == w by {
      ToWallFromWall(w);
    }
    assert ParseExifAware(s) == Some(Aware(ToWall(FromWall(w)), off));
  }

  /** The arguments of `update_datetime`: an absolute date and/or time-of-day and two deltas in seconds. */
  datatype DateTimeEdit = DateTimeEdit(date: Option<(int, int, int)>, time: Option<int>,
                                       dateDelta: Option<int>, timeDelta: Option<int>)

  /** The date is a real calendar date and the time a second of the day, as Python's types guarantee. */
  predicate ValidEdit(e: DateTimeEdit) {
    && (e.date.Some? ==> ValidDate(e.date.value.0, e.date.value.1, e.date.value.2))
    && (e.time.Some? ==> 0 <= e.time.value < 86400)
  }

  /** `dt.replace(year=, month=, day=)`: the new date, the same time of day. */
  function ReplaceDate(w: int, year: int, month: int, day: int): (r: int)
    requires InRange(w) && ValidDate(year, month, day)
    ensures InRange(r) && r / 86400 == DayNumber(year, month, day) && r % 86400 == w % 86400
  {
    DateOfDayNumber(year, month, day);
    DaySplit(DayNumber(year, month, day), w % 86400);
    DayNumber(year, month, day) * 86400 + w % 86400
  }

  /** `dt.replace(hour=, minute=, second=)`: the same date, the new time of day. */
  function ReplaceTime(w: int, t: int): (r: int)
    requires InRange(w) && 0 <= t < 86400
    ensures InRange(r) && r / 86400 == w / 86400 && r % 86400 == t
  {
    DaySplit(w / 86400, t);
    w / 86400 * 86400 + t
  }

  /** `dt + timedelta`: None where Python raises OverflowError. */
  function AddSeconds(w: int, d: int): (r: Option<int>)
    ensures r.Some? <==> InRange(w + d)
    ensures r.Some? ==> r.value == w + d
  {
    if InRange(w + d) then Some(w + d) else None
  }

  /** `update_datetime(dt, date, time, date_delta, time_delta)`: set the date, then the time,
      then add the date delta, then the time delta; None where Python raises OverflowError. */
  function UpdateDateTime(w: int, e: DateTimeEdit): (r: Option<int>)
    requires InRange(w) && ValidEdit(e)
    ensures r.Some? ==> InRange(r.value)
  {
    var w1 := if e.date.Some? then ReplaceDate(w, e.date.value.0, e.date.value.1, e.date.value.2) else w;
    var w2 := if e.time.Some? then ReplaceTime(w1, e.time.value) else w1;
    var w3 := if e.dateDelta.Some? then AddSeconds(w2, e.dateDelta.value) else Some(w2);
    if w3.None? then None
    else if e.timeDelta.Some? then AddSeconds(w3.value, e.timeDelta.value)
    else w3
  }

  /** With only a time delta, `update_datetime` adds exactly that many seconds. */
  lemma UpdateTimeDeltaOnly(w: int, delta: int)
    requires InRange(w)
    ensures UpdateDateTime(w, DateTimeEdit(None, None, None, Some(delta))) == AddSeconds(w, delta)
    ensures InRange(w + delta) ==> UpdateDateTime(w, DateTimeEdit(None, None, None, Some(delta))) == Some(w + delta)
  {
  }

  /** Two successive deltas are one delta of their sum (when the intermediate time is representable). */
  lemma UpdateDeltasCompose(w: int, a: int, b: int)
    requires InRange(w) && InRange(w + a)
    ensures var first := UpdateDateTime(w, DateTimeEdit(None, None, None, Some(a)));
      first.Some? && UpdateDateTime(first.value, DateTimeEdit(None, None, None, Some(b)))
        == UpdateDateTime(w, DateTimeEdit(None, None, None, Some(a + b)))
  {
  }

  /** Setting only the date gives that date and keeps the time of day. */
  lemma UpdateDateOnly(w: int, year: int, month: int, day: int)
    requires InRange(w) && ValidDate(year, month, day)
    ensures var r := UpdateDateTime(w, DateTimeEdit(Some((year, month, day)), None, None, None));
      && r.Some?
      && FromWall(r.value).year == year && FromWall(r.value).month == month && FromWall(r.value).day == day
      && r.value % 86400 == w % 86400
  {
    DateOfDayNumber(year, month, day);
  }

  /** Setting only the time gives that time of day and keeps the date. */
  lemma UpdateTimeOnly(w: int, t: int)
    requires InRange(w) && 0 <= t < 86400
    ensures var r := UpdateDateTime(w, DateTimeEdit(None, Some(t), None, None));
      && r.Some?
      && r.value % 86400 == t && r.value / 86400 == w / 86400
  {
  }
}
