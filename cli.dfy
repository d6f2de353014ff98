/** photos_time_warp/cli.py: the option constraints of the `cli` command, the two date
    adjustments it makes itself (`update_photo_date_time`, `update_photo_time_for_new_timezone`),
    and the per-photo pipeline that runs them before the catalog write and the metadata push. */
module Cli {
  import opened Wrappers
  import opened Calendar
  import opened TimeConv
  import opened Utils
  import opened Photos
  import PhotoTz
  import ExifUpdate
  import CompareExif

  /** The options that decide what happens to each photo; deltas are in seconds, `date` is a
      calendar date and `time` a second of the day. */
  datatype Options = Options(date: Option<(int, int, int)>, dateDelta: Option<int>,
                             time: Option<int>, timeDelta: Option<int>,
                             timezone: Option<Timezone>, inspect: bool, compareExif: bool,
                             matchTime: bool, exiftool: bool)

  datatype ConstraintError =
    | NothingToChange           // RequireAtLeast(1) on the "which properties to change" group
    | DateWithDateDelta         // mutually_exclusive(date, date_delta)
    | TimeWithTimeDelta         // mutually_exclusive(time, time_delta)
    | MatchTimeWithoutTimezone  // If("match_time", then=RequireExactly(1)) on [timezone]

  /** The constraints the command declares, one entry per violated constraint, in declaration order. */
  function Violations(o: Options): (errs: seq<ConstraintError>)
    ensures NothingToChange in errs <==>
      !(o.date.Some? || o.dateDelta.Some? || o.time.Some? || o.timeDelta.Some? || o.timezone.Some? || o.inspect || o.compareExif)
    ensures DateWithDateDelta in errs <==> o.date.Some? && o.dateDelta.Some?
    ensures TimeWithTimeDelta in errs <==> o.time.Some? && o.timeDelta.Some?
    ensures MatchTimeWithoutTimezone in errs <==> o.matchTime && o.timezone.None?
  {
    var given := o.date.Some? || o.dateDelta.Some? || o.time.Some? || o.timeDelta.Some? || o.timezone.Some? || o.inspect || o.compareExif;
    (if !given then [NothingToChange] else [])
    + (if o.date.Some? && o.dateDelta.Some? then [DateWithDateDelta] else [])
    + (if o.time.Some? && o.timeDelta.Some? then [TimeWithTimeDelta] else [])
    + (if o.matchTime && o.timezone.None? then [MatchTimeWithoutTimezone] else [])
  }

  /** The command body runs only when no constraint is violated. */
  predicate Accepted(o: Options) {
    Violations(o) == []
  }

  /** The edit `update_datetime` receives. */
  function EditOf(o: Options): DateTimeEdit {
    DateTimeEdit(o.date, o.time, o.dateDelta, o.timeDelta)
  }

  /** `any([date, time, date_delta, time_delta])`: a date or a time is always truthy, a
      timedelta only when it is not zero. */
  predicate EditRequested(o: Options) {
    || o.date.Some? || o.time.Some?
    || (o.dateDelta.Some? && o.dateDelta.value != 0)
    || (o.timeDelta.Some? && o.timeDelta.value != 0)
  }

  /** Skipping the edit when no option is truthy loses nothing: zero deltas would leave the
      date as it is. */
  lemma SkippedEditIsIdentity(o: Options, w: int)
    requires InRange(w) && ValidEdit(EditOf(o)) && !EditRequested(o)
    ensures UpdateDateTime(w, EditOf(o)) == Some(w)
  {
  }

  /** What `cli` passes to `verbose`, `print_warning` and `print_error` for one photo. */
  datatype Event =
    | DateUpdated(filename: string, uuid: string, from: int, to: int)
    | DateUnchanged(filename: string, uuid: string)
    | TimeMatched(filename: string, uuid: string, from: int, newTimezone: Timezone)
    | AlreadyMatched(filename: string, uuid: string, newTimezone: Timezone)
    | ExifWarning(message: string)
    | ExifError(message: string)

  /** The exceptions that end the run. */
  datatype Abort =
    | DateOverflow(uuid: string)            // `update_datetime` raised OverflowError
    | TimezoneUnknown(uuid: string)         // `get_timezone` found nothing for the photo
    | ExifFailed(error: ExifUpdate.ExifError)

  /** A photo's new date and the message about it. */
  datatype Change = Change(date: int, event: Event)

  /** `update_photo_date_time`: the edited date, assigned only when it differs. */
  function DateEdited(filename: string, uuid: string, date: int, edit: DateTimeEdit): (r: Result<Change, Abort>)
    requires InRange(date) && ValidEdit(edit)
    ensures r.Err? <==> UpdateDateTime(date, edit).None?
    ensures r.Err? ==> r.error == DateOverflow(uuid)
    ensures r.Ok? ==> InRange(r.value.date) && r.value.date == UpdateDateTime(date, edit).value
    ensures r.Ok? ==> (r.value.date != date <==> r.value.event == DateUpdated(filename, uuid, date, r.value.date))
    ensures r.Ok? && r.value.date == date ==> r.value.event == DateUnchanged(filename, uuid)
  {
    match UpdateDateTime(date, edit)
    case None => Err(DateOverflow(uuid))
    case Some(d) => Ok(Change(d, if d != date then DateUpdated(filename, uuid, date, d) else DateUnchanged(filename, uuid)))
  }

  /** The date `update_photo_time_for_new_timezone` computes: shifted by old − new offset, so
      that date + new offset is the old date + old offset; None where the shift overflows. */
  function MatchedDate(date: int, oldOffset: int, newOffset: int): (r: Option<int>)
    requires InRange(date)
    ensures r.Some? <==> InRange(date + (oldOffset - newOffset))
    ensures r.Some? ==> InRange(r.value) && r.value + newOffset == date + oldOffset
  {
    UpdateTimeDeltaOnly(date, oldOffset - newOffset);
    UpdateDateTime(date, DateTimeEdit(None, None, None, Some(oldOffset - newOffset)))
  }

  /** `update_photo_time_for_new_timezone`, given what `get_timezone` reports for the photo. */
  function MatchAdjusted(filename: string, uuid: string, date: int, stored: Option<Timezone>, newTz: Timezone)
    : (r: Result<Change, Abort>)
    requires InRange(date)
    ensures stored.None? ==> r == Err(TimezoneUnknown(uuid))
    ensures r.Ok? ==> stored.Some? && InRange(r.value.date)
    ensures r.Ok? ==> (r.value.date != date <==> r.value.event == TimeMatched(filename, uuid, date, newTz))
    ensures r.Ok? && r.value.date == date ==> r.value.event == AlreadyMatched(filename, uuid, newTz)
  {
    match stored
    case None => Err(TimezoneUnknown(uuid))
    case Some(oldTz) =>
      match MatchedDate(date, oldTz.offset, newTz.offset)
      case None => Err(DateOverflow(uuid))
      case Some(d) =>
        Ok(Change(d, if d != date then TimeMatched(filename, uuid, date, newTz) else AlreadyMatched(filename, uuid, newTz)))
  }

  /** The match adjustment moves the date by exactly old − new offset, or raises where that overflows. */
  lemma MatchShift(filename: string, uuid: string, date: int, oldTz: Timezone, newTz: Timezone)
    requires InRange(date)
    ensures var r := MatchAdjusted(filename, uuid, date, Some(oldTz), newTz);
      && (r.Ok? <==> InRange(date + (oldTz.offset - newTz.offset)))
      && (r.Err? ==> r.error == DateOverflow(uuid))
      && (r.Ok? ==> r.value.date == date + oldTz.offset - newTz.offset)
  {
  }

  /** A date moved by old − new offset shows, at the new offset, the wall clock the old date
      showed at the old one, when the local zone has one offset at both dates. */
  lemma MatchedWallClock(date: int, d: int, zone: LocalZone, oldOffset: int, newOffset: int)
    requires d == date + (oldOffset - newOffset) && zone(d) == zone(date)
    ensures WallAt(d, zone, newOffset) == WallAt(date, zone, oldOffset)
  {
  }

  /** With the stored offset already equal to the new one there is nothing to move, and the
      photo's date is not assigned. */
  lemma MatchSameOffsetSkips(filename: string, uuid: string, date: int, oldTz: Timezone, newTz: Timezone)
    requires InRange(date) && oldTz.offset == newTz.offset
    ensures MatchAdjusted(filename, uuid, date, Some(oldTz), newTz) == Ok(Change(date, AlreadyMatched(filename, uuid, newTz)))
  {
  }

  type Metadata = map<string, map<string, string>>

  /** The tags a file carries now; none for a file not seen yet. */
  function FileTags(md: Metadata, path: string): map<string, string> {
    if path in md then md[path] else map[]
  }

  /** What `cli` prints after ExifTool has run: the warning and the error, when not empty. */
  function ReportEvents(report: (string, string)): (events: seq<Event>)
    ensures (report.0 != "" ==> ExifWarning(report.0) in events) && (report.1 != "" ==> ExifError(report.1) in events)
    ensures forall e :: e in events ==> e == ExifWarning(report.0) || e == ExifError(report.1)
    ensures report == ("", "") ==> events == []
    ensures report.0 != "" && report.1 != "" ==> events == [ExifWarning(report.0), ExifError(report.1)]
  {
    (if report.0 != "" then [ExifWarning(report.0)] else []) + (if report.1 != "" then [ExifError(report.1)] else [])
  }

  /** The metadata after the push and what is printed about it. */
  datatype Pushed = Pushed(files: Metadata, events: seq<Event>)

  /** `exif_updater.update_photo(p, ...)` followed by the warning/error printing; `exifDb` is the
      library database the updater reads, `report` what ExifTool reports. */
  function ExifPushed(exifDb: map<string, ExifUpdate.PhotoInfo>, uuid: string, date: int, zone: LocalZone,
                      timezone: Option<Timezone>, md: Metadata, report: (string, string)): (r: Result<Pushed, Abort>)
    requires InRange(date)
    ensures uuid !in exifDb ==> r == Err(ExifFailed(ExifUpdate.PhotoNotFound(uuid)))
    ensures uuid in exifDb && exifDb[uuid].path == [] ==> r == Ok(Pushed(md, []))
    ensures r.Ok? ==> forall p :: p in md ==> p in r.value.files
    ensures r.Ok? ==> forall p :: p in r.value.files && p != exifDb[uuid].path ==> p in md && r.value.files[p] == md[p]
    ensures uuid in exifDb && exifDb[uuid].path != [] ==>
      var tags := ExifUpdate.ExifTags(exifDb[uuid], date, zone, timezone);
      && (r.Err? <==> tags.None?)
      && (r.Err? ==> r.error == ExifFailed(ExifUpdate.DateOutOfRange))
      && (r.Ok? ==> r.value.events == ReportEvents(report) && exifDb[uuid].path in r.value.files
                    && forall i :: 0 <= i < |tags.value| ==>
                         tags.value[i].0 in r.value.files[exifDb[uuid].path]
                         && r.value.files[exifDb[uuid].path][tags.value[i].0] == tags.value[i].1)
  {
    if uuid !in exifDb then Err(ExifFailed(ExifUpdate.PhotoNotFound(uuid)))
    else
      var info := exifDb[uuid];
      if info.path == [] then Ok(Pushed(md, []))
      else match ExifUpdate.ExifTags(info, date, zone, timezone)
        case None => Err(ExifFailed(ExifUpdate.DateOutOfRange))
        case Some(tags) =>
          ExifUpdate.ExifTagsDistinct(info, date, zone, timezone);
          ExifUpdate.ApplyTagsValues(FileTags(md, info.path), tags);
          Ok(Pushed(md[info.path := ExifUpdate.ApplyTags(FileTags(md, info.path), tags)], ReportEvents(report)))
  }

  /** Where one photo's pass leaves things: its date, the catalog, the files' metadata, the
      messages, and the exception that ended the run, if one did. */
  datatype PhotoPass = PhotoPass(date: int, db: PhotoTz.DbState, files: Metadata, events: seq<Event>,
                                 aborted: Option<Abort>)

  /** The date/time edit, run when some edit option is truthy. */
  function EditStage(o: Options, uuid: string, filename: string, s: PhotoPass): (r: PhotoPass)
    requires InRange(s.date) && ValidEdit(EditOf(o))
    ensures InRange(r.date) && r.db == s.db && r.files == s.files
    ensures s.aborted.Some? ==> r == s
  {
    if s.aborted.Some? || !EditRequested(o) then s
    else match DateEdited(filename, uuid, s.date, EditOf(o))
      case Err(e) => s.(aborted := Some(e))
      case Ok(c) => s.(date := c.date, events := s.events + [c.event])
  }

  /** The match adjustment, run under `--match-time`; it reads the catalog as it stands. */
  function MatchStage(o: Options, table: string, uuid: string, filename: string, s: PhotoPass): (r: PhotoPass)
    requires InRange(s.date) && (o.matchTime ==> o.timezone.Some?)
    ensures InRange(r.date) && r.db == s.db && r.files == s.files
    ensures s.aborted.Some? ==> r == s
  {
    if s.aborted.Some? || !o.matchTime then s
    else match MatchAdjusted(filename, uuid, s.date, PhotoTz.StoredTimezone(s.db, table, uuid), o.timezone.value)
      case Err(e) => s.(aborted := Some(e))
      case Ok(c) => s.(date := c.date, events := s.events + [c.event])
  }

  /** The catalog write `tz_updater.update_photo(p)`, run under `--timezone`; it never raises. */
  function WriteStage(o: Options, table: string, uuid: string, s: PhotoPass): (r: PhotoPass)
    ensures r == (if s.aborted.None? && o.timezone.Some? then s.(db := r.db) else s)
    ensures r.db.tables == s.db.tables
  {
    if s.aborted.Some? || o.timezone.None? then s
    else s.(db := PhotoTz.RetrySpec(s.db, table, uuid, o.timezone.value.offset, o.timezone.value.name, PhotoTz.MaxAttempts).st)
  }

  /** The metadata push, run under `--exiftool`. */
  function PushStage(o: Options, zone: LocalZone, exifDb: map<string, ExifUpdate.PhotoInfo>, uuid: string,
                     report: (string, string), s: PhotoPass): (r: PhotoPass)
    requires InRange(s.date)
    ensures r.date == s.date && r.db == s.db
    ensures s.aborted.Some? ==> r == s
  {
    if s.aborted.Some? || !o.exiftool then s
    else match ExifPushed(exifDb, uuid, s.date, zone, o.timezone, s.files, report)
      case Err(e) => s.(aborted := Some(e))
      case Ok(p) => s.(files := p.files, events := s.events + p.events)
  }

  /** The body of the `for p in bar` loop: the date/time edit, the match adjustment, the catalog
      write, the metadata push, in that order; an exception skips the steps after it.
      `table` is the asset table the catalog is read and written through. */
  function PhotoSpec(o: Options, zone: LocalZone, table: string, exifDb: map<string, ExifUpdate.PhotoInfo>,
                     uuid: string, filename: string, report: (string, string),
                     date: int, st: PhotoTz.DbState, md: Metadata): (r: PhotoPass)
    requires InRange(date) && ValidEdit(EditOf(o)) && (o.matchTime ==> o.timezone.Some?)
    ensures InRange(r.date)
    ensures r.db.tables == st.tables
  {
    var edited := EditStage(o, uuid, filename, PhotoPass(date, st, md, [], None));
    var matched := MatchStage(o, table, uuid, filename, edited);
    PushStage(o, zone, exifDb, uuid, report, WriteStage(o, table, uuid, matched))
  }

  /** An exception in the edit or the match step skips the catalog write and the push: the pass
      ends with the catalog and the files as they were, and an edit that raises leaves the date
      alone. */
  lemma AbortSkipsLaterSteps(o: Options, zone: LocalZone, table: string, exifDb: map<string, ExifUpdate.PhotoInfo>,
                             uuid: string, filename: string, report: (string, string),
                             date: int, st: PhotoTz.DbState, md: Metadata)
    requires InRange(date) && ValidEdit(EditOf(o)) && (o.matchTime ==> o.timezone.Some?)
    ensures var r := PhotoSpec(o, zone, table, exifDb, uuid, filename, report, date, st, md);
      var edited := EditStage(o, uuid, filename, PhotoPass(date, st, md, [], None));
      var matched := MatchStage(o, table, uuid, filename, edited);
      && (edited.aborted.Some? ==> r == edited && r.date == date && r.events == [])
      && (matched.aborted.Some? ==> r == matched && r.db == st && r.files == md)
  {
  }

  /** A photo as the loop meets it. */
  datatype Item = Item(uuid: string, filename: string, date: int)

  /** The whole run so far: the dates of the photos handled (in order), the catalog, the
      metadata, everything printed, and the exception that ended it, if any. */
  datatype Batch = Batch(dates: seq<int>, db: PhotoTz.DbState, files: Metadata, events: seq<Event>,
                         aborted: Option<Abort>)

  /** The loop over the selection from `b` on: photo after photo until the list ends or an
      exception ends the run. */
  function Run(o: Options, zone: LocalZone, table: string, exifDb: map<string, ExifUpdate.PhotoInfo>,
               items: seq<Item>, reports: seq<(string, string)>, i: nat, b: Batch): (r: Batch)
    requires |reports| == |items| && i <= |items| && ValidEdit(EditOf(o)) && (o.matchTime ==> o.timezone.Some?)
    requires forall j :: 0 <= j < |items| ==> InRange(items[j].date)
    ensures |b.dates| <= |r.dates| <= |b.dates| + |items| - i
    ensures r.aborted.None? ==> |r.dates| == |b.dates| + |items| - i
    ensures b.aborted.Some? ==> r == b
    decreases |items| - i
  {
    if i == |items| || b.aborted.Some? then b
    else
      var s := PhotoSpec(o, zone, table, exifDb, items[i].uuid, items[i].filename, reports[i], items[i].date, b.db, b.files);
      Run(o, zone, table, exifDb, items, reports, i + 1, Next(b, s))
  }

  /** The run after one more photo, whose pass was `s`. */
  function Next(b: Batch, s: PhotoPass): Batch {
    Batch(b.dates + [s.date], s.db, s.files, b.events + s.events, s.aborted)
  }

  /** One turn of the loop: a run that has not stopped goes on from the pass of photo `i`. */
  lemma RunStep(o: Options, zone: LocalZone, table: string, exifDb: map<string, ExifUpdate.PhotoInfo>,
                items: seq<Item>, reports: seq<(string, string)>, i: nat, b: Batch)
    requires |reports| == |items| && i < |items| && ValidEdit(EditOf(o)) && (o.matchTime ==> o.timezone.Some?)
    requires forall j :: 0 <= j < |items| ==> InRange(items[j].date)
    requires b.aborted.None?
    ensures Run(o, zone, table, exifDb, items, reports, i, b)
         == Run(o, zone, table, exifDb, items, reports, i + 1,
                Next(b, PhotoSpec(o, zone, table, exifDb, items[i].uuid, items[i].filename, reports[i], items[i].date, b.db, b.files)))
  {
  }

  /** The photos' uuids, filenames and dates. */
  function Items(photos: seq<Photo>): (items: seq<Item>)
    reads set p | p in photos
    ensures |items| == |photos|
    ensures forall i :: 0 <= i < |photos| ==> items[i] == Item(photos[i].uuid, photos[i].filename, photos[i].date)
  {
    seq(|photos|, i reads set p | p in photos requires 0 <= i < |photos| => Item(photos[i].uuid, photos[i].filename, photos[i].date))
  }

  /** `PhotoTimeZone(library_path).get_timezone(photo)`: the offset and name stored for the photo. */
  method GetTimezone(db: PhotoTz.CatalogDb, table: string, uuid: string) returns (r: Option<Timezone>)
    ensures r == PhotoTz.StoredTimezone(db.State(), table, uuid)
  {
    r := PhotoTz.StoredTimezone(PhotoTz.DbState(db.attrs, db.tables, db.busy), table, uuid);
  }

  /** `update_photo_date_time(photo, date, time, date_delta, time_delta)`. */
  method UpdatePhotoDateTime(photo: Photo, edit: DateTimeEdit) returns (r: Result<Event, Abort>)
    requires photo.Valid() && ValidEdit(edit)
    modifies photo
    ensures photo.Valid()
    ensures match DateEdited(photo.filename, photo.uuid, old(photo.date), edit)
      case Err(e) => r == Err(e) && photo.date == old(photo.date)
      case Ok(c) => r == Ok(c.event) && photo.date == c.date
  {
    var newDate := UpdateDateTime(photo.date, edit);
    if newDate.None? {
      return Err(DateOverflow(photo.uuid));
    }
    if newDate.value != photo.date {
      var from := photo.date;
      photo.date := newDate.value;
      r := Ok(DateUpdated(photo.filename, photo.uuid, from, newDate.value));
    } else {
      r := Ok(DateUnchanged(photo.filename, photo.uuid));
    }
  }

  /** `update_photo_time_for_new_timezone(library_path, photo, new_timezone)`: reads the stored
      offset, then moves the date by old − new offset. */
  method UpdatePhotoTimeForNewTimezone(photo: Photo, newTz: Timezone, db: PhotoTz.CatalogDb, table: string)
    returns (r: Result<Event, Abort>)
    requires photo.Valid()
    modifies photo
    ensures photo.Valid()
    ensures match MatchAdjusted(photo.filename, photo.uuid, old(photo.date), PhotoTz.StoredTimezone(db.State(), table, photo.uuid), newTz)
      case Err(e) => r == Err(e) && photo.date == old(photo.date)
      case Ok(c) => r == Ok(c.event) && photo.date == c.date
  {
    var oldTz := GetTimezone(db, table, photo.uuid);
    if oldTz.None? {
      return Err(TimezoneUnknown(photo.uuid));
    }
    var delta := oldTz.value.offset - newTz.offset;
    var newDate := UpdateDateTime(photo.date, DateTimeEdit(None, None, None, Some(delta)));
    if newDate.None? {
      return Err(DateOverflow(photo.uuid));
    }
    if photo.date != newDate.value {
      var from := photo.date;
      photo.date := newDate.value;
      r := Ok(TimeMatched(photo.filename, photo.uuid, from, newTz));
    } else {
      r := Ok(AlreadyMatched(photo.filename, photo.uuid, newTz));
    }
  }

  /** The metadata step of the loop: `exif_updater.update_photo`, then the warning and the error. */
  method PushMetadata(photo: Photo, o: Options, zone: LocalZone, exifUpdater: ExifUpdate.ExifUpdater,
                      files: ExifUpdate.MediaFiles, report: (string, string))
    returns (r: Result<seq<Event>, Abort>)
    requires photo.Valid()
    modifies files, exifUpdater
    ensures match ExifPushed(exifUpdater.db, photo.uuid, photo.date, zone, o.timezone, old(files.metadata), report)
      case Err(e) => r == Err(e) && files.metadata == old(files.metadata)
      case Ok(p) => r == Ok(p.events) && files.metadata == p.files
  {
    var updateTime := o.time.Some? || (o.timeDelta.Some? && o.timeDelta.value != 0);
    var updateDate := o.date.Some? || (o.dateDelta.Some? && o.dateDelta.value != 0);
    var res := exifUpdater.UpdatePhoto(photo, updateTime, updateDate, o.timezone, zone, files, report);
    match res
    case Err(e) => r := Err(ExifFailed(e));
    case Ok(pair) => r := Ok(ReportEvents(pair));
  }

  /** The first half of a turn: the date/time edit, then the match adjustment. */
  method EditAndMatch(o: Options, table: string, photo: Photo, db: PhotoTz.CatalogDb,
                      ghost item: Item, ghost st: PhotoTz.DbState, ghost md: Metadata)
    returns (events: seq<Event>, aborted: Option<Abort>)
    requires item == Item(photo.uuid, photo.filename, photo.date) && st == db.State()
    requires InRange(item.date) && ValidEdit(EditOf(o)) && (o.matchTime ==> o.timezone.Some?)
    modifies photo
    ensures var s := MatchStage(o, table, item.uuid, item.filename,
                                EditStage(o, item.uuid, item.filename, PhotoPass(item.date, st, md, [], None)));
      && photo.date == s.date && events == s.events && aborted == s.aborted
  {
    ghost var s := EditStage(o, item.uuid, item.filename, PhotoPass(item.date, st, md, [], None));
    events, aborted := [], None;
    if EditRequested(o) {
      var r := UpdatePhotoDateTime(photo, EditOf(o));
      if r.Err? {
        return events, Some(r.error);
      }
      events := events + [r.value];
    }
    assert photo.date == s.date && events == s.events && s.aborted.None?;
    if o.matchTime {
      var r := UpdatePhotoTimeForNewTimezone(photo, o.timezone.value, db, table);
      if r.Err? {
        return events, Some(r.error);
      }
      events := events + [r.value];
    }
  }

  /** The second half of a turn: the catalog write, then the metadata push; `s` is where the
      first half left things, `events` the messages printed so far. */
  method WriteAndPush(o: Options, zone: LocalZone, table: string, photo: Photo, report: (string, string),
                      db: PhotoTz.CatalogDb, tzUpdater: PhotoTz.PhotoTimeZoneUpdater?,
                      exifUpdater: ExifUpdate.ExifUpdater?, exifDb: map<string, ExifUpdate.PhotoInfo>,
                      files: ExifUpdate.MediaFiles, events: seq<Event>, ghost s: PhotoPass)
    returns (events': seq<Event>, aborted: Option<Abort>)
    requires s.aborted.None? && InRange(s.date) && photo.Valid()
    requires photo.date == s.date && db.State() == s.db && files.metadata == s.files && events == s.events
    requires o.timezone.Some? ==>
      (tzUpdater != null && tzUpdater.assetTable == table
       && tzUpdater.tzOffset == o.timezone.value.offset && tzUpdater.tzName == o.timezone.value.name)
    requires o.exiftool ==> exifUpdater != null && exifUpdater.db == exifDb
    modifies db, files, tzUpdater, exifUpdater
    ensures var r := PushStage(o, zone, exifDb, photo.uuid, report, WriteStage(o, table, photo.uuid, s));
      && db.State() == r.db && files.metadata == r.files && events' == r.events && aborted == r.aborted
  {
    ghost var w := WriteStage(o, table, photo.uuid, s);
    events', aborted := events, None;
    if o.timezone.Some? {
      var written := tzUpdater.UpdatePhoto(photo, db);
    }
    assert db.State() == w.db && files.metadata == w.files;
    if o.exiftool {
      var r := PushMetadata(photo, o, zone, exifUpdater, files, report);
      if r.Err? {
        return events', Some(r.error);
      }
      events' := events' + r.value;
    }
  }

  /** One turn of the loop for photo `photo`. */
  method ProcessPhoto(o: Options, zone: LocalZone, table: string, photo: Photo, report: (string, string),
                      db: PhotoTz.CatalogDb, tzUpdater: PhotoTz.PhotoTimeZoneUpdater?,
                      exifUpdater: ExifUpdate.ExifUpdater?, exifDb: map<string, ExifUpdate.PhotoInfo>,
                      files: ExifUpdate.MediaFiles, ghost item: Item, ghost st: PhotoTz.DbState, ghost md: Metadata)
    returns (events: seq<Event>, aborted: Option<Abort>)
    requires item == Item(photo.uuid, photo.filename, photo.date) && st == db.State() && md == files.metadata
    requires InRange(item.date) && ValidEdit(EditOf(o)) && (o.matchTime ==> o.timezone.Some?)
    requires o.timezone.Some? ==>
      (tzUpdater != null && tzUpdater.assetTable == table
       && tzUpdater.tzOffset == o.timezone.value.offset && tzUpdater.tzName == o.timezone.value.name)
    requires o.exiftool ==> exifUpdater != null && exifUpdater.db == exifDb
    modifies photo, db, files, tzUpdater, exifUpdater
    ensures var s := PhotoSpec(o, zone, table, exifDb, item.uuid, item.filename, report, item.date, st, md);
      && photo.date == s.date && db.State() == s.db && files.metadata == s.files
      && events == s.events && aborted == s.aborted
  {
    ghost var s := MatchStage(o, table, item.uuid, item.filename,
                              EditStage(o, item.uuid, item.filename, PhotoPass(item.date, st, md, [], None)));
    events, aborted := EditAndMatch(o, table, photo, db, item, st, md);
    if aborted.Some? {
      return;
    }
    events, aborted := WriteAndPush(o, zone, table, photo, report, db, tzUpdater, exifUpdater, exifDb, files, events, s);
  }

  /** One turn of the `for p in bar` loop: photo `i`'s pass advances the run by one step. */
  method ProcessTurn(o: Options, zone: LocalZone, table: string, photos: seq<Photo>, i: nat,
                     reports: seq<(string, string)>, db: PhotoTz.CatalogDb,
                     tzUpdater: PhotoTz.PhotoTimeZoneUpdater?, exifUpdater: ExifUpdate.ExifUpdater?,
                     exifDb: map<string, ExifUpdate.PhotoInfo>, files: ExifUpdate.MediaFiles,
                     ghost items: seq<Item>, ghost b: Batch)
    returns (events: seq<Event>, aborted: Option<Abort>, ghost b': Batch)
    requires |items| == |photos| == |reports| && i < |items| && |b.dates| == i
    requires forall j, k :: 0 <= j < k < |photos| ==> photos[j] != photos[k]
    requires items[i] == Item(photos[i].uuid, photos[i].filename, photos[i].date)
    requires forall j :: 0 <= j < |items| ==> InRange(items[j].date)
    requires b.aborted.None? && b.db == db.State() && b.files == files.metadata
    requires forall j :: 0 <= j < i ==> photos[j].date == b.dates[j]
    requires forall j :: i <= j < |photos| ==> photos[j].date == items[j].date
    requires ValidEdit(EditOf(o)) && (o.matchTime ==> o.timezone.Some?)
    requires o.timezone.Some? ==>
      (tzUpdater != null && tzUpdater.assetTable == table
       && tzUpdater.tzOffset == o.timezone.value.offset && tzUpdater.tzName == o.timezone.value.name)
    requires o.exiftool ==> exifUpdater != null && exifUpdater.db == exifDb
    modifies photos[i], db, files, tzUpdater, exifUpdater
    ensures b' == Next(b, PhotoSpec(o, zone, table, exifDb, items[i].uuid, items[i].filename, reports[i], items[i].date, b.db, b.files))
    ensures b' == Batch(b'.dates, db.State(), files.metadata, b.events + events, aborted)
    ensures forall j :: 0 <= j <= i ==> photos[j].date == b'.dates[j]
    ensures forall j :: i < j < |photos| ==> photos[j].date == items[j].date
  {
    ghost var s := PhotoSpec(o, zone, table, exifDb, items[i].uuid, items[i].filename, reports[i], items[i].date, b.db, b.files);
    var photo := photos[i];
    events, aborted := ProcessPhoto(o, zone, table, photo, reports[i], db, tzUpdater, exifUpdater, exifDb, files,
                                    items[i], b.db, b.files);
    assert photo.date == s.date && db.State() == s.db && files.metadata == s.files && events == s.events && aborted == s.aborted;
    b' := Batch(b.dates + [photo.date], db.State(), files.metadata, b.events + events, aborted);
    forall j | 0 <= j < |photos| && j != i
      ensures photos[j].date == old(photos[j].date)
    {
      assert photos[j] != photo;
    }
    assert b'.dates[i] == photo.date;
  }

  /** The `for p in bar` loop over the selection. It stops at the first exception; the photos
      before it, and the steps of that photo before it, keep their changes. */
  method ProcessPhotos(o: Options, zone: LocalZone, table: string, photos: seq<Photo>,
                       reports: seq<(string, string)>, db: PhotoTz.CatalogDb,
                       tzUpdater: PhotoTz.PhotoTimeZoneUpdater?, exifUpdater: ExifUpdate.ExifUpdater?,
                       exifDb: map<string, ExifUpdate.PhotoInfo>, files: ExifUpdate.MediaFiles, ghost items: seq<Item>)
    returns (events: seq<Event>, aborted: Option<Abort>)
    requires items == Items(photos) && |reports| == |photos|
    requires forall i, j :: 0 <= i < j < |photos| ==> photos[i] != photos[j]
    requires forall i :: 0 <= i < |items| ==> InRange(items[i].date)
    requires ValidEdit(EditOf(o)) && (o.matchTime ==> o.timezone.Some?)
    requires o.timezone.Some? ==>
      (tzUpdater != null && tzUpdater.assetTable == table
       && tzUpdater.tzOffset == o.timezone.value.offset && tzUpdater.tzName == o.timezone.value.name)
    requires o.exiftool ==> exifUpdater != null && exifUpdater.db == exifDb
    modifies (set p | p in photos), db, files, tzUpdater, exifUpdater
    ensures var b := Run(o, zone, table, exifDb, items, reports, 0, Batch([], old(db.State()), old(files.metadata), [], None));
      && db.State() == b.db && files.metadata == b.files && events == b.events && aborted == b.aborted
      && (forall i :: 0 <= i < |b.dates| ==> photos[i].date == b.dates[i])
      && (forall i :: |b.dates| <= i < |photos| ==> photos[i].date == items[i].date)
  {
    ghost var b := Batch([], db.State(), files.metadata, [], None);
    ghost var total := Run(o, zone, table, exifDb, items, reports, 0, b);
    events, aborted := [], None;
    var i := 0;
    while i < |photos|
      invariant 0 <= i <= |photos| && |b.dates| == i
      invariant b == Batch(b.dates, db.State(), files.metadata, events, None)
      invariant forall j :: 0 <= j < i ==> photos[j].date == b.dates[j]
      invariant forall j :: i <= j < |photos| ==> photos[j].date == items[j].date
      invariant total == Run(o, zone, table, exifDb, items, reports, i, b)
    {
      var e, a;
      ghost var b0 := b;
      e, a, b := ProcessTurn(o, zone, table, photos, i, reports, db, tzUpdater, exifUpdater, exifDb, files, items, b);
      RunTurn(o, zone, table, exifDb, items, reports, i, b0, b);
      events := events + e;
      if a.Some? {
        aborted := a;
        return;
      }
      i := i + 1;
    }
  }

  /** A turn that produced b' from b: the run goes on from b', and one that raised ends there. */
  lemma RunTurn(o: Options, zone: LocalZone, table: string, exifDb: map<string, ExifUpdate.PhotoInfo>,
                items: seq<Item>, reports: seq<(string, string)>, i: nat, b: Batch, b': Batch)
    requires |reports| == |items| && i < |items| && ValidEdit(EditOf(o)) && (o.matchTime ==> o.timezone.Some?)
    requires forall j :: 0 <= j < |items| ==> InRange(items[j].date)
    requires b.aborted.None?
    requires b' == Next(b, PhotoSpec(o, zone, table, exifDb, items[i].uuid, items[i].filename, reports[i], items[i].date, b.db, b.files))
    ensures Run(o, zone, table, exifDb, items, reports, i, b) == Run(o, zone, table, exifDb, items, reports, i + 1, b')
    ensures b'.aborted.Some? ==> Run(o, zone, table, exifDb, items, reports, i, b) == b'
  {
    RunStep(o, zone, table, exifDb, items, reports, i, b);
  }

  /** `--match-time` with `--timezone`: the match step reads the old offset before the catalog
      write replaces it, so once the write has happened the photo shows the same wall clock under
      the new offset as it did under the old, provided the local zone has one offset at both
      dates (no daylight-saving change in between). */
  lemma MatchThenWriteKeepsWallClock(o: Options, zone: LocalZone, table: string,
                                     exifDb: map<string, ExifUpdate.PhotoInfo>, uuid: string, filename: string,
                                     report: (string, string), date: int, st: PhotoTz.DbState, md: Metadata,
                                     oldTz: Timezone, newTz: Timezone)
    requires InRange(date) && ValidEdit(EditOf(o)) && !EditRequested(o)
    requires o.matchTime && o.timezone == Some(newTz)
    requires PhotoTz.UniqueKeys(st.attrs) && PhotoTz.StoredTimezone(st, table, uuid) == Some(oldTz)
    requires InRange(date + (oldTz.offset - newTz.offset))
    requires PhotoTz.RetrySpec(st, table, uuid, newTz.offset, newTz.name, PhotoTz.MaxAttempts).read.Some?
    ensures var s := PhotoSpec(o, zone, table, exifDb, uuid, filename, report, date, st, md);
      && s.date == date + oldTz.offset - newTz.offset
      && PhotoTz.StoredTimezone(s.db, table, uuid) == Some(newTz)
      && (zone(s.date) == zone(date) ==> WallAt(s.date, zone, newTz.offset) == WallAt(date, zone, oldTz.offset))
  {
    PhotoTz.StoredAfterRetry(st, table, uuid, newTz.offset, newTz.name, PhotoTz.MaxAttempts);
    MatchShift(filename, uuid, date, oldTz, newTz);
  }

  /** `--timezone` alone: the date Photos holds is untouched, so the moment is the same and the
      wall clock shown moves by new − old offset. */
  lemma PlainTimezoneKeepsInstant(o: Options, zone: LocalZone, table: string,
                                  exifDb: map<string, ExifUpdate.PhotoInfo>, uuid: string, filename: string,
                                  report: (string, string), date: int, st: PhotoTz.DbState, md: Metadata,
                                  oldTz: Timezone, newTz: Timezone)
    requires InRange(date) && ValidEdit(EditOf(o)) && !EditRequested(o)
    requires !o.matchTime && o.timezone == Some(newTz)
    requires PhotoTz.UniqueKeys(st.attrs) && PhotoTz.StoredTimezone(st, table, uuid) == Some(oldTz)
    requires PhotoTz.RetrySpec(st, table, uuid, newTz.offset, newTz.name, PhotoTz.MaxAttempts).read.Some?
    ensures var s := PhotoSpec(o, zone, table, exifDb, uuid, filename, report, date, st, md);
      && s.date == date
      && CaptureInstant(s.date, zone) == CaptureInstant(date, zone)
      && PhotoTz.StoredTimezone(s.db, table, uuid) == Some(newTz)
      && WallAt(s.date, zone, newTz.offset) == WallAt(date, zone, oldTz.offset) + (newTz.offset - oldTz.offset)
  {
    PhotoTz.StoredAfterRetry(st, table, uuid, newTz.offset, newTz.name, PhotoTz.MaxAttempts);
  }

  /** Why the loop adjusts the time before the catalog write: run the other way round, the
      match step would read the offset just written and leave the date as it was. */
  lemma WriteBeforeMatchLosesOffset(st: PhotoTz.DbState, table: string, uuid: string, filename: string,
                                    date: int, newTz: Timezone)
    requires InRange(date) && PhotoTz.UniqueKeys(st.attrs)
    requires PhotoTz.RetrySpec(st, table, uuid, newTz.offset, newTz.name, PhotoTz.MaxAttempts).read.Some?
    ensures var written := PhotoTz.RetrySpec(st, table, uuid, newTz.offset, newTz.name, PhotoTz.MaxAttempts).st;
      MatchAdjusted(filename, uuid, date, PhotoTz.StoredTimezone(written, table, uuid), newTz)
        == Ok(Change(date, AlreadyMatched(filename, uuid, newTz)))
  {
    PhotoTz.StoredAfterRetry(st, table, uuid, newTz.offset, newTz.name, PhotoTz.MaxAttempts);
  }

  /** `--match-time --timezone --exiftool` on a still image: the original file ends up with the
      wall clock the photo showed under its old offset as DateTimeOriginal, and the new offset as
      OffsetTimeOriginal (the local zone having one offset at both dates). */
  lemma MatchThenPushWritesOldWallClock(o: Options, zone: LocalZone, table: string,
                                        exifDb: map<string, ExifUpdate.PhotoInfo>, uuid: string, filename: string,
                                        report: (string, string), date: int, st: PhotoTz.DbState, md: Metadata,
                                        oldTz: Timezone, newTz: Timezone)
    requires InRange(date) && ValidEdit(EditOf(o)) && !EditRequested(o)
    requires o.matchTime && o.exiftool && o.timezone == Some(newTz)
    requires PhotoTz.StoredTimezone(st, table, uuid) == Some(oldTz)
    requires InRange(date + (oldTz.offset - newTz.offset)) && zone(date + (oldTz.offset - newTz.offset)) == zone(date)
    requires ValidOffset(newTz.offset) && InRange(WallAt(date, zone, oldTz.offset))
    requires uuid in exifDb && exifDb[uuid].path != [] && exifDb[uuid].isPhoto
    ensures var s := PhotoSpec(o, zone, table, exifDb, uuid, filename, report, date, st, md);
      var path := exifDb[uuid].path;
      && s.aborted.None? && path in s.files
      && ExifUpdate.DateTimeOriginalTag in s.files[path]
      && s.files[path][ExifUpdate.DateTimeOriginalTag] == DateFormat.FormatWall(WallAt(date, zone, oldTz.offset), ':')
      && ExifUpdate.OffsetTimeOriginalTag in s.files[path]
      && s.files[path][ExifUpdate.OffsetTimeOriginalTag] == FormatOffsetTime(newTz.offset)
  {
    var d := date + (oldTz.offset - newTz.offset);
    MatchShift(filename, uuid, date, oldTz, newTz);
    var edited := EditStage(o, uuid, filename, PhotoPass(date, st, md, [], None));
    var matched := MatchStage(o, table, uuid, filename, edited);
    assert matched.date == d && matched.aborted.None? && matched.files == md;
    var written := WriteStage(o, table, uuid, matched);
    assert written.date == d && written.aborted.None? && written.files == md;
    MatchedWallClock(date, d, zone, oldTz.offset, newTz.offset);
    PushWritesStillTags(exifDb, uuid, d, zone, newTz, md, report);
  }

  /** Pushing a still image under `--timezone` writes its wall clock at the new offset as
      DateTimeOriginal and the new offset as OffsetTimeOriginal. */
  lemma PushWritesStillTags(exifDb: map<string, ExifUpdate.PhotoInfo>, uuid: string, d: int, zone: LocalZone,
                            newTz: Timezone, md: Metadata, report: (string, string))
    requires InRange(d) && ValidOffset(newTz.offset) && InRange(WallAt(d, zone, newTz.offset))
    requires uuid in exifDb && exifDb[uuid].path != [] && exifDb[uuid].isPhoto
    ensures var r := ExifPushed(exifDb, uuid, d, zone, Some(newTz), md, report);
      var path := exifDb[uuid].path;
      && r.Ok? && path in r.value.files
      && ExifUpdate.DateTimeOriginalTag in r.value.files[path]
      && r.value.files[path][ExifUpdate.DateTimeOriginalTag] == DateFormat.FormatWall(WallAt(d, zone, newTz.offset), ':')
      && ExifUpdate.OffsetTimeOriginalTag in r.value.files[path]
      && r.value.files[path][ExifUpdate.OffsetTimeOriginalTag] == FormatOffsetTime(newTz.offset)
  {
    var info := exifDb[uuid];
    var a := Aware(WallAt(d, zone, newTz.offset), newTz.offset);
    ExifUpdate.StillImageTags(info, d, zone, newTz);
    var tags := ExifUpdate.StillTags(a);
    var written := ExifUpdate.ApplyTags(FileTags(md, info.path), tags);
    assert ExifPushed(exifDb, uuid, d, zone, Some(newTz), md, report) == Ok(Pushed(md[info.path := written], ReportEvents(report)));
    ExifUpdate.StillTagsWritten(FileTags(md, info.path), a);
  }

  /** IMG_6520.jpeg shows 2021-10-02 12:54:36 at -0700; matched to -0500 it still shows
      12:54:36, now at -0500. */
  lemma MatchTimeExample(date: int, zone: LocalZone, dt: DateTime, oldOffset: int, newOffset: int, d: int)
    requires dt == DateTime(2021, 10, 2, 12, 54, 36) && oldOffset == -25200 && newOffset == -18000
    requires InRange(date) && WallAt(date, zone, oldOffset) == ToWall(dt)
    requires MatchedDate(date, oldOffset, newOffset) == Some(d) && zone(d) == zone(date)
    ensures WallAt(d, zone, newOffset) == ToWall(dt)
    ensures FormatOffsetCompact(newOffset) == "-0500"
  {
  }

  /** IMG_6501.jpeg shows 2020-09-01 15:53:02 at -0700; with the timezone set to -06:00 and no
      matching it shows 16:53:02 at -0600. */
  lemma TimezoneExample(date: int, zone: LocalZone, before: DateTime, after: DateTime, oldOffset: int, newOffset: int)
    requires before == DateTime(2020, 9, 1, 15, 53, 2) && after == DateTime(2020, 9, 1, 16, 53, 2)
    requires oldOffset == -25200 && newOffset == -21600
    requires WallAt(date, zone, oldOffset) == ToWall(before)
    ensures WallAt(date, zone, newOffset) == ToWall(after)
    ensures FormatOffsetCompact(newOffset) == "-0600"
  {
  }

  /** The line `--compare-exif` prints for a photo: the filename in red when anything differs
      and in green otherwise, then the uuid, the two date/times and the two offsets. */
  function CompareLine(filename: string, uuid: string, d: CompareExif.ExifDiff): (line: string)
    ensures d.diff ==> |Red(filename)| <= |line| && line[..|Red(filename)|] == Red(filename)
    ensures !d.diff ==> |Green(filename)| <= |line| && line[..|Green(filename)|] == Green(filename)
  {
    (if d.diff then Red(filename) else Green(filename))
    + ", " + uuid + ", " + d.photosDate + " " + d.photosTime + ", " + d.exifDate + " " + d.exifTime
    + ", " + d.photosTz + ", " + d.exifTz
  }

  /** The colour of the filename tells the two outcomes apart: the line starts with the red
      filename exactly when something differs. */
  lemma CompareLineColour(filename: string, uuid: string, d: CompareExif.ExifDiff)
    ensures Red(filename) <= CompareLine(filename, uuid, d) <==> d.diff
  {
    var line := CompareLine(filename, uuid, d);
    if !d.diff {
      assert line[1] == Green(filename)[1] == 'g';
      assert Red(filename)[1] == 'r';
    }
  }
}
