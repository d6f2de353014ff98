/** photos_time_warp/exif_updater.py: pushing a photo's date, time and offset into the
    metadata of its original file. */
module ExifUpdate {
  import opened Wrappers
  import opened Calendar
  import opened DateFormat
  import opened TimeConv
  import opened Photos

  /** What the library database (osxphotos' PhotoInfo) knows about one item: the path of its
      original ("" when it is missing from disk), its kind, and the offset Photos stored. */
  datatype PhotoInfo = PhotoInfo(originalFilename: string, path: string, isPhoto: bool, isMovie: bool,
                                 imageTzOffset: int)

  /** The `exif` dict: tag names and values in insertion order. */
  type Tags = seq<(string, string)>

  const DateTimeOriginalTag := "EXIF:DateTimeOriginal"
  const CreateDateTag := "EXIF:CreateDate"
  const DateCreatedTag := "IPTC:DateCreated"
  const TimeCreatedTag := "IPTC:TimeCreated"
  const OffsetTimeOriginalTag := "EXIF:OffsetTimeOriginal"
  const QuickTimeCreationDateTag := "QuickTime:CreationDate"
  const QuickTimeCreateDateTag := "QuickTime:CreateDate"

  /** The offset written: the override timezone's when one is given, else the stored one. */
  function ChosenOffset(timezone: Option<Timezone>, info: PhotoInfo): (off: int)
    ensures timezone.Some? ==> off == timezone.value.offset
    ensures timezone.None? ==> off == info.imageTzOffset
  {
    match timezone
    case Some(tz) => tz.offset
    case None => info.imageTzOffset
  }

  /** The tags of a still image whose capture time, seen at its chosen offset, is `a`. */
  function StillTags(a: Aware): (tags: Tags)
    requires InRange(a.wall) && ValidOffset(a.offset)
    ensures |tags| == 5
  {
    var dt := FromWall(a.wall);
    var offset := FormatOffsetTime(a.offset);
    [(DateTimeOriginalTag, Format(dt, ':')),
     (CreateDateTag, Format(dt, ':')),
     (DateCreatedTag, FormatDate(dt, ':')),
     (TimeCreatedTag, FormatTime(dt) + offset),
     (OffsetTimeOriginalTag, offset)]
  }

  /** The still-image tags, stated on one rendering of the wall clock. */
  lemma StillTagsShape(a: Aware)
    requires InRange(a.wall) && ValidOffset(a.offset)
    ensures var local := FormatWall(a.wall, ':');
      StillTags(a) == [(DateTimeOriginalTag, local), (CreateDateTag, local), (DateCreatedTag, local[..10]),
                       (TimeCreatedTag, local[11..] + FormatOffsetTime(a.offset)),
                       (OffsetTimeOriginalTag, FormatOffsetTime(a.offset))]
  {
    FormatHalves(FromWall(a.wall), ':');
  }

  /** The tags of a movie: the offset-qualified creation date, then the same moment in UTC
      obtained by reading that string back; None where the read-back or the UTC conversion raises. */
  function MovieTags(a: Aware): (tags: Option<Tags>)
    requires InRange(a.wall) && ValidOffset(a.offset)
    ensures tags.Some? ==> |tags.value| == 2
  {
    var creationDate := FormatWall(a.wall, ':') + FormatOffsetTime(a.offset);
    match ParseExifAware(creationDate)
    case None => None
    case Some(tzDate) =>
      match ToUtc(tzDate)
      case None => None
      case Some(utc) => Some([(QuickTimeCreationDateTag, creationDate), (QuickTimeCreateDateTag, FormatWall(utc.wall, ':'))])
  }

  /** The `exif` dict `update_photo` builds for a photo whose naive capture time is `date`;
      None where building it raises (offset of a day or more, or a date outside years 1..9999). */
  function ExifTags(info: PhotoInfo, date: int, zone: LocalZone, timezone: Option<Timezone>): (tags: Option<Tags>)
    requires InRange(date)
    ensures tags.Some? ==> ValidOffset(ChosenOffset(timezone, info)) && InRange(CaptureInstant(date, zone) + ChosenOffset(timezone, info))
  {
    match ToNewTz(NaiveToLocal(date, zone), ChosenOffset(timezone, info))
    case None => None
    case Some(a) =>
      if info.isPhoto then Some(StillTags(a))
      else if info.isMovie then MovieTags(a)
      else Some([])
  }


  /** The capture time re-zoned to the chosen offset; the tags are built from it or not at all. */
  lemma ExifTagsRezoned(info: PhotoInfo, date: int, zone: LocalZone, timezone: Option<Timezone>)
    requires InRange(date)
    ensures var off := ChosenOffset(timezone, info);
      var a := Aware(CaptureInstant(date, zone) + off, off);
      ExifTags(info, date, zone, timezone) ==
        if !(ValidOffset(off) && InRange(a.wall)) then None
        else if info.isPhoto then Some(StillTags(a))
        else if info.isMovie then MovieTags(a)
        else Some([])
  {
    var off := ChosenOffset(timezone, info);
    var a := Aware(CaptureInstant(date, zone) + off, off);
    assert ToNewTz(NaiveToLocal(date, zone), off) == if ValidOffset(off) && InRange(a.wall) then Some(a) else None;
  }

  /** The movie tags of a wall clock at a whole-minute offset: they fail exactly when the UTC
      moment leaves years 1..9999, and otherwise hold the wall clock with its "±HH:MM" suffix and
      the UTC wall clock with none. */
  lemma MovieTagsShape(a: Aware)
    requires InRange(a.wall) && ValidOffset(a.offset) && a.offset % 60 == 0
    ensures MovieTags(a).Some? <==> InRange(a.Instant())
    ensures InRange(a.Instant()) ==>
      MovieTags(a) == Some([(QuickTimeCreationDateTag, FormatWall(a.wall, ':') + FormatOffsetTime(a.offset)),
                            (QuickTimeCreateDateTag, FormatWall(a.Instant(), ':'))])
  {
    ParseExifAwareFormat(a.wall, a.offset);
  }

  /** A movie's UTC CreateDate depends only on the moment, not on the offset it is seen at. */
  lemma MovieCreateDateIgnoresOffset(a1: Aware, a2: Aware)
    requires InRange(a1.wall) && ValidOffset(a1.offset) && a1.offset % 60 == 0
    requires InRange(a2.wall) && ValidOffset(a2.offset) && a2.offset % 60 == 0
    requires a1.Instant() == a2.Instant() && MovieTags(a1).Some?
    ensures MovieTags(a2).Some? && MovieTags(a1).value[1] == MovieTags(a2).value[1]
  {
    MovieTagsShape(a1);
    MovieTagsShape(a2);
  }

  /** An item that is neither a photo nor a movie gets no tags at all. */
  lemma OtherKindNoTags(info: PhotoInfo, date: int, zone: LocalZone, timezone: Option<Timezone>)
    requires InRange(date) && !info.isPhoto && !info.isMovie
    ensures ExifTags(info, date, zone, timezone).Some? ==> ExifTags(info, date, zone, timezone).value == []
    ensures ExifTags(info, date, zone, timezone).Some? <==>
      ValidOffset(ChosenOffset(timezone, info)) && InRange(CaptureInstant(date, zone) + ChosenOffset(timezone, info))
  {
  }

  /** The metadata after ExifTool has set each tag in turn (a later value for a tag replaces an earlier one). */
  function ApplyTags(m: map<string, string>, tags: Tags): map<string, string>
    decreases |tags|
  {
    if tags == [] then m else ApplyTags(m, tags[..|tags| - 1])[tags[|tags| - 1].0 := tags[|tags| - 1].1]
  }

  predicate DistinctTags(tags: Tags) {
    forall i, j :: 0 <= i < j < |tags| ==> tags[i].0 != tags[j].0
  }

  /** Writing distinct tags leaves each tag with its value and every other key as it was. */
  lemma {:induction false} ApplyTagsValues(m: map<string, string>, tags: Tags)
    requires DistinctTags(tags)
    ensures forall i :: 0 <= i < |tags| ==> tags[i].0 in ApplyTags(m, tags) && ApplyTags(m, tags)[tags[i].0] == tags[i].1
    ensures forall k :: (forall i :: 0 <= i < |tags| ==> tags[i].0 != k) ==>
      (k in ApplyTags(m, tags) <==> k in m) && (k in m ==> ApplyTags(m, tags)[k] == m[k])
    decreases |tags|
  {
    if tags != [] {
      var init := tags[..|tags| - 1];
      assert DistinctTags(init);
      ApplyTagsValues(m, init);
      forall i | 0 <= i < |init|
        ensures init[i].0 != tags[|tags| - 1].0 && init[i] == tags[i]
      {
      }
    }
  }

  /** Under `--timezone` a still image gets the five tags of its wall clock at the new offset. */
  lemma StillImageTags(info: PhotoInfo, date: int, zone: LocalZone, tz: Timezone)
    requires InRange(date) && info.isPhoto && ValidOffset(tz.offset) && InRange(WallAt(date, zone, tz.offset))
    ensures ExifTags(info, date, zone, Some(tz)) == Some(StillTags(Aware(WallAt(date, zone, tz.offset), tz.offset)))
  {
    ExifTagsRezoned(info, date, zone, Some(tz));
  }

  /** Writing a still image's tags leaves its wall clock as DateTimeOriginal and its offset as
      OffsetTimeOriginal, whatever the file carried before. */
  lemma StillTagsWritten(m: map<string, string>, a: Aware)
    requires InRange(a.wall) && ValidOffset(a.offset)
    ensures DateTimeOriginalTag in ApplyTags(m, StillTags(a))
    ensures ApplyTags(m, StillTags(a))[DateTimeOriginalTag] == FormatWall(a.wall, ':')
    ensures OffsetTimeOriginalTag in ApplyTags(m, StillTags(a))
    ensures ApplyTags(m, StillTags(a))[OffsetTimeOriginalTag] == FormatOffsetTime(a.offset)
  {
    var tags := StillTags(a);
    StillTagsDistinct(a);
    StillTagsShape(a);
    ApplyTagsValues(m, tags);
    assert tags[0] == (DateTimeOriginalTag, FormatWall(a.wall, ':'));
    assert tags[4] == (OffsetTimeOriginalTag, FormatOffsetTime(a.offset));
  }

  /** The five still-image tag names differ from one another. */
  lemma StillTagsDistinct(a: Aware)
    requires InRange(a.wall) && ValidOffset(a.offset)
    ensures DistinctTags(StillTags(a))
  {
    var t := StillTags(a);
    assert t[0].0 == DateTimeOriginalTag && t[1].0 == CreateDateTag && t[2].0 == DateCreatedTag;
    assert t[3].0 == TimeCreatedTag && t[4].0 == OffsetTimeOriginalTag;
    assert |DateTimeOriginalTag| == 21 && |CreateDateTag| == 15 && |OffsetTimeOriginalTag| == 23;
    assert |DateCreatedTag| == 16 && |TimeCreatedTag| == 16 && DateCreatedTag[5] != TimeCreatedTag[5];
  }

  /** The two movie tag names differ. */
  lemma MovieTagsDistinct(a: Aware)
    requires InRange(a.wall) && ValidOffset(a.offset) && MovieTags(a).Some?
    ensures DistinctTags(MovieTags(a).value)
  {
    var t := MovieTags(a).value;
    assert t[0].0 == QuickTimeCreationDateTag && t[1].0 == QuickTimeCreateDateTag;
    assert |QuickTimeCreationDateTag| == 22 && |QuickTimeCreateDateTag| == 20;
  }

  /** The dicts this module builds never repeat a tag. */
  lemma ExifTagsDistinct(info: PhotoInfo, date: int, zone: LocalZone, timezone: Option<Timezone>)
    requires InRange(date) && ExifTags(info, date, zone, timezone).Some?
    ensures DistinctTags(ExifTags(info, date, zone, timezone).value)
  {
    ExifTagsRezoned(info, date, zone, timezone);
    var off := ChosenOffset(timezone, info);
    var a := Aware(CaptureInstant(date, zone) + off, off);
    if info.isPhoto {
      StillTagsDistinct(a);
    } else if info.isMovie {
      MovieTagsDistinct(a);
    }
  }

  /** The original files on disk and the metadata each one carries. */
  class MediaFiles {
    var metadata: map<string, map<string, string>>

    function MetadataOf(path: string): map<string, string>
      reads this
    {
      var m := metadata;
      if path in m then m[path] else map[]
    }

    constructor (metadata: map<string, map<string, string>>)
      ensures this.metadata == metadata
    {
      this.metadata := metadata;
    }

    /** The `with ExifTool(filepath=path)` block: `setvalue` for each tag, in order. */
    method WriteTags(path: string, tags: Tags)
      modifies this
      ensures metadata == old(metadata)[path := ApplyTags(old(MetadataOf(path)), tags)]
    {
      var start := MetadataOf(path);
      metadata := metadata[path := start];
      for i := 0 to |tags|
        invariant metadata == old(metadata)[path := ApplyTags(start, tags[..i])]
      {
        var (tag, value) := tags[i];
        assert tags[..i + 1][..i] == tags[..i];
        metadata := metadata[path := metadata[path][tag := value]];
      }
      assert tags[..|tags|] == tags;
    }
  }

  datatype ExifError = PhotoNotFound(uuid: string) | DateOutOfRange

  /** What `update_photo` passes to `verbose`. */
  datatype Event = SkippedMissing(originalFilename: string, uuid: string) | Updating(filename: string, uuid: string)
                 | Writing(path: string)

  class ExifUpdater {
    /** The library database, by uuid. */
    const db: map<string, PhotoInfo>
    var log: seq<Event>

    constructor (db: map<string, PhotoInfo>)
      ensures this.db == db && log == []
    {
      this.db := db;
      log := [];
    }

    /** `update_photo`: `report` is the (warning, error) pair ExifTool gives after the writes.
        `updateTime` and `updateDate` are accepted and not consulted. */
    method UpdatePhoto(photo: Photo, updateTime: bool, updateDate: bool, timezone: Option<Timezone>,
                       zone: LocalZone, files: MediaFiles, report: (string, string))
      returns (r: Result<(string, string), ExifError>)
      requires photo.Valid()
      modifies files, this`log
      ensures photo.uuid !in db ==> r == Err(PhotoNotFound(photo.uuid)) && log == old(log)
      ensures photo.uuid in db && db[photo.uuid].path == [] ==>
        r == Ok(("", "")) && log == old(log) + [SkippedMissing(db[photo.uuid].originalFilename, photo.uuid)]
      ensures photo.uuid in db && db[photo.uuid].path != [] ==>
        var info := db[photo.uuid];
        match ExifTags(info, photo.date, zone, timezone)
        case None => r == Err(DateOutOfRange) && log == old(log) + [Updating(photo.filename, photo.uuid)]
        case Some(tags) =>
          && r == Ok(report)
          && files.metadata == old(files.metadata)[info.path := ApplyTags(old(files.MetadataOf(info.path)), tags)]
          && log == old(log) + [Updating(photo.filename, photo.uuid), Writing(info.path)]
      ensures r.Err? || (photo.uuid in db && db[photo.uuid].path == []) ==> files.metadata == old(files.metadata)
    {
      if photo.uuid !in db {
        return Err(PhotoNotFound(photo.uuid));
      }
      var info := db[photo.uuid];
      if info.path == [] {
        log := log + [SkippedMissing(info.originalFilename, photo.uuid)];
        return Ok(("", ""));
      }
      log := log + [Updating(photo.filename, photo.uuid)];
      var tags := ExifTags(info, photo.date, zone, timezone);
      if tags.None? {
        return Err(DateOutOfRange);
      }
      log := log + [Writing(info.path)];
      files.WriteTags(info.path, tags.value);
      r := Ok(report);
    }
  }

  /** 2021-10-02 13:56:11 in the Exif layout. */
  lemma ExampleRendering(dt: DateTime)
    requires dt == DateTime(2021, 10, 2, 13, 56, 11)
    ensures Valid(dt) && Format(dt, ':') == "2021:10:02 13:56:11"
  {
    assert Pad2(20) == "20" && Pad2(21) == "21";
    assert Pad4(dt.year) == "2021" && Pad2(dt.month) == "10" && Pad2(dt.day) == "02";
    assert Pad2(dt.hour) == "13" && Pad2(dt.minute) == "56" && Pad2(dt.second) == "11";
  }

  /** Three hours west of UTC in the Exif offset layout. */
  lemma ExampleOffset(off: int)
    requires off == -10800
    ensures ValidOffset(off) && FormatOffsetTime(off) == "-03:00"
  {
    assert Pad2(Abs(off) / 3600) == "03" && Pad2(Abs(off) % 3600 / 60) == "00";
  }

  /** Expected values of the interactive tests for IMG_6522.jpeg: a still whose capture time at
      -03:00 is 2021-10-02 13:56:11 gets DateTimeOriginal "2021:10:02 13:56:11" and
      OffsetTimeOriginal "-03:00". */
  lemma CatalinaExiftoolExample(dt: DateTime, off: int)
    requires dt == DateTime(2021, 10, 2, 13, 56, 11) && off == -10800
    ensures InRange(ToWall(dt)) && StillTags(Aware(ToWall(dt), off))[0] == (DateTimeOriginalTag, "2021:10:02 13:56:11")
    ensures InRange(ToWall(dt)) && StillTags(Aware(ToWall(dt), off))[4] == (OffsetTimeOriginalTag, "-03:00")
  {
    ExampleRendering(dt);
    FormatWallToWall(dt, ':');
    ExampleOffset(off);
    StillTagsShape(Aware(ToWall(dt), off));
  }
}
