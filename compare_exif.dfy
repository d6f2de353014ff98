/** photos_time_warp/compare_exif.py: comparing what Photos says about a photo's date, time and
    offset with what the metadata of its original file says. */
module CompareExif {
  import opened Wrappers
  import opened Calendar
  import opened DateFormat
  import opened TimeConv
  import opened Utils
  import ExifUpdate

  /** What the metadata extractor reports for a file: its date/time (None when absent)
      as a wall clock, and its offset string as found. */
  datatype ExifDateTimeOffset = ExifDateTimeOffset(datetime: Option<int>, offsetStr: string)

  datatype CompareError =
    | NoStoredTimezone   // `get_timezone` found no timezone for the photo
    | DateOutOfRange     // re-zoning the Photos date raised
    | PhotoNotFound      // the library database has no item with the photo's uuid

  /** The list `compare_exif` returns: Photos date, Photos offset, metadata date, metadata offset. */
  datatype Fields = Fields(photosDate: string, photosTz: string, exifDate: string, exifTz: string)

  /** One half of what `compare_exif` returns: a date rendered "YYYY-MM-DD HH:MM:SS" and an offset. */
  datatype Half = Half(date: string, tz: string)

  /** The Photos half, where the re-zoning can raise. */
  datatype PhotosHalf = OutOfRange | Rezoned(half: Half)

  /** The Photos half of `compare_exif`: the capture time re-zoned to the stored offset and
      rendered "YYYY-MM-DD HH:MM:SS", and the offset as "±HHMM"; OutOfRange where the re-zoning raises. */
  function PhotosFields(date: int, zone: LocalZone, offset: int): (r: PhotosHalf)
    requires InRange(date)
    ensures r.Rezoned? <==> ValidOffset(offset) && InRange(WallAt(date, zone, offset))
    ensures r.Rezoned? ==> r.half.date == FormatWall(WallAt(date, zone, offset), '-')
    ensures r.Rezoned? ==> r.half.tz == FormatOffsetCompact(offset)
  {
    match ToNewTz(NaiveToLocal(date, zone), offset)
    case None => OutOfRange
    case Some(photosDate) =>
      assert photosDate.wall == WallAt(date, zone, offset);
      Rezoned(Half(FormatWall(photosDate.wall, '-'), FormatOffsetCompact(offset)))
  }

  /** The metadata half: the extractor's date (empty when it has none) and offset string,
      or both empty when the original has no path. */
  function ExifFields(info: ExifUpdate.PhotoInfo, exif: ExifDateTimeOffset): (r: Half)
    requires exif.datetime.Some? ==> InRange(exif.datetime.value)
    ensures info.path == [] ==> r == Half("", "")
    ensures info.path != [] && exif.datetime.None? ==> r == Half("", exif.offsetStr)
    ensures info.path != [] && exif.datetime.Some? ==> r == Half(FormatWall(exif.datetime.value, '-'), exif.offsetStr)
  {
    if info.path == [] then Half("", "")
    else
      var exifDate := match exif.datetime case Some(w) => FormatWall(w, '-') case None => "";
      Half(exifDate, exif.offsetStr)
  }

  /** `compare_exif` for a photo whose naive capture time is `date`. `stored` is what
      `PhotoTimeZone.get_timezone` reports for it (None where that raises), `info` what the library
      database holds for its uuid, and `exif` what the extractor reads from its original. */
  function Compare(date: int, zone: LocalZone, stored: Option<Timezone>, info: Option<ExifUpdate.PhotoInfo>,
                   exif: ExifDateTimeOffset): (r: Result<Fields, CompareError>)
    requires InRange(date)
    requires exif.datetime.Some? ==> InRange(exif.datetime.value)
  {
    match stored
    case None => Err(NoStoredTimezone)
    case Some(tz) =>
      match PhotosFields(date, zone, tz.offset)
      case OutOfRange => Err(DateOutOfRange)
      case Rezoned(photos) =>
        match info
        case None => Err(PhotoNotFound)
        case Some(photo) =>
          var exifHalf := ExifFields(photo, exif);
          Ok(Fields(photos.date, photos.tz, exifHalf.date, exifHalf.tz))
  }

  /** The errors, in the order `compare_exif` meets them: no stored timezone, then a Photos date
      that cannot be re-zoned, then a uuid the library database does not know. */
  lemma CompareErrors(date: int, zone: LocalZone, stored: Option<Timezone>, info: Option<ExifUpdate.PhotoInfo>,
                    exif: ExifDateTimeOffset, tz: Timezone)
    requires InRange(date)
    requires exif.datetime.Some? ==> InRange(exif.datetime.value)
    ensures stored.None? ==> Compare(date, zone, stored, info, exif) == Err(NoStoredTimezone)
    ensures stored == Some(tz) && !(ValidOffset(tz.offset) && InRange(WallAt(date, zone, tz.offset))) ==>
      Compare(date, zone, stored, info, exif) == Err(DateOutOfRange)
    ensures stored == Some(tz) && ValidOffset(tz.offset) && InRange(WallAt(date, zone, tz.offset)) && info.None? ==>
      Compare(date, zone, stored, info, exif) == Err(PhotoNotFound)
    ensures stored == Some(tz) && ValidOffset(tz.offset) && InRange(WallAt(date, zone, tz.offset)) && info.Some? ==>
      Compare(date, zone, stored, info, exif).Ok?
  {
  }

  /** The Photos fields: the capture instant's wall clock at the stored offset, rendered
      "YYYY-MM-DD HH:MM:SS", and that offset as "±HHMM". */
  lemma ComparePhotosFields(date: int, zone: LocalZone, stored: Option<Timezone>, info: Option<ExifUpdate.PhotoInfo>,
                    exif: ExifDateTimeOffset, tz: Timezone)
    requires InRange(date)
    requires exif.datetime.Some? ==> InRange(exif.datetime.value)
    requires Compare(date, zone, stored, info, exif).Ok?
    requires stored == Some(tz)
    ensures ValidOffset(tz.offset) && InRange(WallAt(date, zone, tz.offset))
    ensures Compare(date, zone, stored, info, exif).value.photosDate == FormatWall(WallAt(date, zone, tz.offset), '-')
    ensures Compare(date, zone, stored, info, exif).value.photosTz == FormatOffsetCompact(tz.offset)
  {
  }

  /** A comparison that succeeds had a stored timezone and a library entry. */
  lemma CompareFound(date: int, zone: LocalZone, stored: Option<Timezone>, info: Option<ExifUpdate.PhotoInfo>,
                    exif: ExifDateTimeOffset)
    requires InRange(date)
    requires exif.datetime.Some? ==> InRange(exif.datetime.value)
    requires Compare(date, zone, stored, info, exif).Ok?
    ensures stored.Some? && info.Some?
  {
  }

  /** The metadata fields: the extractor's date (empty when it has none) and offset string,
      or both empty when the original has no path. */
  lemma CompareExifFields(date: int, zone: LocalZone, stored: Option<Timezone>, info: Option<ExifUpdate.PhotoInfo>,
                    exif: ExifDateTimeOffset, photo: ExifUpdate.PhotoInfo)
    requires InRange(date)
    requires exif.datetime.Some? ==> InRange(exif.datetime.value)
    requires Compare(date, zone, stored, info, exif).Ok?
    requires info == Some(photo)
    ensures photo.path == [] ==> Compare(date, zone, stored, info, exif).value.exifDate == ""
    ensures photo.path == [] ==> Compare(date, zone, stored, info, exif).value.exifTz == ""
    ensures photo.path != [] ==>
      Compare(date, zone, stored, info, exif).value.exifDate == (if exif.datetime.Some? then FormatWall(exif.datetime.value, '-') else "")
    ensures photo.path != [] ==> Compare(date, zone, stored, info, exif).value.exifTz == exif.offsetStr
  {
  }

  /** `s.split(" ", 1)` unpacked into two names: the parts before and after the first space,
      or None where the unpacking raises ValueError (no space in s). */
  function SplitOnce(s: string): (r: Option<(string, string)>)
    ensures r.Some? <==> ' ' in s
    ensures r.Some? ==> s == r.value.0 + " " + r.value.1 && ' ' !in r.value.0
    decreases |s|
  {
    if s == [] then None
    else if s[0] == ' ' then Some(([], s[1..]))
    else match SplitOnce(s[1..])
      case None => None
      case Some((before, after)) => Some(([s[0]] + before, after))
  }

  /** `ExifDiff`: whether anything differs, then the Photos and metadata date, time and offset
      with their markup. */
  datatype ExifDiff = ExifDiff(diff: bool, photosDate: string, photosTime: string, photosTz: string,
                               exifDate: string, exifTime: string, exifTz: string)

  /** One pair: both red when they differ, both green when they agree. */
  function MarkPair(a: string, b: string): (r: (string, string))
    ensures a != b ==> r == (Red(a), Red(b))
    ensures a == b ==> r == (Green(a), Green(b))
  {
    if a != b then (Red(a), Red(b)) else (Green(a), Green(b))
  }

  datatype MarkupError = UnpackError

  /** `compare_exif_with_markup` on the four fields `compare_exif` returned. */
  function Markup(fields: Fields): (r: Result<ExifDiff, MarkupError>)
  {
    match SplitOnce(fields.photosDate)
    case None => Err(UnpackError)
    case Some((photosDate, photosTime)) =>
      var (exifDate, exifTime) := match SplitOnce(fields.exifDate) case Some(p) => p case None => (fields.exifDate, "");
      var (pd, ed) := MarkPair(photosDate, exifDate);
      var (pt, et) := MarkPair(photosTime, exifTime);
      var (pz, ez) := MarkPair(fields.photosTz, fields.exifTz);
      Ok(ExifDiff(photosDate != exifDate || photosTime != exifTime || fields.photosTz != fields.exifTz, pd, pt, pz, ed, et, ez))
  }

  /** The metadata string cut at its first space, or whole with an empty time when it has none. */
  function ExifHalves(s: string): (string, string) {
    match SplitOnce(s) case Some(p) => p case None => (s, "")
  }

  /** `diff` holds exactly when some pair differs; within each pair both sides carry the same
      colour and the unmarked text is the pair's own. */
  lemma MarkupMeaning(fields: Fields)
    requires SplitOnce(fields.photosDate).Some?
    ensures var (pd, pt) := SplitOnce(fields.photosDate).value;
      var (ed, et) := ExifHalves(fields.exifDate);
      var r := Markup(fields);
      && r.Ok?
      && (r.value.diff <==> pd != ed || pt != et || fields.photosTz != fields.exifTz)
      && (r.value.photosDate, r.value.exifDate) == MarkPair(pd, ed)
      && (r.value.photosTime, r.value.exifTime) == MarkPair(pt, et)
      && (r.value.photosTz, r.value.exifTz) == MarkPair(fields.photosTz, fields.exifTz)
      && fields.photosDate == pd + " " + pt
  {
  }

  /** A metadata string with no space, the empty string among them, is the date part whole
      and an empty time. */
  lemma ExifWithoutSpace(s: string)
    requires ' ' !in s
    ensures ExifHalves(s) == (s, "")
  {
  }

  /** The date half of a rendering contains no space. */
  lemma FormatDateNoSpace(dt: DateTime, sep: char)
    requires Valid(dt) && sep != ' '
    ensures ' ' !in FormatDate(dt, sep)
  {
    var d := FormatDate(dt, sep);
    assert d == Pad4(dt.year) + [sep] + Pad2(dt.month) + [sep] + Pad2(dt.day);
    forall i | 0 <= i < 10
      ensures d[i] != ' '
    {
      if i < 4 { assert d[i] == Pad4(dt.year)[i]; }
      else if 5 <= i < 7 { assert d[i] == Pad2(dt.month)[i - 5]; }
      else if 8 <= i { assert d[i] == Pad2(dt.day)[i - 8]; }
    }
  }

  /** A string made of a space-free head, one space and a tail splits back into the two. */
  lemma {:induction false} SplitOnceJoin(a: string, b: string)
    requires ' ' !in a
    ensures SplitOnce(a + " " + b) == Some((a, b))
    decreases |a|
  {
    var s := a + " " + b;
    if a == [] {
      assert s[0] == ' ' && s[1..] == b;
    } else {
      assert s[0] == a[0] && a[0] in a;
      assert s[1..] == a[1..] + " " + b;
      assert ' ' !in a[1..] by {
        assert forall i | 0 <= i < |a[1..]| :: a[1..][i] == a[i + 1];
      }
      SplitOnceJoin(a[1..], b);
      assert [a[0]] + a[1..] == a;
    }
  }

  /** The Photos date field, a rendered wall clock, always splits into its date and time
      halves, so the unpacking in `compare_exif_with_markup` never raises on it. */
  lemma PhotosDateSplits(w: int)
    requires InRange(w)
    ensures SplitOnce(FormatWall(w, '-')) == Some((FormatDate(FromWall(w), '-'), FormatTime(FromWall(w))))
  {
    var dt := FromWall(w);
    FormatHalves(dt, '-');
    FormatDateNoSpace(dt, '-');
    assert FormatWall(w, '-') == FormatDate(dt, '-') + " " + FormatTime(dt);
    SplitOnceJoin(FormatDate(dt, '-'), FormatTime(dt));
  }

  /** `compare_exif_with_markup`: `compare_exif` followed by the markup. */
  function CompareWithMarkup(date: int, zone: LocalZone, stored: Option<Timezone>, info: Option<ExifUpdate.PhotoInfo>,
                    exif: ExifDateTimeOffset): (r: Result<ExifDiff, CompareError>)
    requires InRange(date)
    requires exif.datetime.Some? ==> InRange(exif.datetime.value)
    ensures r.Ok? <==> Compare(date, zone, stored, info, exif).Ok?
    ensures r.Ok? ==> Markup(Compare(date, zone, stored, info, exif).value) == Ok(r.value)
  {
    match Compare(date, zone, stored, info, exif)
    case Err(e) => Err(e)
    case Ok(fields) =>
      CompareFound(date, zone, stored, info, exif);
      ComparePhotosFields(date, zone, stored, info, exif, stored.value);
      PhotosDateSplits(WallAt(date, zone, stored.value.offset));
      Ok(Markup(fields).value)
  }

  /** A photo whose original is missing always shows as different: its metadata date and time
      are empty while the Photos date is not. */
  lemma MissingOriginalDiffers(date: int, zone: LocalZone, stored: Option<Timezone>, info: Option<ExifUpdate.PhotoInfo>,
                    exif: ExifDateTimeOffset, tz: Timezone, photo: ExifUpdate.PhotoInfo)
    requires InRange(date)
    requires exif.datetime.Some? ==> InRange(exif.datetime.value)
    requires stored == Some(tz) && info == Some(photo) && photo.path == []
    requires ValidOffset(tz.offset) && InRange(WallAt(date, zone, tz.offset))
    ensures CompareWithMarkup(date, zone, stored, info, exif).Ok?
    ensures CompareWithMarkup(date, zone, stored, info, exif).value.diff
    ensures CompareWithMarkup(date, zone, stored, info, exif).value.exifDate == Red("")
    ensures CompareWithMarkup(date, zone, stored, info, exif).value.exifTime == Red("")
  {
    CompareErrors(date, zone, stored, info, exif, tz);
    ComparePhotosFields(date, zone, stored, info, exif, tz);
    CompareExifFields(date, zone, stored, info, exif, photo);
    var w := WallAt(date, zone, tz.offset);
    PhotosDateSplits(w);
    assert |FormatDate(FromWall(w), '-')| == 10;
  }
}
