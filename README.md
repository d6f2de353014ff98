# photos_time_warp: timestamp and timezone core, in Dafny

This project models how photos_time_warp changes one photo's capture time and UTC offset
in Apple Photos, and keeps the photo's original file metadata in step with them. It
then proves properties of that model.

- **Catalog timezone writer** (`phototz.py`). The writer picks the Photos schema
  generation from the catalog's model version. It then reads one
  `ZADDITIONALASSETATTRIBUTES` row, joined to the asset table by `ZUUID`. It writes that
  row back with `Z_OPT + 1`, the new `ZTIMEZONEOFFSET` and the new `ZTIMEZONENAME`. All of
  this runs under tenacity's `stop_after_attempt(10)`, and each attempt reads the row again.
  The catalog is a `CatalogDb` object that holds the attribute rows, the asset tables and a
  schedule of engine failures. Each `query`, each `execute`, and the steps after the
  commit (closing the write and the verbose message) use up one entry of that schedule.
- **Metadata tag builder** (`exif_updater.py`). From the photo's naive local date and the
  chosen offset, it builds the exact tag map:
  - for stills, Exif `DateTimeOriginal`/`CreateDate` as `YYYY:MM:DD HH:MM:SS`,
    `OffsetTimeOriginal` as `±HH:MM` (section 4.6.5 of Exif 2.31, CIPA DC-008-2016), and
    IPTC `DateCreated`/`TimeCreated`;
  - for movies, QuickTime `CreationDate` with the offset and `CreateDate` in UTC.

  Writing the tags is a loop of `setvalue` calls on a `MediaFiles` object.
- **Per-photo pipeline** (`cli.py`). Each photo goes through four steps in a fixed order:
  the date/time edit, the `--match-time` adjustment (`delta = old − new offset`), the
  catalog write, and the metadata push. The model covers both the loop over the selection
  and the option constraints.
- **Comparison report** (`compare_exif.py`). It assembles the four strings, splits date
  from time, adds red/green markup and computes the `diff` flag.
- **Helpers** (`utils.py`, and `red`/`green` from `cli.py`).

Times are integers:
- A naive wall clock is a count of seconds since 0001-01-01 00:00:00, which is Python's
  `datetime` range (years 1 to 9999). `calendar.dfy` converts between that count and
  year/month/day/hour/minute/second, with Python's proleptic Gregorian rules.
  `dateformat.dfy` gives the fixed-width `strftime`/`strptime` for the two layouts the
  tool uses. Parsing is proved to invert formatting.
- An offset-aware time is a wall clock plus an offset. Its instant is `wall − offset`.
- The process's local zone is a function from wall clock to offset (`LocalZone`). It is a
  parameter everywhere. The tests fix it to US/Pacific at
  `tests/test_0_interactive.py:21-22`.

Some collaborators are not in the modelled files: `datetime_naive_to_local`,
`datetime_to_new_tz`, `datetime_tz_to_utc`, `format_offset_time`, `update_datetime` and
`PhotoTimeZone.get_timezone`. `timeconv.dfy` gives each one the behaviour its call sites
rely on. `get_timezone` reads the same `ZADDITIONALASSETATTRIBUTES` row the writer writes
(`PhotoTz.StoredTimezone`). The osxphotos constants `_PHOTOS_n_MODEL_VERSION` and
`_DB_TABLE_NAMES` are parameters (`PhotoTz.PhotosConstants`), so the model does not
invent their values.

The `for p in bar` loop in `cli.py` (lines 427-446) has no exception handler, so an
exception from `update_datetime`, `get_timezone` or `ExifUpdater.update_photo` ends the
run: `Cli.Run` stops at the first `Abort`. The catalog write never ends the run, because
`PhotoTimeZoneUpdater.update_photo` catches every exception and logs it.

`posixpath.dfy` models the part of `pathlib.PurePosixPath` that `phototz.py` uses to
build the database path: splitting at slashes, dropping empty and "." segments, keeping
the root, and joining with single slashes.

`pluralize` appears twice, in `utils.py:4-9` and again in `cli.py:499-504`. The two copies
are identical, and `Utils.Pluralize` models both. `red` and `green` are defined at
`cli.py:91-98`; `compare_exif.py` imports them from `utils.py`, which does not define them,
so the model uses the `cli.py` definitions for both.

## Model

| member | source | states |
|---|---|---|
| `PhotoTz.GetPhotosVersion` | photos_time_warp/phototz.py:43-62 | The result is always 5, 6 or 7. It is 5 exactly when the model version is in the Photos 5 range, and 6 exactly when it is outside that range and inside the Photos 6 range. Every other version gives 7. |
| `PhotoTz.UnknownVersionFallsBack` | photos_time_warp/phototz.py:58-62 | A model version in none of the three ranges gives 7, not an error. |
| `PhotoTz.DatabasePathIn` | photos_time_warp/phototz.py:96 | `str(pathlib.Path(db_path) / "database/Photos.sqlite")`: the result always ends with `database/Photos.sqlite`, with a slash before it whenever anything of the library path is kept. |
| `PhotoTz.DatabasePathClean` | photos_time_warp/phototz.py:96 | A library path with no empty or "." segment, relative or under one leading slash, is kept exactly as written, followed by `/database/Photos.sqlite`. |
| `PhotoTz.DatabasePathTrailingSlash` | photos_time_warp/phototz.py:96 | pathlib drops a trailing slash: `lib/` gives the same database path as `lib`. |
| `PhotoTz.DatabasePathDotPrefix` | photos_time_warp/phototz.py:96 | pathlib drops a leading `./`: `./lib` gives the same database path as `lib`. |
| `PhotoTz.DatabasePathDot` | photos_time_warp/phototz.py:96 | The library "." gives `database/Photos.sqlite`, with no leading `./`. |
| `PhotoTz.DatabasePathRoot` | photos_time_warp/phototz.py:96 | The library "/" gives `/database/Photos.sqlite`, with no doubled slash. |
| `PosixPath.Split` | photos_time_warp/phototz.py:96 | Splitting a path at its slashes gives at least one segment, no segment holds a slash, and joining the segments with slashes gives the path back. |
| `PosixPath.Kept` | photos_time_warp/phototz.py:96 | The kept segments are segments of the path, none is empty or ".", and a path with no such segment keeps all of its segments. |
| `PosixPath.JoinAppend` | photos_time_warp/phototz.py:96 | Joining two runs of segments puts exactly one slash between their joins. |
| `PosixPath.JoinPathClean` | photos_time_warp/phototz.py:96 | A clean relative path joined with a relative part is the path, one slash, and the part. |
| `PosixPath.JoinPathSuffix` | photos_time_warp/phototz.py:96 | The joined path ends with the relative part, after a slash whenever anything comes before it. |
| `PhotoTz.LibraryDatabasePath` | photos_time_warp/phototz.py:87-96 | The library choice is `library_path`, else the last library, else the system library, tried in that order, and the chosen path goes through `DatabasePathIn`. The result is FileNotFoundError exactly when no path is given, the last-library lookup raises or is empty, and the system lookup then raises or is empty. |
| `PhotoTz.NewUpdater` | photos_time_warp/phototz.py:73-99 | The constructor fails exactly when the library path choice fails (FileNotFoundError) or, after that, reading the catalog's model version raises (that read's error). Otherwise the new updater holds the database path, the timezone's offset and name, an empty log, and the asset table of the generation the model version gives. |
| `PhotoTz.PhotoTimeZoneUpdater.constructor` | photos_time_warp/phototz.py:79-99 | It sets `tz_offset` and `tz_name` from the timezone, and sets `ASSET_TABLE` from `_DB_TABLE_NAMES[get_photos_version(...)]`. |
| `PhotoTz.FirstMatch` | photos_time_warp/phototz.py:119-130 | `next(results)` returns the first attribute row whose `ZASSET` joins to an asset with the uuid. No earlier row joins, and None means that no row joins at all. |
| `PhotoTz.SetTimezone` | photos_time_warp/phototz.py:133-139 | The UPDATE rewrites `Z_OPT`, `ZTIMEZONEOFFSET` and `ZTIMEZONENAME` on each row with the key, keeps that row's `ZASSET`, and leaves every other row unchanged. |
| `PhotoTz.SetTimezoneOneRow` | photos_time_warp/phototz.py:131-137 | When `Z_PK` is unique, the UPDATE changes exactly the row that was read, and the keys stay unique. |
| `PhotoTz.AttemptSpec` | photos_time_warp/phototz.py:116-146 | One attempt has three outcomes. It fails before its UPDATE (the query raises, no row joins, or the execute raises) and leaves the rows alone. Or it commits `Z_OPT` = the value read in that attempt + 1 and the new offset and name under the row it read, and then either completes or raises while building or printing the verbose message. The asset tables never change. |
| `PhotoTz.RetrySpec` | photos_time_warp/phototz.py:112-146 | There are never more than 10 attempts, and no more commits than attempts. A run with no completed attempt used all 10, and the run stops at the first attempt that completes. |
| `PhotoTz.RetryOnce` | photos_time_warp/phototz.py:112-146 | An attempt that completes ends the retry. An attempt that fails, or that raises after its commit, hands the remaining attempts the state it left, and the commit is counted. |
| `PhotoTz.RetryWritesOnce` | photos_time_warp/phototz.py:112-139 | When no attempt raises after its commit: if every attempt fails the rows are unchanged, and otherwise exactly one write happens, under the row selected in the starting state, with the starting `Z_OPT` + 1. |
| `PhotoTz.RetryBumpsPerCommit` | photos_time_warp/phototz.py:112-146 | With unique keys, every committed attempt, including one that raised afterwards and was retried, bumps the photo's row once more: the final row is the starting row with `Z_OPT` + the number of commits and the new offset and name. |
| `PhotoTz.RaiseAfterCommitBumpsTwice` | photos_time_warp/phototz.py:131-146 | If the first attempt commits and then raises, tenacity retries it, the second attempt reads the already-bumped row and writes again: two attempts, one raised after its commit, and `Z_OPT` ends 2 above its start. |
| `PhotoTz.RetryRaisesAfterEveryCommit` | photos_time_warp/phototz.py:112-146 | If each of n attempts commits and then raises, the retry gives up with `Z_OPT` n above its start, all n attempts having written. |
| `PhotoTz.RetryNoRow` | photos_time_warp/phototz.py:129-130 | If no row matches the uuid, every attempt fails before its UPDATE: all attempts are used, none commits, and the table is unchanged. |
| `PhotoTz.RetryAfterFailures` | photos_time_warp/phototz.py:112-139 | Suppose n < 10 attempts fail on the engine before their UPDATE and the next one is undisturbed. Then the write happens on attempt n + 1, nothing raised after a commit, the final `Z_OPT` is the initial value + 1 (not + n + 1), and with unique keys no other row changes. |
| `PhotoTz.StoredTimezone` | photos_time_warp/cli.py:479 | `get_timezone` finds a stored offset exactly when a row joins to the uuid, and that offset is the row's `ZTIMEZONEOFFSET`. |
| `PhotoTz.StoredAfterRetry` | photos_time_warp/phototz.py:79-139 | After a completed attempt, whatever commits came before it, the photo's stored offset and name are the updater's, and the keys stay unique. |
| `PhotoTz.CatalogDb.QueryTimezoneRow` | photos_time_warp/phototz.py:119-130 | The read returns the joined row, or None when the engine raises or nothing matches. It uses up one engine call. |
| `PhotoTz.CatalogDb.ExecuteSetTimezone` | photos_time_warp/phototz.py:133-139 | The write applies `SetTimezone` unless the engine raises. It uses up one engine call. |
| `PhotoTz.CatalogDb.FinishAfterCommit` | photos_time_warp/phototz.py:139-144 | The steps after the commit (closing the write, building and printing the message) raise exactly when the next fault-schedule entry says so. They change no row. |
| `PhotoTz.PhotoTimeZoneUpdater.UpdateAttempt` | photos_time_warp/phototz.py:116-146 | One call of `_update_photo` changes the catalog exactly as `AttemptSpec` says. It logs "Updated timezone", with the old name and offset it read, exactly when the attempt completes; an attempt that fails or raises after its commit logs nothing. |
| `PhotoTz.PhotoTimeZoneUpdater.UpdateWithRetry` | photos_time_warp/phototz.py:112-146 | The retry loop ends in the `RetrySpec` state, with its read row and attempt count. Only the attempt that completes logs the "Updated timezone" message, once, with the old name and offset it read. |
| `PhotoTz.PhotoTimeZoneUpdater.UpdatePhoto` | photos_time_warp/phototz.py:101-110 | `update_photo` never raises. It either reports the change once, or logs "Error updating" once no attempt completed, even when earlier attempts committed their UPDATE. |
| `Utils.Pluralize` | photos_time_warp/utils.py:4-9 | The result is `singular` exactly when count is 1. Every other count, including 0 and negatives, gives `plural`. |
| `Utils.Red` | photos_time_warp/cli.py:91-93 | The result is `[red]`, then the message unchanged, then `[/red]`. |
| `Utils.Green` | photos_time_warp/cli.py:96-98 | The result is `[green]`, then the message unchanged, then `[/green]`. |
| `Utils.RedNeverGreen` | photos_time_warp/compare_exif.py:92-114 | A red-marked string never equals a green-marked one, so the colour always tells "differs" from "agrees". |
| `Utils.MarkupInjective` | photos_time_warp/compare_exif.py:92-114 | Each markup is injective: the marked text determines the message. |
| `TimeConv.NaiveToLocal` | photos_time_warp/exif_updater.py:65 | `datetime_naive_to_local` keeps the wall clock and attaches the local zone's offset for it. |
| `TimeConv.ToNewTz` | photos_time_warp/exif_updater.py:72 | `datetime_to_new_tz` keeps the instant and sets the new offset. It fails exactly when the offset is a day or more, or the new wall clock leaves years 1 to 9999. |
| `TimeConv.ParseFormatOffsetTime` | photos_time_warp/exif_updater.py:78 | Reading back `format_offset_time`'s `±HH:MM` gives the offset truncated to whole minutes. `WholeMinutesExact` shows the round trip is exact for whole-minute offsets. |
| `TimeConv.ParseExifAwareFormat` | photos_time_warp/exif_updater.py:109-113 | `strptime(..., "%Y:%m:%d %H:%M:%S%z")` of a wall clock followed by its `±HH:MM` offset gives back that wall clock and offset. |
| `TimeConv.UpdateTimeDeltaOnly` | photos_time_warp/cli.py:484-486 | `update_datetime` with only `time_delta` adds exactly that many seconds, or raises on overflow. |
| `TimeConv.UpdateDeltasCompose` | photos_time_warp/cli.py:457-459 | Two successive time deltas equal one delta of their sum. |
| `TimeConv.UpdateDateOnly` | photos_time_warp/cli.py:457-459 | Setting only the date gives that calendar date and keeps the time of day. |
| `TimeConv.UpdateTimeOnly` | photos_time_warp/cli.py:457-459 | Setting only the time gives that time of day and keeps the date. |
| `DateFormat.ParseFormat` | photos_time_warp/exif_updater.py:75 | `strptime` of the `strftime("%Y:%m:%d %H:%M:%S")` rendering gives the date and time back. |
| `DateFormat.FormatParse` | photos_time_warp/exif_updater.py:113-115 | Every string that parses is exactly the rendering of its parse. |
| `DateFormat.FormatWallInjective` | photos_time_warp/compare_exif.py:56 | Distinct wall clocks render differently, so comparing renderings compares times. |
| `Calendar.ToWallFromWall` | photos_time_warp/exif_updater.py:75 | Breaking a wall clock into calendar fields and reassembling it gives the same wall clock. |
| `Calendar.FromWallToWall` | photos_time_warp/exif_updater.py:113 | Every valid date and time is in range, and its wall clock breaks down back to it. |
| `ExifUpdate.ChosenOffset` | photos_time_warp/exif_updater.py:67-70 | The offset is the override timezone's when one is given, and the catalog's `imageTimeZoneOffsetSeconds` otherwise. |
| `ExifUpdate.ExifTagsRezoned` | photos_time_warp/exif_updater.py:65-116 | The tag map is built from the capture instant seen at the chosen offset. It is still tags for a photo, movie tags for a movie, and empty for anything else. It fails exactly when re-zoning fails. |
| `ExifUpdate.StillTagsShape` | photos_time_warp/exif_updater.py:93-101 | `DateTimeOriginal` and `CreateDate` are the same `YYYY:MM:DD HH:MM:SS` wall clock. `DateCreated` is its first 10 characters, `TimeCreated` is its time part followed by the offset, and `OffsetTimeOriginal` is `±HH:MM`. |
| `ExifUpdate.MovieTagsShape` | photos_time_warp/exif_updater.py:103-116 | `CreationDate` is the wall clock followed by `±HH:MM`. `CreateDate` is the same instant in UTC with no suffix. They fail exactly when the UTC time leaves years 1 to 9999. |
| `ExifUpdate.MovieCreateDateIgnoresOffset` | photos_time_warp/exif_updater.py:112-116 | The movie's UTC `CreateDate` depends only on the instant, not on the offset it is seen at. |
| `ExifUpdate.OtherKindNoTags` | photos_time_warp/exif_updater.py:90-103 | An item that is neither a photo nor a movie gets an empty tag map. |
| `ExifUpdate.ExifTagsDistinct` | photos_time_warp/exif_updater.py:90-116 | The dict never repeats a tag, so every value is the one ExifTool writes. |
| `ExifUpdate.StillImageTags` | photos_time_warp/exif_updater.py:65-101 | A still image's tag map is the still tag map at the capture instant seen at the chosen offset. |
| `ExifUpdate.StillTagsWritten` | photos_time_warp/exif_updater.py:93-125 | Whatever a file held before, writing a still's tags leaves `DateTimeOriginal` holding the rendered wall clock and `OffsetTimeOriginal` the `±HH:MM` offset. |
| `ExifUpdate.ApplyTagsValues` | photos_time_warp/exif_updater.py:119-125 | After the `setvalue` calls, each distinct tag holds its value and every other tag of the file is unchanged. |
| `ExifUpdate.MediaFiles.WriteTags` | photos_time_warp/exif_updater.py:119-125 | The loop over `exif.items()` leaves that file's metadata as `ApplyTags` of its old metadata, and no other file changes. |
| `ExifUpdate.ExifUpdater.UpdatePhoto` | photos_time_warp/exif_updater.py:34-126 | An unknown uuid is `ValueError`, with nothing written and nothing logged. A missing original returns `("", "")` and writes nothing. Otherwise the file gets exactly `ExifTags` and ExifTool's (warning, error) pair is returned. The update flags are not consulted. |
| `ExifUpdate.CatalinaExiftoolExample` | tests/config_catalina.py:126-133 | A still at 2021-10-02 13:56:11 at -03:00 gets `DateTimeOriginal` "2021:10:02 13:56:11" and `OffsetTimeOriginal` "-03:00". |
| `CompareExif.PhotosFields` | photos_time_warp/compare_exif.py:53-56 | The Photos date is the capture instant's wall clock at the stored offset, formatted `%Y-%m-%d %H:%M:%S`. The offset is `±HHMM`. It fails exactly when re-zoning fails. |
| `CompareExif.ExifFields` | photos_time_warp/compare_exif.py:58-72 | A missing original gives an empty date and offset. Otherwise the fields are the extractor's date (empty if it has none) and its offset string. |
| `CompareExif.CompareErrors` | photos_time_warp/compare_exif.py:53-59 | `compare_exif` fails in source order: first if there is no stored timezone, then if the date cannot be re-zoned, then if the uuid is unknown. It succeeds otherwise. |
| `CompareExif.ComparePhotosFields` | photos_time_warp/compare_exif.py:53-74 | The first two returned fields are the Photos date and offset, in that order. |
| `CompareExif.CompareExifFields` | photos_time_warp/compare_exif.py:58-74 | The last two returned fields are the metadata date and offset, in that order. Both are empty for a missing original. |
| `CompareExif.CompareFound` | photos_time_warp/compare_exif.py:53-58 | A successful comparison had a stored timezone and a library entry. |
| `CompareExif.SplitOnce` | photos_time_warp/compare_exif.py:85-90 | `split(" ", 1)` unpacks exactly when the string has a space. The head has no space, and head + " " + tail is the string. |
| `CompareExif.MarkPair` | photos_time_warp/compare_exif.py:92-114 | A pair is both red when the sides differ and both green when they agree, with the content unchanged. |
| `CompareExif.MarkupMeaning` | photos_time_warp/compare_exif.py:83-124 | `diff` is true exactly when the date, time or timezone pair differs. Each returned pair is that pair's markup. The Photos string is date + " " + time, split at its first space. |
| `CompareExif.ExifWithoutSpace` | photos_time_warp/compare_exif.py:86-90 | A metadata string with no space, including the empty one, is the whole date with an empty time. |
| `CompareExif.PhotosDateSplits` | photos_time_warp/compare_exif.py:85 | The Photos rendering always splits into its date and time halves, so that unpacking never raises. |
| `CompareExif.SplitOnceJoin` | photos_time_warp/compare_exif.py:85-87 | A space-free head, one space and a tail split back into that head and tail. |
| `CompareExif.CompareWithMarkup` | photos_time_warp/compare_exif.py:76-124 | `compare_exif_with_markup` succeeds exactly when `compare_exif` does, and its result is the markup of those four fields. |
| `CompareExif.MissingOriginalDiffers` | tests/config_catalina.py:98-112 | A photo whose original is missing always shows `diff`, with its metadata date and time red and empty. |
| `Cli.Violations` | photos_time_warp/cli.py:271-317 | The command is accepted exactly when the list is empty. Each constraint is in the list exactly when it is violated: no property option at all, `--date` with `--date-delta`, `--time` with `--time-delta`, or `--match-time` without `--timezone`. |
| `Cli.SkippedEditIsIdentity` | photos_time_warp/cli.py:428 | Skipping the edit when no edit option is truthy loses nothing. |
| `Cli.DateEdited` | photos_time_warp/cli.py:454-468 | The new date is `update_datetime`'s result, or an overflow. The "Updated" message appears exactly when the date changed. |
| `Cli.MatchedDate` | photos_time_warp/cli.py:479-486 | The new date plus the new offset equals the old date plus the old offset. It fails exactly when the date leaves years 1 to 9999. |
| `Cli.MatchAdjusted` | photos_time_warp/cli.py:471-496 | With no stored timezone the step fails. Otherwise the date moves, and "Adjusted" is reported exactly when it changed. |
| `Cli.MatchShift` | photos_time_warp/cli.py:479-486 | The match adjustment shifts the date by exactly old − new offset, or raises where that overflows. |
| `Cli.MatchSameOffsetSkips` | photos_time_warp/cli.py:487-496 | When the old and new offsets are equal, `photo.date` is not assigned. |
| `Cli.ReportEvents` | photos_time_warp/cli.py:443-446 | The warning and the error are printed exactly when they are non-empty, the warning before the error, and nothing else is printed. |
| `Cli.ExifPushed` | photos_time_warp/cli.py:436-446 | An unknown uuid aborts with ValueError. A missing original changes nothing and prints nothing. Otherwise the push aborts (the OverflowError escapes) exactly when the tags cannot be built, and on success the original holds every built tag's value, only that original changes, and the printed events are the warning and error report. |
| `Cli.PhotoSpec` | photos_time_warp/cli.py:427-446 | One turn runs the edit, the match, the catalog write and the push in that order; each step leaves an aborted pass as it is (the stage functions' contracts), and `AbortSkipsLaterSteps` states what that means for the whole turn. The date stays in range and the catalog's tables are not changed. |
| `Cli.AbortSkipsLaterSteps` | photos_time_warp/cli.py:428-446 | If `update_datetime` raises, the pass ends there with the date unchanged and nothing printed. If the edit or the match step raises, the catalog write and the push are skipped: the catalog and the files are as they were. |
| `Cli.Run` | photos_time_warp/cli.py:427 | The loop handles every photo in order unless an exception ends it. A stopped run stays stopped. |
| `Cli.RunStep` | photos_time_warp/cli.py:427-446 | A run that has not stopped goes on from the pass of the next photo. |
| `Cli.UpdatePhotoDateTime` | photos_time_warp/cli.py:454-468 | `photo.date` becomes the edited date, and is assigned only when that date differs. |
| `Cli.UpdatePhotoTimeForNewTimezone` | photos_time_warp/cli.py:471-496 | The stored offset is read first. Then `photo.date` is moved by old − new offset, and is assigned only when it changes. |
| `Cli.PushMetadata` | photos_time_warp/cli.py:436-446 | `exif_updater.update_photo` followed by the printing changes the files exactly as `ExifPushed` says. |
| `Cli.ProcessPhoto` | photos_time_warp/cli.py:428-446 | One turn of the loop on real objects has exactly the effect of `PhotoSpec` on the photo, the catalog, the files and the messages. |
| `Cli.ProcessPhotos` | photos_time_warp/cli.py:426-446 | The `for p in bar` loop leaves the photos, the catalog, the files and the messages exactly as `Run` says. Photos after an abort keep their dates. |
| `Cli.MatchThenWriteKeepsWallClock` | photos_time_warp/cli.py:430-435 | With `--match-time`, the wall clock under the new offset after the write equals the wall clock under the old offset before it (where the local zone has one offset at both dates). The stored timezone becomes the new one. |
| `Cli.PlainTimezoneKeepsInstant` | photos_time_warp/cli.py:434-435 | With `--timezone` alone, `photo.date` and the instant are unchanged, and the wall clock shown moves by new − old offset. |
| `Cli.WriteBeforeMatchLosesOffset` | photos_time_warp/cli.py:430-433 | If the write ran before the match step, the match would read the new offset and not move the date. That is why the match must come first. |
| `Cli.MatchedWallClock` | photos_time_warp/cli.py:479-486 | A date moved by old − new offset, where the local zone has one offset at both dates, shows under the new offset the wall clock it showed under the old one. |
| `Cli.PushWritesStillTags` | photos_time_warp/cli.py:436-446 | Pushing a still's metadata succeeds and leaves its original with `DateTimeOriginal` = the wall clock at the new offset and `OffsetTimeOriginal` = that offset. |
| `Cli.RunTurn` | photos_time_warp/cli.py:427-446 | One pass of the loop takes the run from photo i to photo i + 1, and once it aborts the run's result is that state. |
| `Cli.MatchThenPushWritesOldWallClock` | photos_time_warp/cli.py:428-446 | With `--match-time --timezone --exiftool` on a still, `DateTimeOriginal` gets the wall clock the photo showed under its old offset, and `OffsetTimeOriginal` gets the new offset. |
| `Cli.MatchTimeExample` | tests/config_catalina.py:113-120 | At 12:54:36-0700, matched to -0500, the photo still shows 12:54:36, now at -0500. |
| `Cli.TimezoneExample` | tests/config_catalina.py:69-76 | At 15:53:02-0700, with the timezone set to -06:00, the photo shows 16:53:02-0600. |
| `Cli.CompareLine` | photos_time_warp/cli.py:403-409 | The `--compare-exif` line starts with the filename in red when something differs, and in green otherwise. |
| `Cli.CompareLineColour` | photos_time_warp/cli.py:403-405 | The line starts with the red filename exactly when `diff` is true. |

## Left out

- `sqlite_native.py` (the ctypes binding of libsqlite3) is not part of this model. `query` and `execute` are reads and writes on the in-memory `CatalogDb`. An engine failure is one entry of its failure schedule.
- `get_db_model_version` (an SQL read plus plist decoding) is not modelled. Its result is an input to `PhotoTz.NewUpdater`, None when the read raises.
- Everything `_update_photo` does after the UPDATE (closing the write, formatting and printing the verbose message) is one fault-schedule entry: the model says whether that step raises, not which part of it.
- pathlib's handling of `..` and `~` is the plain one: `PurePosixPath` keeps `..` segments and does not expand `~`, and the model keeps them as written.
- The retry waits (exponential, 0.1 to 5 s) are real time. Only the bound of 10 attempts is kept.
- `timezones.py`, `darkmode.py`, `photosalbum.py`, `color_themes.py` and `setup.py` are not part of this model. A `Timezone` is an integer offset and an opaque name.
- Argument parsing (`DateOffset`, `TimeOffset`, `UTCOffset`, `DateTimeISO8601`, click/cloup) is left out. Options arrive already parsed, with deltas in whole seconds.
- `PhotosDB`, photoscript's selection, ExifTool's process, console and progress output, `sys.exit`, and the `--inspect` and `--compare-exif` exit paths of `cli` are not modelled, except for the compare line itself (`Cli.CompareLine`).
- The metadata extractor `get_exif_date_time_offset` is not part of this model. Its result is an input (`CompareExif.ExifDateTimeOffset`).
- Sub-second parts of `datetime` values are not modelled. Every time is in whole seconds.
- `Utils.Noop` takes any arguments and does nothing. It has no result to state anything about, so it has no row.
- `ExifUpdate.ExifUpdater.UpdatePhoto`: ExifTool's (warning, error) pair is an input, because ExifTool is not modelled. The model does not say how a tag write can fail.
- `PhotoTz.StoredTimezone`: `PhotoTimeZone.get_timezone` is not part of this model. The model gives it the behaviour its call sites imply, which is reading the same attribute row that the writer updates.
