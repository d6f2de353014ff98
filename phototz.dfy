/** photos_time_warp/phototz.py: writing a timezone straight into the Photos catalog.

    The catalog file is modelled as an in-memory database: the
    ZADDITIONALASSETATTRIBUTES rows, the asset table(s) those rows join to, and
    the schedule of faults the next steps will meet: a query or an UPDATE the engine
    refuses (a locked file, a busy engine), and a step after the UPDATE has committed
    that raises (closing the statement or the connection, or building the `verbose`
    message, which asks Photos for the file name). */
module PhotoTz {
  import opened Wrappers
  import opened TimeConv
  import opened Photos
  import PosixPath

  /** Inclusive range of catalog model versions of one Photos generation. */
  datatype VersionRange = VersionRange(lo: int, hi: int) {
    predicate Contains(v: int) {
      lo <= v <= hi
    }
  }

  /** The osxphotos constants phototz.py imports: `_PHOTOS_5/6/7_MODEL_VERSION` and the
      "ASSET" entries of `_DB_TABLE_NAMES`. */
  datatype PhotosConstants = PhotosConstants(v5: VersionRange, v6: VersionRange, v7: VersionRange,
                                             assetTable5: string, assetTable6: string, assetTable7: string)

  /** `get_photos_version`: the Photos generation of a catalog model version. */
  function GetPhotosVersion(modelVersion: int, c: PhotosConstants): (v: int)
    ensures v == 5 || v == 6 || v == 7
    ensures v == 5 <==> c.v5.Contains(modelVersion)
    ensures v == 6 <==> !c.v5.Contains(modelVersion) && c.v6.Contains(modelVersion)
    ensures v == 7 <==> !c.v5.Contains(modelVersion) && !c.v6.Contains(modelVersion)
  {
    if c.v5.Contains(modelVersion) then 5
    else if c.v6.Contains(modelVersion) then 6
    else if c.v7.Contains(modelVersion) then 7
    else 7
  }

  /** An unrecognised model version is treated as the newest generation rather than rejected. */
  lemma UnknownVersionFallsBack(modelVersion: int, c: PhotosConstants)
    requires !c.v5.Contains(modelVersion) && !c.v6.Contains(modelVersion) && !c.v7.Contains(modelVersion)
    ensures GetPhotosVersion(modelVersion, c) == 7
  {
  }

  /** `_DB_TABLE_NAMES[version]["ASSET"]`. */
  function AssetTable(version: int, c: PhotosConstants): string
    requires version == 5 || version == 6 || version == 7
  {
    if version == 5 then c.assetTable5 else if version == 6 then c.assetTable6 else c.assetTable7
  }

  /** What a library-path helper of osxphotos gave: a path ("" for None) or an exception. */
  datatype Lookup = Found(path: string) | Raises

  /** Why the updater cannot be built: no library path at all (FileNotFoundError), or the
      catalog at the chosen path could not be read for its model version. */
  datatype PathError = PhotosDatabaseNotFound | DatabaseUnreadable

  const DatabaseRelPath := "database/Photos.sqlite"

  /** The same path as the segments pathlib appends. */
  const DatabaseRelParts: seq<string> := ["database", "Photos.sqlite"]

  lemma DatabaseRelPartsJoin()
    ensures |DatabaseRelParts| >= 1 && PosixPath.Join(DatabaseRelParts) == DatabaseRelPath
  {
    assert DatabaseRelParts[1..] == ["Photos.sqlite"];
  }

  /** `str(pathlib.Path(library) / "database/Photos.sqlite")`: pathlib drops empty and "."
      segments of the library path, keeps its root, and joins with single slashes. */
  function DatabasePathIn(library: string): (p: string)
    requires library != []
    ensures |p| >= |DatabaseRelPath| && p[|p| - |DatabaseRelPath|..] == DatabaseRelPath
    ensures |p| > |DatabaseRelPath| ==> p[|p| - |DatabaseRelPath| - 1] == '/'
  {
    DatabaseRelPartsJoin();
    PosixPath.JoinPathSuffix(library, DatabaseRelParts);
    PosixPath.JoinPath(library, DatabaseRelParts)
  }

  /** A library path written without empty or "." segments, relative or under one slash,
      gets the database path appended after one slash. */
  lemma DatabasePathClean(tail: string)
    requires tail != [] && tail[0] != '/'
    requires forall i :: 0 <= i < |PosixPath.Split(tail)| ==> !PosixPath.Dropped(PosixPath.Split(tail)[i])
    ensures DatabasePathIn(tail) == tail + "/" + DatabaseRelPath
    ensures DatabasePathIn("/" + tail) == "/" + tail + "/" + DatabaseRelPath
  {
    DatabaseRelPartsJoin();
    PosixPath.JoinPathClean(tail, DatabaseRelParts);
    PosixPath.JoinPathCleanAbsolute(tail, DatabaseRelParts);
  }

  /** The database path from the root and the segments pathlib keeps of the library path. */
  lemma DatabasePathOf(library: string, root: string, kept: seq<string>)
    requires library != [] && PosixPath.Root(library) == root && PosixPath.Kept(PosixPath.Split(library)) == kept
    ensures DatabasePathIn(library) == root + if kept == [] then DatabaseRelPath else PosixPath.Join(kept) + "/" + DatabaseRelPath
  {
    DatabaseRelPartsJoin();
    PosixPath.JoinPathShape(library, DatabaseRelParts);
  }

  /** A trailing slash is dropped. */
  lemma DatabasePathTrailingSlash(library: string)
    requires library != [] && library[0] != '/'
    ensures DatabasePathIn(library + "/") == DatabasePathIn(library)
  {
    PosixPath.SplitTrailingSlash(library);
    PosixPath.KeptDropsLast(PosixPath.Split(library), "");
    var t := library + "/";
    assert t[0] == library[0];
  }

  /** A leading "./" is dropped. */
  lemma DatabasePathDotPrefix(library: string)
    requires library != [] && library[0] != '/'
    ensures DatabasePathIn("./" + library) == DatabasePathIn(library)
  {
    var t := "./" + library;
    assert t == ['.'] + ("/" + library);
    PosixPath.SplitUnderChar('.', "/" + library);
    PosixPath.SplitUnderSlash(library);
    var parts := PosixPath.Split(library);
    assert ([""] + parts)[0] == "" && ([""] + parts)[1..] == parts;
    assert ['.'] + "" == ".";
    assert PosixPath.Split(t) == ["."] + parts;
    PosixPath.KeptSkipsDropped(".", PosixPath.Split(library));
  }

  /** The current directory alone leaves the relative database path. */
  lemma DatabasePathDot()
    ensures DatabasePathIn(".") == "database/Photos.sqlite"
  {
    assert PosixPath.Split(".") == ["."];
    assert PosixPath.Kept(["."]) == [];
    DatabasePathOf(".", "", []);
  }

  /** The root alone keeps its slash. */
  lemma DatabasePathRoot()
    ensures DatabasePathIn("/") == "/database/Photos.sqlite"
  {
    assert PosixPath.Split("/") == ["", ""];
    assert PosixPath.Kept(["", ""]) == [];
    DatabasePathOf("/", "/", []);
  }

  /** The library choice of `PhotoTimeZoneUpdater.__init__`: `library_path or
      get_last_library_path() or get_system_library_path()`, evaluated left to right and
      only as far as needed; an exception from a helper that is reached, or no path at all,
      is FileNotFoundError. */
  function LibraryDatabasePath(libraryPath: string, last: Lookup, system: Lookup): (r: Result<string, PathError>)
    ensures libraryPath != [] ==> r == Ok(DatabasePathIn(libraryPath))
    ensures libraryPath == [] && last.Found? && last.path != [] ==> r == Ok(DatabasePathIn(last.path))
    ensures libraryPath == [] && last == Found([]) && system.Found? && system.path != [] ==> r == Ok(DatabasePathIn(system.path))
    ensures r.Err? <==> libraryPath == [] && (last.Raises? || (last.path == [] && (system.Raises? || system.path == [])))
    ensures r.Err? ==> r.error == PhotosDatabaseNotFound
  {
    if libraryPath != [] then Ok(DatabasePathIn(libraryPath))
    else if last.Raises? then Err(PhotosDatabaseNotFound)
    else if last.path != [] then Ok(DatabasePathIn(last.path))
    else if system.Raises? || system.path == [] then Err(PhotosDatabaseNotFound)
    else Ok(DatabasePathIn(system.path))
  }

  /** A row of the asset table (ZGENERICASSET or ZASSET). */
  datatype AssetRow = AssetRow(pk: int, uuid: string)

  /** A row of ZADDITIONALASSETATTRIBUTES: Z_PK, Z_OPT, ZASSET, ZTIMEZONEOFFSET, ZTIMEZONENAME. */
  datatype AttrRow = AttrRow(pk: int, opt: int, asset: int, tzOffset: int, tzName: string)

  /** The catalog's state as this file sees it: attribute rows, asset tables by name,
      and the faults still to come, one entry per step (true: that step raises). */
  datatype DbState = DbState(attrs: seq<AttrRow>, tables: map<string, seq<AssetRow>>, busy: seq<bool>)

  /** Whether the next step raises, and the schedule after it. */
  function NextFails(busy: seq<bool>): bool {
    busy != [] && busy[0]
  }

  function AfterCall(busy: seq<bool>): seq<bool> {
    if busy == [] then [] else busy[1..]
  }

  /** `attr.ZASSET = asset.Z_PK AND asset.ZUUID = uuid` holds for some asset row. */
  predicate Joins(r: AttrRow, assets: seq<AssetRow>, uuid: string) {
    exists a :: a in assets && a.pk == r.asset && a.uuid == uuid
  }

  /** Index of the first attribute row at or after i that joins to an asset with this uuid. */
  function FirstMatch(attrs: seq<AttrRow>, assets: seq<AssetRow>, uuid: string, i: nat): (r: Option<nat>)
    requires i <= |attrs|
    ensures r.Some? ==> i <= r.value < |attrs| && Joins(attrs[r.value], assets, uuid)
    ensures r.Some? ==> forall j :: i <= j < r.value ==> !Joins(attrs[j], assets, uuid)
    ensures r.None? ==> forall j :: i <= j < |attrs| ==> !Joins(attrs[j], assets, uuid)
    decreases |attrs| - i
  {
    if i == |attrs| then None
    else if Joins(attrs[i], assets, uuid) then Some(i)
    else FirstMatch(attrs, assets, uuid, i + 1)
  }

  /** The row `next(query(SELECT ... JOIN table ... WHERE ZUUID = uuid))` yields, or None where
      that raises (no such table, or StopIteration because nothing matched). */
  function SelectRow(st: DbState, table: string, uuid: string): Option<AttrRow> {
    if table !in st.tables then None
    else match FirstMatch(st.attrs, st.tables[table], uuid, 0)
      case None => None
      case Some(k) => Some(st.attrs[k])
  }

  /** `UPDATE ZADDITIONALASSETATTRIBUTES SET Z_OPT=opt, ZTIMEZONEOFFSET=off, ZTIMEZONENAME=name
      WHERE Z_PK=pk`: every row with that key is rewritten, every other row is kept. */
  function SetTimezone(attrs: seq<AttrRow>, pk: int, opt: int, off: int, name: string): (r: seq<AttrRow>)
    ensures |r| == |attrs|
    ensures forall i :: 0 <= i < |r| && attrs[i].pk != pk ==> r[i] == attrs[i]
    ensures forall i :: 0 <= i < |r| && attrs[i].pk == pk ==>
      r[i] == AttrRow(pk, opt, attrs[i].asset, off, name)
  {
    seq(|attrs|, i requires 0 <= i < |attrs| =>
      if attrs[i].pk == pk then attrs[i].(opt := opt, tzOffset := off, tzName := name) else attrs[i])
  }

  /** Z_PK is the table's primary key. */
  predicate UniqueKeys(attrs: seq<AttrRow>) {
    forall i, j :: 0 <= i < j < |attrs| ==> attrs[i].pk != attrs[j].pk
  }

  /** With unique keys the UPDATE touches the one row that has the key and no other. */
  lemma SetTimezoneOneRow(attrs: seq<AttrRow>, k: nat, opt: int, off: int, name: string)
    requires UniqueKeys(attrs) && k < |attrs|
    ensures SetTimezone(attrs, attrs[k].pk, opt, off, name)
      == attrs[k := attrs[k].(opt := opt, tzOffset := off, tzName := name)]
    ensures UniqueKeys(SetTimezone(attrs, attrs[k].pk, opt, off, name))
  {
    var r := SetTimezone(attrs, attrs[k].pk, opt, off, name);
    forall i | 0 <= i < |r|
      ensures r[i] == attrs[k := attrs[k].(opt := opt, tzOffset := off, tzName := name)][i]
    {
      if i != k {
        assert attrs[i].pk != attrs[k].pk;
      }
    }
  }

  /** The outcome of one call of `_update_photo`: the row it read and then rewrote; a failure
      before the UPDATE committed; or the row it read and rewrote, after which a later step
      raised, so that the call still counts as failed. */
  datatype Attempt = Written(read: AttrRow) | Failed | WrittenThenRaised(read: AttrRow)

  /** One call of `_update_photo` against the catalog state st: read the row, write Z_OPT + 1
      and the new offset and name back under the row's Z_PK, then finish (close the write,
      report it). Each of the three steps takes one entry of the fault schedule. */
  function AttemptSpec(st: DbState, table: string, uuid: string, off: int, name: string): (r: (DbState, Attempt))
    ensures r.0.tables == st.tables
    ensures r.1.Failed? ==> r.0.attrs == st.attrs
    ensures !r.1.Failed? ==> SelectRow(st, table, uuid) == Some(r.1.read)
    ensures !r.1.Failed? ==> r.0.attrs == SetTimezone(st.attrs, r.1.read.pk, r.1.read.opt + 1, off, name)
  {
    var afterQuery := st.(busy := AfterCall(st.busy));
    if NextFails(st.busy) then (afterQuery, Failed)
    else match SelectRow(st, table, uuid)
      case None => (afterQuery, Failed)
      case Some(row) =>
        var afterExec := afterQuery.(busy := AfterCall(afterQuery.busy));
        if NextFails(afterQuery.busy) then (afterExec, Failed)
        else
          var written := afterExec.(attrs := SetTimezone(st.attrs, row.pk, row.opt + 1, off, name),
                                    busy := AfterCall(afterExec.busy));
          if NextFails(afterExec.busy) then (written, WrittenThenRaised(row)) else (written, Written(row))
  }

  /** tenacity's `stop_after_attempt(10)`. */
  const MaxAttempts: nat := 10

  /** The final state, the row read by the attempt that completed (if any), the number of
      attempts made, and how many of the failed ones had already committed their UPDATE. */
  datatype Retried = Retried(st: DbState, read: Option<AttrRow>, attempts: nat, raisedAfterCommit: nat) {
    /** The UPDATEs that committed: every attempt that raised after its commit, and the one
        that completed. */
    function Commits(): nat {
      raisedAfterCommit + if read.Some? then 1 else 0
    }
  }

  /** `_update_photo` under `@retry`: attempts until one completes or `left` attempts have
      raised, whether before or after their commit. */
  function RetrySpec(st: DbState, table: string, uuid: string, off: int, name: string, left: nat): (r: Retried)
    ensures r.st.tables == st.tables
    ensures r.attempts <= left && r.Commits() <= r.attempts
    ensures r.read.Some? ==> 1 <= r.attempts
    ensures r.read.None? ==> r.attempts == left
    decreases left
  {
    if left == 0 then Retried(st, None, 0, 0)
    else
      var (st1, res) := AttemptSpec(st, table, uuid, off, name);
      match res
      case Written(row) => Retried(st1, Some(row), 1, 0)
      case Failed => Later(RetrySpec(st1, table, uuid, off, name, left - 1), 1, 0)
      case WrittenThenRaised(_) => Later(RetrySpec(st1, table, uuid, off, name, left - 1), 1, 1)
  }

  /** The same outcome, counted after n earlier attempts of which m committed. */
  function Later(r: Retried, n: nat, m: nat): Retried {
    Retried(r.st, r.read, r.attempts + n, r.raisedAfterCommit + m)
  }

  /** The first of `left` attempts either completes, ending the retry, or raises and leaves
      the rest to the next `left - 1`. */
  lemma RetryOnce(st: DbState, st1: DbState, res: Attempt, table: string, uuid: string, off: int, name: string, left: nat)
    requires 0 < left && (st1, res) == AttemptSpec(st, table, uuid, off, name)
    ensures res.Written? ==> RetrySpec(st, table, uuid, off, name, left) == Retried(st1, Some(res.read), 1, 0)
    ensures res.Failed? ==> RetrySpec(st, table, uuid, off, name, left) == Later(RetrySpec(st1, table, uuid, off, name, left - 1), 1, 0)
    ensures res.WrittenThenRaised? ==>
      RetrySpec(st, table, uuid, off, name, left) == Later(RetrySpec(st1, table, uuid, off, name, left - 1), 1, 1)
  {
  }

  /** When no attempt raises after its commit, retries do not double-bump: a write happens at
      most once, under the row selected in the starting state, with Z_OPT one more than that
      state's value; all failures leave the rows alone. */
  lemma {:induction false} RetryWritesOnce(st: DbState, table: string, uuid: string, off: int, name: string, left: nat)
    ensures var r := RetrySpec(st, table, uuid, off, name, left);
      r.raisedAfterCommit == 0 ==>
      && (r.read.None? ==> r.st.attrs == st.attrs)
      && (r.read.Some? ==> SelectRow(st, table, uuid) == r.read
                           && r.st.attrs == SetTimezone(st.attrs, r.read.value.pk, r.read.value.opt + 1, off, name))
    decreases left
  {
    if left > 0 {
      var (st1, res) := AttemptSpec(st, table, uuid, off, name);
      if res.Failed? {
        assert st1.attrs == st.attrs && st1.tables == st.tables;
        assert SelectRow(st1, table, uuid) == SelectRow(st, table, uuid);
        RetryWritesOnce(st1, table, uuid, off, name, left - 1);
      }
    }
  }

  /** A write under unique keys rewrites the matched row in place and keeps it the first
      match, so the next attempt reads it again. */
  lemma SelectAfterWrite(attrs: seq<AttrRow>, assets: seq<AssetRow>, uuid: string, k: nat, opt: int, off: int, name: string)
    requires UniqueKeys(attrs) && FirstMatch(attrs, assets, uuid, 0) == Some(k)
    ensures var attrs' := SetTimezone(attrs, attrs[k].pk, opt, off, name);
      && attrs' == attrs[k := attrs[k].(opt := opt, tzOffset := off, tzName := name)]
      && UniqueKeys(attrs') && FirstMatch(attrs', assets, uuid, 0) == Some(k)
  {
    SetTimezoneOneRow(attrs, k, opt, off, name);
    var attrs' := SetTimezone(attrs, attrs[k].pk, opt, off, name);
    assert attrs'[k].asset == attrs[k].asset;
    assert Joins(attrs'[k], assets, uuid);
    forall j | 0 <= j < k
      ensures !Joins(attrs'[j], assets, uuid)
    {
      assert attrs'[j] == attrs[j];
    }
    FirstMatchIs(attrs', assets, uuid, k);
  }

  /** Row k rewritten after n committed UPDATEs: Z_OPT up by n, the new offset and name. */
  function Bumped(attrs: seq<AttrRow>, k: nat, n: int, off: int, name: string): seq<AttrRow>
    requires k < |attrs|
  {
    attrs[k := attrs[k].(opt := attrs[k].opt + n, tzOffset := off, tzName := name)]
  }

  /** Bumping m times after one bump is bumping m + 1 times. */
  lemma BumpedAgain(attrs: seq<AttrRow>, k: nat, m: int, off: int, name: string)
    requires k < |attrs|
    ensures Bumped(Bumped(attrs, k, 1, off, name), k, m, off, name) == Bumped(attrs, k, m + 1, off, name)
  {
  }

  /** Every committed UPDATE bumps Z_OPT once more: under unique keys the photo's row ends with
      its starting Z_OPT plus the number of commits and the new offset and name, and no other
      row changes. */
  lemma {:induction false} RetryBumpsPerCommit(st: DbState, table: string, uuid: string, off: int, name: string,
                                               left: nat, k: nat)
    requires UniqueKeys(st.attrs) && table in st.tables && FirstMatch(st.attrs, st.tables[table], uuid, 0) == Some(k)
    ensures var r := RetrySpec(st, table, uuid, off, name, left);
      r.st.attrs == if r.Commits() == 0 then st.attrs else Bumped(st.attrs, k, r.Commits(), off, name)
    decreases left, 2
  {
    if left > 0 {
      var (st1, res) := AttemptSpec(st, table, uuid, off, name);
      RetryOnce(st, st1, res, table, uuid, off, name, left);
      if res.Failed? {
        RetryBumpsPerCommit(st1, table, uuid, off, name, left - 1, k);
      } else {
        RetryBumpsAfterCommit(st, st1, res, table, uuid, off, name, left, k);
      }
    }
  }

  /** An attempt that commits under unique keys read row k and leaves it bumped once, still
      the first match for the uuid. */
  lemma CommitBumpsOnce(st: DbState, st1: DbState, res: Attempt, table: string, uuid: string,
                        off: int, name: string, k: nat)
    requires UniqueKeys(st.attrs) && table in st.tables && FirstMatch(st.attrs, st.tables[table], uuid, 0) == Some(k)
    requires (st1, res) == AttemptSpec(st, table, uuid, off, name) && !res.Failed?
    ensures res.read == st.attrs[k] && st1.tables == st.tables
    ensures st1.attrs == Bumped(st.attrs, k, 1, off, name)
    ensures UniqueKeys(st1.attrs) && FirstMatch(st1.attrs, st1.tables[table], uuid, 0) == Some(k)
  {
    SelectAfterWrite(st.attrs, st.tables[table], uuid, k, res.read.opt + 1, off, name);
  }

  /** RetryBumpsPerCommit when the first attempt commits. */
  lemma {:induction false} RetryBumpsAfterCommit(st: DbState, st1: DbState, res: Attempt, table: string, uuid: string,
                                                 off: int, name: string, left: nat, k: nat)
    requires UniqueKeys(st.attrs) && table in st.tables && FirstMatch(st.attrs, st.tables[table], uuid, 0) == Some(k)
    requires 0 < left && (st1, res) == AttemptSpec(st, table, uuid, off, name) && !res.Failed?
    ensures var r := RetrySpec(st, table, uuid, off, name, left);
      r.st.attrs == if r.Commits() == 0 then st.attrs else Bumped(st.attrs, k, r.Commits(), off, name)
    decreases left, 1
  {
    CommitBumpsOnce(st, st1, res, table, uuid, off, name, k);
    RetryOnce(st, st1, res, table, uuid, off, name, left);
    if res.WrittenThenRaised? {
      var r1 := RetrySpec(st1, table, uuid, off, name, left - 1);
      RetryBumpsAfterRaise(st.attrs, st1, table, uuid, off, name, left, k, r1);
    }
  }

  /** The same when that attempt raised after its commit: the later attempts, which start from
      the row bumped once, bump it once per commit of theirs. */
  lemma {:induction false} RetryBumpsAfterRaise(attrs: seq<AttrRow>, st1: DbState, table: string, uuid: string,
                                                off: int, name: string, left: nat, k: nat, r1: Retried)
    requires k < |attrs| && st1.attrs == Bumped(attrs, k, 1, off, name)
    requires UniqueKeys(st1.attrs) && table in st1.tables && FirstMatch(st1.attrs, st1.tables[table], uuid, 0) == Some(k)
    requires 0 < left && r1 == RetrySpec(st1, table, uuid, off, name, left - 1)
    ensures Later(r1, 1, 1).st.attrs == Bumped(attrs, k, Later(r1, 1, 1).Commits(), off, name)
    decreases left, 0
  {
    RetryBumpsPerCommit(st1, table, uuid, off, name, left - 1, k);
    BumpsAfterRaise(attrs, st1.attrs, r1.st.attrs, k, r1.Commits(), off, name);
  }

  /** The induction step of RetryBumpsPerCommit for an attempt that committed and raised. */
  lemma BumpsAfterRaise(attrs: seq<AttrRow>, attrs1: seq<AttrRow>, final: seq<AttrRow>, k: nat, c: nat, off: int, name: string)
    requires k < |attrs| && attrs1 == Bumped(attrs, k, 1, off, name)
    requires final == if c == 0 then attrs1 else Bumped(attrs1, k, c, off, name)
    ensures final == Bumped(attrs, k, c + 1, off, name)
  {
    if c > 0 {
      BumpedAgain(attrs, k, c, off, name);
    }
  }

  /** Attempt 1 commits and then raises, attempt 2 runs undisturbed: the row is written twice
      and ends with Z_OPT + 2, and what attempt 2 reports as the old timezone is the one
      attempt 1 wrote. */
  lemma RaiseAfterCommitBumpsTwice(attrs: seq<AttrRow>, tables: map<string, seq<AssetRow>>, table: string,
                                   uuid: string, off: int, name: string, k: nat)
    requires UniqueKeys(attrs) && table in tables && FirstMatch(attrs, tables[table], uuid, 0) == Some(k)
    ensures var r := RetrySpec(DbState(attrs, tables, [false, false, true]), table, uuid, off, name, MaxAttempts);
      && r.attempts == 2 && r.raisedAfterCommit == 1
      && r.read == Some(attrs[k].(opt := attrs[k].opt + 1, tzOffset := off, tzName := name))
      && r.st.attrs == Bumped(attrs, k, 2, off, name)
  {
    var st := DbState(attrs, tables, [false, false, true]);
    var (st1, res) := AttemptSpec(st, table, uuid, off, name);
    assert res == WrittenThenRaised(attrs[k]);
    SelectAfterWrite(attrs, tables[table], uuid, k, attrs[k].opt + 1, off, name);
    assert st1.busy == [];
    var (st2, res2) := AttemptSpec(st1, table, uuid, off, name);
    assert res2 == Written(st1.attrs[k]);
    RetryBumpsPerCommit(st, table, uuid, off, name, MaxAttempts, k);
  }

  /** A fault schedule under which every one of n attempts commits and then raises. */
  function RaiseAfterEveryCommit(n: nat): (s: seq<bool>)
    ensures |s| == 3 * n
    ensures forall i :: 0 <= i < |s| ==> s[i] == (i % 3 == 2)
  {
    if n == 0 then [] else [false, false, true] + RaiseAfterEveryCommit(n - 1)
  }

  /** An attempt under a schedule that starts "query, UPDATE, then raise" commits and raises. */
  lemma AttemptRaisesAfterCommit(st: DbState, table: string, uuid: string, off: int, name: string, rest: seq<bool>)
    requires st.busy == [false, false, true] + rest && SelectRow(st, table, uuid).Some?
    ensures AttemptSpec(st, table, uuid, off, name).1.WrittenThenRaised?
    ensures AttemptSpec(st, table, uuid, off, name).0.busy == rest
  {
    assert AfterCall(st.busy) == [false, true] + rest;
    assert AfterCall(AfterCall(st.busy)) == [true] + rest;
  }

  /** Under that schedule all n attempts write and all fail: the row is bumped n times and the
      retry still ends without a completed attempt, so the caller reports an error. */
  lemma {:induction false} RetryRaisesAfterEveryCommit(attrs: seq<AttrRow>, tables: map<string, seq<AssetRow>>, table: string,
                                                       uuid: string, off: int, name: string, k: nat, n: nat)
    requires UniqueKeys(attrs) && table in tables && FirstMatch(attrs, tables[table], uuid, 0) == Some(k)
    ensures var r := RetrySpec(DbState(attrs, tables, RaiseAfterEveryCommit(n)), table, uuid, off, name, n);
      && r.read.None? && r.attempts == n && r.raisedAfterCommit == n
      && (n > 0 ==> r.st.attrs == Bumped(attrs, k, n, off, name))
    decreases n
  {
    var st := DbState(attrs, tables, RaiseAfterEveryCommit(n));
    if n > 0 {
      var rest := RaiseAfterEveryCommit(n - 1);
      assert st.busy == [false, false, true] + rest;
      AttemptRaisesAfterCommit(st, table, uuid, off, name, rest);
      var (st1, res) := AttemptSpec(st, table, uuid, off, name);
      RetryOnce(st, st1, res, table, uuid, off, name, n);
      CommitBumpsOnce(st, st1, res, table, uuid, off, name, k);
      assert st1 == DbState(st1.attrs, tables, rest);
      RetryRaisesAfterEveryCommit(st1.attrs, tables, table, uuid, off, name, k, n - 1);
      RetryBumpsPerCommit(st, table, uuid, off, name, n, k);
    }
  }

  /** If no row joins to the uuid, every attempt fails and nothing is written. */
  lemma {:induction false} RetryNoRow(st: DbState, table: string, uuid: string, off: int, name: string, left: nat)
    requires SelectRow(st, table, uuid).None?
    ensures var r := RetrySpec(st, table, uuid, off, name, left);
      r.read.None? && r.st.attrs == st.attrs && r.attempts == left && r.raisedAfterCommit == 0
    decreases left
  {
    if left > 0 {
      var (st1, res) := AttemptSpec(st, table, uuid, off, name);
      assert SelectRow(st1, table, uuid) == SelectRow(st, table, uuid);
      RetryNoRow(st1, table, uuid, off, name, left - 1);
    }
  }

  /** n refused queries, one per attempt, then a quiet engine. */
  function Failures(n: nat): (s: seq<bool>)
    ensures |s| == n && forall i :: 0 <= i < n ==> s[i]
  {
    if n == 0 then [] else [true] + Failures(n - 1)
  }

  /** If the first n attempts fail before writing and the next one runs undisturbed, it
      completes and the row ends with the starting Z_OPT plus one, not plus n + 1; with unique
      keys that row is the only one that changes. */
  lemma {:induction false} RetryAfterFailures(attrs: seq<AttrRow>, tables: map<string, seq<AssetRow>>, table: string,
                                              uuid: string, off: int, name: string, n: nat, left: nat)
    requires n < left
    requires table in tables && FirstMatch(attrs, tables[table], uuid, 0).Some?
    ensures var k := FirstMatch(attrs, tables[table], uuid, 0).value;
      var r := RetrySpec(DbState(attrs, tables, Failures(n)), table, uuid, off, name, left);
      && r.read == Some(attrs[k]) && r.attempts == n + 1 && r.raisedAfterCommit == 0
      && r.st.attrs == SetTimezone(attrs, attrs[k].pk, attrs[k].opt + 1, off, name)
      && (UniqueKeys(attrs) ==> r.st.attrs == attrs[k := attrs[k].(opt := attrs[k].opt + 1, tzOffset := off, tzName := name)])
    decreases n
  {
    var k := FirstMatch(attrs, tables[table], uuid, 0).value;
    if n > 0 {
      assert Failures(n)[1..] == Failures(n - 1);
      RetryAfterFailures(attrs, tables, table, uuid, off, name, n - 1, left - 1);
    }
    if UniqueKeys(attrs) {
      SetTimezoneOneRow(attrs, k, attrs[k].opt + 1, off, name);
    }
  }

  /** The offset and name Photos has stored for a uuid (PhotoTimeZone.get_timezone), or None
      when no row joins to it. */
  function StoredTimezone(st: DbState, table: string, uuid: string): (r: Option<Timezone>)
    ensures r.Some? <==> SelectRow(st, table, uuid).Some?
    ensures r.Some? ==> r.value.offset == SelectRow(st, table, uuid).value.tzOffset
  {
    match SelectRow(st, table, uuid)
    case None => None
    case Some(row) => Some(Timezone(row.tzOffset, row.tzName))
  }

  /** Once an attempt completes under unique keys, the photo's stored timezone is the one
      written, however many earlier attempts also wrote. */
  lemma {:induction false} StoredAfterRetry(st: DbState, table: string, uuid: string, off: int, name: string, left: nat)
    requires UniqueKeys(st.attrs)
    ensures var r := RetrySpec(st, table, uuid, off, name, left);
      r.read.Some? ==> StoredTimezone(r.st, table, uuid) == Some(Timezone(off, name)) && UniqueKeys(r.st.attrs)
    decreases left, 1
  {
    if left > 0 {
      var (st1, res) := AttemptSpec(st, table, uuid, off, name);
      RetryOnce(st, st1, res, table, uuid, off, name, left);
      if res.Failed? {
        StoredAfterRetry(st1, table, uuid, off, name, left - 1);
      } else {
        StoredAfterCommit(st, st1, res, table, uuid, off, name, left);
      }
    }
  }

  /** StoredAfterRetry when the first attempt commits. */
  lemma {:induction false} StoredAfterCommit(st: DbState, st1: DbState, res: Attempt, table: string, uuid: string,
                                             off: int, name: string, left: nat)
    requires UniqueKeys(st.attrs) && 0 < left
    requires (st1, res) == AttemptSpec(st, table, uuid, off, name) && !res.Failed?
    ensures var r := RetrySpec(st, table, uuid, off, name, left);
      r.read.Some? ==> StoredTimezone(r.st, table, uuid) == Some(Timezone(off, name)) && UniqueKeys(r.st.attrs)
    decreases left, 0
  {
    RetryOnce(st, st1, res, table, uuid, off, name, left);
    var k := FirstMatch(st.attrs, st.tables[table], uuid, 0).value;
    CommitBumpsOnce(st, st1, res, table, uuid, off, name, k);
    if res.WrittenThenRaised? {
      StoredAfterRetry(st1, table, uuid, off, name, left - 1);
    }
  }

  /** FirstMatch finds k when k joins and nothing before it does. */
  lemma FirstMatchIs(attrs: seq<AttrRow>, assets: seq<AssetRow>, uuid: string, k: nat)
    requires k < |attrs| && Joins(attrs[k], assets, uuid)
    requires forall j :: 0 <= j < k ==> !Joins(attrs[j], assets, uuid)
    ensures FirstMatch(attrs, assets, uuid, 0) == Some(k)
  {
    var r := FirstMatch(attrs, assets, uuid, 0);
    assert r.Some?;
  }

  /** What the updater passes to `verbose`. */
  datatype Event =
    | Updated(filename: string, uuid: string, fromName: string, fromOffset: int, toName: string, toOffset: int)
    | UpdateError(uuid: string)

  /** The catalog file at the updater's database path. */
  class CatalogDb {
    var attrs: seq<AttrRow>
    const tables: map<string, seq<AssetRow>>
    var busy: seq<bool>

    ghost function State(): DbState
      reads this
    {
      DbState(attrs, tables, busy)
    }

    constructor (attrs: seq<AttrRow>, tables: map<string, seq<AssetRow>>, busy: seq<bool>)
      ensures State() == DbState(attrs, tables, busy)
    {
      this.attrs := attrs;
      this.tables := tables;
      this.busy := busy;
    }

    /** `next(query(db_path, SELECT ...))`: the matching row, or None where that raises. */
    method QueryTimezoneRow(table: string, uuid: string) returns (r: Option<AttrRow>)
      modifies this`busy
      ensures busy == AfterCall(old(busy))
      ensures r == if NextFails(old(busy)) then None else SelectRow(old(State()), table, uuid)
    {
      var fails := busy != [] && busy[0];
      busy := AfterCall(busy);
      if fails {
        r := None;
      } else if table !in tables {
        r := None;
      } else {
        var k := FirstMatch(attrs, tables[table], uuid, 0);
        r := if k.Some? then Some(attrs[k.value]) else None;
      }
    }

    /** `execute(db_path, UPDATE ...)`: false where the engine raised and nothing was written. */
    method ExecuteSetTimezone(pk: int, opt: int, off: int, name: string) returns (ok: bool)
      modifies this`busy, this`attrs
      ensures busy == AfterCall(old(busy))
      ensures ok == !NextFails(old(busy))
      ensures attrs == if ok then SetTimezone(old(attrs), pk, opt, off, name) else old(attrs)
    {
      ok := !(busy != [] && busy[0]);
      busy := AfterCall(busy);
      if ok {
        attrs := SetTimezone(attrs, pk, opt, off, name);
      }
    }

    /** The steps after a committed UPDATE: false where one of them raised. */
    method FinishAfterCommit() returns (ok: bool)
      modifies this`busy
      ensures busy == AfterCall(old(busy))
      ensures ok == !NextFails(old(busy))
    {
      ok := !(busy != [] && busy[0]);
      busy := AfterCall(busy);
    }
  }

  class PhotoTimeZoneUpdater {
    const timezone: Timezone
    const tzOffset: int
    const tzName: string
    const dbPath: string
    const assetTable: string
    /** Messages passed to `verbose`, oldest first. */
    var log: seq<Event>

    /** `__init__` once the library has been found: the database path and the asset table of
        the catalog's Photos generation. */
    constructor (timezone: Timezone, dbPath: string, modelVersion: int, c: PhotosConstants)
      ensures this.timezone == timezone && tzOffset == timezone.offset && tzName == timezone.name
      ensures this.dbPath == dbPath && assetTable == AssetTable(GetPhotosVersion(modelVersion, c), c)
      ensures log == []
    {
      this.timezone := timezone;
      tzOffset := timezone.offset;
      tzName := timezone.name;
      this.dbPath := dbPath;
      assetTable := AssetTable(GetPhotosVersion(modelVersion, c), c);
      log := [];
    }

    /** One call of `_update_photo`: read, write, then report the change to `verbose`. A step
        that raises after the commit leaves the row written and the message unsent. */
    method UpdateAttempt(photo: Photo, db: CatalogDb) returns (res: Attempt)
      modifies db, this`log
      ensures (db.State(), res) == AttemptSpec(old(db.State()), assetTable, photo.uuid, tzOffset, tzName)
      ensures res.Written? ==> log == old(log) + [Updated(photo.filename, photo.uuid, res.read.tzName, res.read.tzOffset, tzName, tzOffset)]
      ensures !res.Written? ==> log == old(log)
    {
      var row := db.QueryTimezoneRow(assetTable, photo.uuid);
      if row.None? {
        return Failed;
      }
      var zOpt := row.value.opt + 1;
      var zPk := row.value.pk;
      var ok := db.ExecuteSetTimezone(zPk, zOpt, tzOffset, tzName);
      if !ok {
        return Failed;
      }
      var finished := db.FinishAfterCommit();
      if !finished {
        return WrittenThenRaised(row.value);
      }
      log := log + [Updated(photo.filename, photo.uuid, row.value.tzName, row.value.tzOffset, tzName, tzOffset)];
      res := Written(row.value);
    }

    /** `_update_photo` as the `@retry` decorator runs it: at most MaxAttempts calls, each
        starting again from a fresh read; only the call that completes reports the change. */
    method UpdateWithRetry(photo: Photo, db: CatalogDb) returns (read: Option<AttrRow>, attempts: nat)
      modifies db, this`log
      ensures var r := RetrySpec(old(db.State()), assetTable, photo.uuid, tzOffset, tzName, MaxAttempts);
        db.State() == r.st && read == r.read && attempts == r.attempts
      ensures read.Some? ==> log == old(log) + [Updated(photo.filename, photo.uuid, read.value.tzName, read.value.tzOffset, tzName, tzOffset)]
      ensures read.None? ==> log == old(log)
    {
      read, attempts := None, 0;
      ghost var raised := 0;
      ghost var goal := RetrySpec(db.State(), assetTable, photo.uuid, tzOffset, tzName, MaxAttempts);
      ghost var st := db.State();
      while attempts < MaxAttempts && read.None?
        invariant attempts <= MaxAttempts && st == db.State()
        invariant read.None? ==> log == old(log)
        invariant read.None? ==>
          goal == Later(RetrySpec(st, assetTable, photo.uuid, tzOffset, tzName, MaxAttempts - attempts), attempts, raised)
        invariant read.Some? ==> goal == Retried(st, read, attempts, raised)
        invariant read.Some? ==>
          log == old(log) + [Updated(photo.filename, photo.uuid, read.value.tzName, read.value.tzOffset, tzName, tzOffset)]
        decreases MaxAttempts - attempts
      {
        var res := UpdateAttempt(photo, db);
        RetryOnce(st, db.State(), res, assetTable, photo.uuid, tzOffset, tzName, MaxAttempts - attempts);
        st := db.State();
        attempts := attempts + 1;
        match res
        case Written(row) =>
          read := Some(row);
        case WrittenThenRaised(_) =>
          raised := raised + 1;
        case Failed =>
      }
    }

    /** `update_photo`: never raises; when no attempt completed the error goes to `verbose`,
        even where earlier attempts committed their UPDATE. */
    method UpdatePhoto(photo: Photo, db: CatalogDb) returns (written: bool)
      modifies db, this`log
      ensures var r := RetrySpec(old(db.State()), assetTable, photo.uuid, tzOffset, tzName, MaxAttempts);
        && db.State() == r.st && written == r.read.Some?
        && log == old(log) + match r.read
             case Some(row) => [Updated(photo.filename, photo.uuid, row.tzName, row.tzOffset, tzName, tzOffset)]
             case None => [UpdateError(photo.uuid)]
    {
      var read, attempts := UpdateWithRetry(photo, db);
      written := read.Some?;
      if !written {
        log := log + [UpdateError(photo.uuid)];
      }
    }
  }

  /** `PhotoTimeZoneUpdater(timezone, verbose, library_path)`: finds the library, then reads the
      catalog's model version (None: that read raised) and builds the updater;
      FileNotFoundError when no library path can be found. */
  method NewUpdater(timezone: Timezone, libraryPath: string, last: Lookup, system: Lookup,
                    modelVersion: Option<int>, c: PhotosConstants)
    returns (r: Result<PhotoTimeZoneUpdater, PathError>)
    ensures r.Err? <==> LibraryDatabasePath(libraryPath, last, system).Err? || modelVersion.None?
    ensures r.Err? ==> r.error == if LibraryDatabasePath(libraryPath, last, system).Err?
                                 then PhotosDatabaseNotFound else DatabaseUnreadable
    ensures r.Ok? ==> (fresh(r.value) && r.value.dbPath == LibraryDatabasePath(libraryPath, last, system).value
      && r.value.tzOffset == timezone.offset && r.value.tzName == timezone.name && r.value.log == []
      && r.value.assetTable == AssetTable(GetPhotosVersion(modelVersion.value, c), c))
  {
    var path := LibraryDatabasePath(libraryPath, last, system);
    if path.Err? {
      return Err(path.error);
    }
    if modelVersion.None? {
      return Err(DatabaseUnreadable);
    }
    var u := new PhotoTimeZoneUpdater(timezone, path.value, modelVersion.value, c);
    r := Ok(u);
  }
}
