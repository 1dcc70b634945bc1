/** ecs-url-to-csv.py: the module-level `CACHE` (old rows, new rows, the
    change list and the raw download), the files of the data directory, and
    the steps of `main` that download the published CSV, compare it with the
    cached file and rotate the cached file to a versioned name when they
    differ. The files of the data directory are a map from file name to the
    file's tokenised lines; the download is a parameter. */
module CacheRotation {
  import opened Wrappers
  import opened Records
  import opened Text
  import opened SchemaReader
  import ChangeDetector

  /** ECS_CSV_FILE and ECS_CSV_TEMFILE, inside the data directory. */
  const CacheFile: string := "ecs.csv"
  const TempFile: string := "ecs-tempfile.csv"

  /** `readfile(name)`: a missing file raises, anything else is read. */
  function Load(files: map<string, Csv>, name: string): Result<Snapshot>
  {
    if name !in files then Err(FileNotFound(name)) else Read(files[name])
  }

  /** `CACHE["CONTENT"]["OLD"][-1]["ECS_Version"]`: the version the archive
      is named after, taken from the last cached row. */
  function ArchiveVersion(oldRows: Option<Snapshot>): Result<Value>
  {
    if oldRows.None? then Err(TypeError)
    else if |oldRows.value| == 0 then Err(IndexError)
    else match Find(oldRows.value[|oldRows.value| - 1], ChangeDetector.VersionKey)
      case None => Err(KeyError(ChangeDetector.VersionKey))
      case Some(v) => Ok(v)
  }

  /** `ECS_CSV_FILE.name.replace(".csv", f".{version}.csv")` */
  function ArchiveName(version: Value): string
  {
    Replace(CacheFile, ".csv", "." + PyStr(version) + ".csv")
  }

  /** In the cache file's name, `.csv` occurs once, at the end. */
  lemma CacheFileReplaced(rep: string)
    ensures Replace(CacheFile, ".csv", rep) == "ecs" + rep
  {
    var f := CacheFile;
    assert f[..4] != ".csv" && f[1..][..4] != ".csv" && f[2..][..4] != ".csv";
    assert f[3..] == ".csv" && f[3..][4..] == [];
    assert f[1..][1..][1..] == f[3..];
  }

  /** The archive is `ecs.<version>.csv`, which never overwrites the cache
      file or the temporary file. */
  lemma ArchiveNameShape(version: Value)
    ensures ArchiveName(version) == "ecs" + ("." + PyStr(version) + ".csv")
    ensures ArchiveName(version) != CacheFile && ArchiveName(version) != TempFile
  {
    CacheFileReplaced("." + PyStr(version) + ".csv");
    assert ArchiveName(version)[3] == '.' && TempFile[3] == '-';
  }

  /** What a call of `update_content` leaves behind: how it ended and the
      files of the data directory. */
  datatype Effect = Effect(outcome: Outcome, files: map<string, Csv>)

  /** `update_content` with its progress message naming the archive file:
      the cache file is copied to the archive named after the last cached
      row's version, and the raw download is written over the cache file.
      Writing a missing download raises after the cache file was opened for
      writing, so the cache file is left empty. */
  function Update(oldRows: Option<Snapshot>, raw: Option<Csv>, files: map<string, Csv>): Effect
  {
    match ArchiveVersion(oldRows)
    case Err(e) => Effect(Fail(e), files)
    case Ok(v) =>
      if CacheFile !in files then Effect(Fail(FileNotFound(CacheFile)), files)
      else
        var archived := files[ArchiveName(v) := files[CacheFile]];
        if raw.None? then Effect(Fail(TypeError), archived[CacheFile := []])
        else Effect(Pass, archived[CacheFile := raw.value])
  }

  /** `update_content` as written: it prints `oldfile_name.name`, and
      `oldfile_name` is a `str`, so the call raises `AttributeError` before
      any file is opened. */
  function UpdateAsWritten(oldRows: Option<Snapshot>, raw: Option<Csv>, files: map<string, Csv>): Effect
  {
    match ArchiveVersion(oldRows)
    case Err(e) => Effect(Fail(e), files)
    case Ok(_) => Effect(Fail(AttributeError), files)
  }

  /** As written, no call of `update_content` ever rotates: every call
      raises and no file changes. Given a cached snapshot whose last row has
      a version, a cache file and a download, the call with the message fixed
      archives the old cache file and installs the download. */
  lemma AsWrittenNeverRotates(oldRows: Option<Snapshot>, raw: Option<Csv>, files: map<string, Csv>)
    ensures UpdateAsWritten(oldRows, raw, files).outcome.Fail?
    ensures UpdateAsWritten(oldRows, raw, files).files == files
    ensures ArchiveVersion(oldRows).Ok? ==> UpdateAsWritten(oldRows, raw, files).outcome == Fail(AttributeError)
    ensures ArchiveVersion(oldRows).Ok? && CacheFile in files && raw.Some? ==>
      var name := ArchiveName(ArchiveVersion(oldRows).value);
      var after := Update(oldRows, raw, files);
      after.outcome == Pass && name in after.files && after.files[name] == files[CacheFile]
      && CacheFile in after.files && after.files[CacheFile] == raw.value
  {
    if ArchiveVersion(oldRows).Ok? {
      ArchiveNameShape(ArchiveVersion(oldRows).value);
    }
  }

  /** Which operations of `update_content` touch which file: only the cache
      file and the archive ever change, the archive receives the old cache
      file, and the cache file receives the download. */
  lemma UpdateTouches(oldRows: Option<Snapshot>, raw: Option<Csv>, files: map<string, Csv>)
    ensures var after := Update(oldRows, raw, files);
      after.outcome.Pass? <==> ArchiveVersion(oldRows).Ok? && CacheFile in files && raw.Some?
    ensures var after := Update(oldRows, raw, files);
      forall k :: k in files ==> k in after.files
    ensures var after := Update(oldRows, raw, files);
      ArchiveVersion(oldRows).Err? || CacheFile !in files ==> after.files == files
    ensures ArchiveVersion(oldRows).Ok? && CacheFile in files ==>
      var name := ArchiveName(ArchiveVersion(oldRows).value);
      var after := Update(oldRows, raw, files);
      after.files.Keys == files.Keys + {name}
      && after.files[name] == files[CacheFile]
      && after.files[CacheFile] == (if raw.None? then [] else raw.value)
      && forall k :: k in files && k != name && k != CacheFile ==> after.files[k] == files[k]
  {
    if ArchiveVersion(oldRows).Ok? {
      ArchiveNameShape(ArchiveVersion(oldRows).value);
    }
  }

  /** How `main` ends: `sys.exit(code)`, or an exception nobody catches. */
  datatype Termination = Exited(code: int) | Raised(error: Exception)

  /** What a run of `main` leaves behind. */
  datatype Exit = Exit(status: Termination, files: map<string, Csv>)

  /** A run of `main`, from the files it starts with and what the download
      returns: the stale temporary file is removed, the cache is loaded (any
      exception escapes), a failing comparison exits with status 1 and leaves
      the temporary file behind, a detected change calls `update_content`
      (`UpdateAsWritten` when `asWritten`, `Update` otherwise), and a run that
      gets past it removes the temporary file and exits with status 0. */
  function SessionWith(files0: map<string, Csv>, fetched: Result<Csv>, asWritten: bool): Exit
  {
    var start := files0 - {TempFile};
    var o := Load(start, CacheFile);
    if o.Err? then Exit(Raised(o.error), start)
    else if fetched.Err? then Exit(Raised(fetched.error), start)
    else
      var downloaded := start[TempFile := fetched.value];
      var n := Read(fetched.value);
      if n.Err? then Exit(Raised(n.error), downloaded)
      else
        var changed := ChangeDetector.ContentChanged(Some(o.value), Some(n.value));
        if changed.Err? then Exit(Exited(1), downloaded)
        else if !changed.value then Exit(Exited(0), downloaded - {TempFile})
        else
          var u := if asWritten then UpdateAsWritten(Some(o.value), Some(fetched.value), downloaded)
                   else Update(Some(o.value), Some(fetched.value), downloaded);
          if u.outcome.Fail? then Exit(Raised(u.outcome.error), u.files)
          else Exit(Exited(0), u.files - {TempFile})
  }

  /** `main` with the progress message of `update_content` corrected. */
  function Session(files0: map<string, Csv>, fetched: Result<Csv>): Exit
  {
    SessionWith(files0, fetched, false)
  }

  /** `main` as written. */
  function SessionAsWritten(files0: map<string, Csv>, fetched: Result<Csv>): Exit
  {
    SessionWith(files0, fetched, true)
  }

  /** As written, `main` never changes a file other than the temporary
      file; every run that detects a change raises out of `update_content`,
      leaving the cache file as it was and the download in the temporary file;
      and a run that detects no change ends as the corrected one does. */
  lemma SessionAsWrittenNeverRotates(files0: map<string, Csv>, fetched: Result<Csv>)
    ensures var s := SessionAsWritten(files0, fetched);
      forall k :: k != TempFile ==> (k in s.files <==> k in files0) && (k in files0 ==> s.files[k] == files0[k])
    ensures Load(files0, CacheFile).Ok? && fetched.Ok? && Read(fetched.value).Ok?
            && ChangeDetector.ContentChanged(Some(Load(files0, CacheFile).value), Some(Read(fetched.value).value)) == Ok(true) ==>
      var version := ArchiveVersion(Some(Load(files0, CacheFile).value));
      SessionAsWritten(files0, fetched)
        == Exit(Raised(if version.Ok? then AttributeError else version.error), (files0 - {TempFile})[TempFile := fetched.value])
    ensures !(Load(files0, CacheFile).Ok? && fetched.Ok? && Read(fetched.value).Ok?
              && ChangeDetector.ContentChanged(Some(Load(files0, CacheFile).value), Some(Read(fetched.value).value)) == Ok(true)) ==>
      SessionAsWritten(files0, fetched) == Session(files0, fetched)
  {
    var start := files0 - {TempFile};
    assert Load(start, CacheFile) == Load(files0, CacheFile);
  }

  /** Where the two differ: a run that raises no exception before
      `update_content`, detects a change and finds a version in the last
      cached row rotates and exits with status 0 once corrected, and raises
      `AttributeError` as written. */
  lemma AsWrittenRaisesWhereCorrectedRotates(files0: map<string, Csv>, c: Csv)
    requires Load(files0, CacheFile).Ok? && Read(c).Ok?
    requires ChangeDetector.ContentChanged(Some(Load(files0, CacheFile).value), Some(Read(c).value)) == Ok(true)
    requires ArchiveVersion(Some(Load(files0, CacheFile).value)).Ok?
    ensures Session(files0, Ok(c)).status == Exited(0)
    ensures SessionAsWritten(files0, Ok(c)).status == Raised(AttributeError)
  {
    var start := files0 - {TempFile};
    assert Load(start, CacheFile) == Load(files0, CacheFile);
    assert CacheFile in start[TempFile := c];
  }

  /** Once corrected, a run that finds a change and exits with status 0 has
      archived the old cache file under its last row's version, installed the
      download as the cache file, removed the temporary file, and left every
      other file as it was. */
  lemma SessionRotates(files0: map<string, Csv>, c: Csv)
    requires Load(files0, CacheFile).Ok? && Read(c).Ok?
    requires ChangeDetector.ContentChanged(Some(Load(files0, CacheFile).value), Some(Read(c).value)) == Ok(true)
    requires Session(files0, Ok(c)).status == Exited(0)
    ensures var after := Session(files0, Ok(c)).files;
      var name := ArchiveName(ArchiveVersion(Some(Load(files0, CacheFile).value)).value);
      ArchiveVersion(Some(Load(files0, CacheFile).value)).Ok?
      && after.Keys == files0.Keys - {TempFile} + {name}
      && after[name] == files0[CacheFile]
      && after[CacheFile] == c
      && Load(after, CacheFile) == Read(c)
      && forall k :: k in files0 && k != name && k != CacheFile && k != TempFile ==> after[k] == files0[k]
  {
    var start := files0 - {TempFile};
    assert Load(start, CacheFile) == Load(files0, CacheFile);
    var downloaded := start[TempFile := c];
    var cached := Load(files0, CacheFile).value;
    UpdateTouches(Some(cached), Some(c), downloaded);
    ArchiveNameShape(ArchiveVersion(Some(cached)).value);
  }

  /** A run that finds no change and exits with status 0 only removes the
      temporary file. */
  lemma SessionKeepsUnchanged(files0: map<string, Csv>, c: Csv)
    requires Load(files0, CacheFile).Ok? && Read(c).Ok?
    requires ChangeDetector.ContentChanged(Some(Load(files0, CacheFile).value), Some(Read(c).value)) == Ok(false)
    ensures Session(files0, Ok(c)) == Exit(Exited(0), files0 - {TempFile})
  {
    var start := files0 - {TempFile};
    assert Load(start, CacheFile) == Load(files0, CacheFile);
    assert start[TempFile := c] - {TempFile} == start;
  }

  /** How a corrected run ends: an exception escapes exactly when loading
      the cache or the download raises, or the rotation raises; status 1
      exactly when the comparison raises, and that run leaves the download
      behind in the temporary file; otherwise status 0 with no temporary
      file. */
  lemma SessionEnds(files0: map<string, Csv>, fetched: Result<Csv>)
    ensures var s := Session(files0, fetched);
      s.status.Raised? <==>
        Load(files0, CacheFile).Err? || fetched.Err? || Read(fetched.value).Err?
        || (var changed := ChangeDetector.ContentChanged(Some(Load(files0, CacheFile).value), Some(Read(fetched.value).value));
            changed == Ok(true)
            && Update(Some(Load(files0, CacheFile).value), Some(fetched.value), (files0 - {TempFile})[TempFile := fetched.value]).outcome.Fail?)
    ensures var s := Session(files0, fetched);
      s.status == Exited(1) <==>
        Load(files0, CacheFile).Ok? && fetched.Ok? && Read(fetched.value).Ok?
        && ChangeDetector.ContentChanged(Some(Load(files0, CacheFile).value), Some(Read(fetched.value).value)).Err?
    ensures var s := Session(files0, fetched);
      s.status == Exited(1) ==> TempFile in s.files && s.files[TempFile] == fetched.value
    ensures var s := Session(files0, fetched);
      s.status.Exited? ==> s.status.code == 0 || s.status.code == 1
    ensures var s := Session(files0, fetched);
      s.status == Exited(0) ==> TempFile !in s.files
  {
    var start := files0 - {TempFile};
    assert Load(start, CacheFile) == Load(files0, CacheFile);
  }

  /** Once a corrected run has exited with status 0, a second run on the
      same download of a single-version file exits with status 0 and changes
      nothing. */
  lemma RerunIsQuiet(files0: map<string, Csv>, c: Csv)
    requires Session(files0, Ok(c)).status == Exited(0)
    requires Read(c).Ok? && ChangeDetector.Versions(Some(Read(c).value)).Ok?
    requires |ChangeDetector.VersionSet(Some(Read(c).value))| <= 1
    ensures Session(Session(files0, Ok(c)).files, Ok(c)) == Session(files0, Ok(c))
  {
    var start := files0 - {TempFile};
    assert Load(start, CacheFile) == Load(files0, CacheFile);
    var o := Load(files0, CacheFile).value;
    var n := Read(c).value;
    var after := Session(files0, Ok(c)).files;
    assert Session(files0, Ok(c)) == Exit(Exited(0), after);
    var changed := ChangeDetector.ContentChanged(Some(o), Some(n));
    if changed == Ok(true) {
      SessionRotates(files0, c);
      ChangeDetector.SelfComparison(n);
      SessionKeepsUnchanged(after, c);
      assert after - {TempFile} == after;
    } else {
      SessionKeepsUnchanged(files0, c);
      assert after == start;
      assert Load(after, CacheFile) == Load(files0, CacheFile);
      SessionKeepsUnchanged(after, c);
      assert after - {TempFile} == after;
    }
  }

  /** The state ecs-url-to-csv.py keeps: `CACHE["CONTENT"]` and the files of
      the data directory. */
  class Context {
    var oldRows: Option<Snapshot>
    var newRows: Option<Snapshot>
    var changes: Option<seq<Record>>
    var raw: Option<Csv>
    var files: map<string, Csv>

    /** The module-level `CACHE` with every entry `None`. */
    constructor(files0: map<string, Csv>)
      ensures oldRows == None && newRows == None && changes == None && raw == None
      ensures files == files0
    {
      oldRows, newRows, changes, raw := None, None, None, None;
      files := files0;
    }

    /** `readfile` on a file of the data directory. */
    method ReadFile(name: string) returns (r: Result<Snapshot>)
      ensures r == Load(files, name)
    {
      if name !in files {
        return Err(FileNotFound(name));
      }
      r := SchemaReader.ReadFile(files[name]);
    }

    /** `download`: `_download_data` keeps the content in `RAW`, then
        `_save_downloaded_content` writes it to the temporary file. */
    method Download(fetched: Result<Csv>) returns (o: Outcome)
      modifies this
      ensures fetched.Err? ==> o == Fail(fetched.error) && raw == old(raw) && files == old(files)
      ensures fetched.Ok? ==> o == Pass && raw == Some(fetched.value) && files == old(files)[TempFile := fetched.value]
      ensures oldRows == old(oldRows) && newRows == old(newRows) && changes == old(changes)
    {
      if fetched.Err? {
        return Fail(fetched.error);
      }
      raw := Some(fetched.value);
      files := files[TempFile := fetched.value];
      o := Pass;
    }

    /** `_load_cache_old` */
    method LoadCacheOld() returns (o: Outcome)
      modifies this
      ensures var r := Load(old(files), CacheFile);
        o == (if r.Err? then Fail(r.error) else Pass)
        && oldRows == (if r.Err? then old(oldRows) else Some(r.value))
      ensures newRows == old(newRows) && changes == old(changes) && raw == old(raw) && files == old(files)
    {
      var r := ReadFile(CacheFile);
      if r.Err? {
        return Fail(r.error);
      }
      oldRows := Some(r.value);
      o := Pass;
    }

    /** `_load_cache_new`: download, then read the temporary file. */
    method LoadCacheNew(fetched: Result<Csv>) returns (o: Outcome)
      modifies this
      ensures fetched.Err? ==> o == Fail(fetched.error) && raw == old(raw) && files == old(files) && newRows == old(newRows)
      ensures fetched.Ok? ==>
        var n := Read(fetched.value);
        raw == Some(fetched.value) && files == old(files)[TempFile := fetched.value]
        && o == (if n.Err? then Fail(n.error) else Pass)
        && newRows == (if n.Err? then old(newRows) else Some(n.value))
      ensures oldRows == old(oldRows) && changes == old(changes)
    {
      o := Download(fetched);
      if o.Fail? {
        return;
      }
      var r := ReadFile(TempFile);
      if r.Err? {
        return Fail(r.error);
      }
      newRows := Some(r.value);
    }

    /** `_check_new_cache_loaded` */
    method CheckNewCacheLoaded() returns (o: Outcome)
      ensures o.Fail? <==> newRows.None?
      ensures o.Fail? ==> o.error == CacheNotLoaded
    {
      if newRows.None? {
        return Fail(CacheNotLoaded);
      }
      o := Pass;
    }

    /** `_init_changes_cache`: an unset change list becomes empty. */
    method InitChangesCache()
      modifies this
      ensures changes == Some(if old(changes).None? then [] else old(changes).value)
      ensures oldRows == old(oldRows) && newRows == old(newRows) && raw == old(raw) && files == old(files)
    {
      if changes.None? {
        changes := Some([]);
      }
    }

    /** `init_cache`: the cached file, then the download; the new snapshot is
        always loaded once the download was read, so the check between them
        never raises. */
    method InitCache(fetched: Result<Csv>) returns (o: Outcome)
      modifies this
      ensures var r := Load(old(files), CacheFile);
        r.Err? ==> o == Fail(r.error) && oldRows == old(oldRows) && newRows == old(newRows)
                   && changes == old(changes) && raw == old(raw) && files == old(files)
      ensures var r := Load(old(files), CacheFile);
        r.Ok? ==> oldRows == Some(r.value)
      ensures var r := Load(old(files), CacheFile);
        r.Ok? && fetched.Err? ==> o == Fail(fetched.error) && newRows == old(newRows)
                                  && changes == old(changes) && raw == old(raw) && files == old(files)
      ensures Load(old(files), CacheFile).Ok? && fetched.Ok? ==>
        raw == Some(fetched.value) && files == old(files)[TempFile := fetched.value]
      ensures Load(old(files), CacheFile).Ok? && fetched.Ok? && Read(fetched.value).Err? ==>
        o == Fail(Read(fetched.value).error) && newRows == old(newRows) && changes == old(changes)
      ensures Load(old(files), CacheFile).Ok? && fetched.Ok? && Read(fetched.value).Ok? ==>
        o == Pass && newRows == Some(Read(fetched.value).value)
        && changes == Some(if old(changes).None? then [] else old(changes).value)
    {
      o := LoadCacheOld();
      if o.Fail? {
        return;
      }
      o := LoadCacheNew(fetched);
      if o.Fail? {
        return;
      }
      o := CheckNewCacheLoaded();
      if o.Fail? {
        return;
      }
      InitChangesCache();
    }

    /** `_ECS_Version_changed`: the two version sets, and a comparison of
        every pair that stops at the first difference. */
    method EcsVersionChanged() returns (r: Result<bool>)
      ensures r == ChangeDetector.VersionChanged(oldRows, newRows)
    {
      var o := ChangeDetector.Versions(oldRows);
      if o.Err? {
        return Err(o.error);
      }
      var n := ChangeDetector.Versions(newRows);
      if n.Err? {
        return Err(n.error);
      }
      var os, ns := Distinct(o.value), Distinct(n.value);
      if |os| != |ns| {
        return Ok(true);
      }
      var hasChanges := false;
      ghost var wi, wj := 0, 0;
      var i := 0;
      while i < |os|
        invariant 0 <= i <= |os|
        invariant !hasChanges
        invariant forall a, b :: 0 <= a < i && 0 <= b < |ns| ==> os[a] == ns[b]
      {
        var v := os[i];
        var j := 0;
        while j < |ns|
          invariant 0 <= j <= |ns|
          invariant !hasChanges
          invariant forall b :: 0 <= b < j ==> v == ns[b]
        {
          var vv := ns[j];
          if v != vv {
            hasChanges := true;
          }
          if hasChanges {
            wi, wj := i, j;
            break;
          }
          j := j + 1;
        }
        if hasChanges {
          break;
        }
        i := i + 1;
      }
      if hasChanges {
        assert 0 <= wi < |os| && 0 <= wj < |ns| && os[wi] != ns[wj];
      }
      r := Ok(hasChanges);
    }

    /** `_lines_changed`: the cached rows as a lookup table, and a scan of the
        downloaded rows that stops at the first one missing from it. */
    method LinesChanged() returns (r: Result<bool>)
      ensures r == ChangeDetector.LinesChanged(oldRows, newRows)
    {
      if oldRows.None? || newRows.None? {
        return Err(TypeError);
      }
      var known := set v | v in oldRows.value;
      var incoming := Distinct(newRows.value);
      var hasChanges := false;
      ghost var w := 0;
      var i := 0;
      while i < |incoming|
        invariant 0 <= i <= |incoming|
        invariant !hasChanges
        invariant forall k :: 0 <= k < i ==> incoming[k] in known
      {
        if incoming[i] !in known {
          hasChanges := true;
        }
        if hasChanges {
          w := i;
          break;
        }
        i := i + 1;
      }
      if hasChanges {
        assert incoming[w] in newRows.value && incoming[w] !in oldRows.value;
      } else {
        forall x | x in newRows.value ensures x in oldRows.value {
          assert x in incoming;
        }
      }
      r := Ok(hasChanges);
    }

    /** `content_has_changed` */
    method ContentHasChanged() returns (r: Result<bool>)
      ensures r == ChangeDetector.ContentChanged(oldRows, newRows)
    {
      if ChangeDetector.LengthChanged(oldRows, newRows) {
        return Ok(true);
      }
      var v := EcsVersionChanged();
      if v.Err? {
        return Err(v.error);
      }
      if v.value {
        return Ok(true);
      }
      r := LinesChanged();
    }

    /** `update_content`, with its progress message naming the archive
        file: copy the cache file to the archive, then write the download
        over the cache file. */
    method UpdateContent() returns (o: Outcome)
      modifies this
      ensures Effect(o, files) == Update(old(oldRows), old(raw), old(files))
      ensures oldRows == old(oldRows) && newRows == old(newRows) && changes == old(changes) && raw == old(raw)
    {
      var version := ArchiveVersion(oldRows);
      if version.Err? {
        return Fail(version.error);
      }
      var name := ArchiveName(version.value);
      if CacheFile !in files {
        return Fail(FileNotFound(CacheFile));
      }
      var content := files[CacheFile];
      files := files[name := content];
      if raw.None? {
        files := files[CacheFile := []];
        return Fail(TypeError);
      }
      files := files[CacheFile := raw.value];
      o := Pass;
    }

    /** `update_content` as written: the progress message raises before any
        file is opened, so nothing changes. */
    method UpdateContentAsWritten() returns (o: Outcome)
      ensures Effect(o, files) == UpdateAsWritten(oldRows, raw, files)
    {
      var version := ArchiveVersion(oldRows);
      if version.Err? {
        return Fail(version.error);
      }
      o := Fail(AttributeError);
    }

    /** `cleanup`: the temporary file is removed if it exists. */
    method Cleanup()
      modifies this
      ensures files == old(files) - {TempFile}
      ensures oldRows == old(oldRows) && newRows == old(newRows) && changes == old(changes) && raw == old(raw)
    {
      if TempFile in files {
        files := files - {TempFile};
      }
    }

    /** `main` with the progress message of `update_content` corrected, and
        with the download's result as a parameter. The cache lives in
        the process, which ends here, so only the files and how the run ended
        are stated. */
    method Run(fetched: Result<Csv>) returns (t: Termination)
      modifies this
      ensures Exit(t, files) == Session(old(files), fetched)
    {
      Cleanup();
      var o := InitCache(fetched);
      if o.Fail? {
        return Raised(o.error);
      }
      var changed := ContentHasChanged();
      if changed.Err? {
        return Exited(1);
      }
      if changed.value {
        var u := UpdateContent();
        if u.Fail? {
          return Raised(u.error);
        }
      }
      Cleanup();
      t := Exited(0);
    }

    /** `main` as written: the call of `update_content` raises whenever a
        change is detected. */
    method RunAsWritten(fetched: Result<Csv>) returns (t: Termination)
      modifies this
      ensures Exit(t, files) == SessionAsWritten(old(files), fetched)
    {
      Cleanup();
      var o := InitCache(fetched);
      if o.Fail? {
        return Raised(o.error);
      }
      var changed := ContentHasChanged();
      if changed.Err? {
        return Exited(1);
      }
      if changed.value {
        var u := UpdateContentAsWritten();
        if u.Fail? {
          return Raised(u.error);
        }
      }
      Cleanup();
      t := Exited(0);
    }
  }
}
