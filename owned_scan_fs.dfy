// The incremental owned-file scan of src/app/owned/owned_scan_fs.rs: the
// manifest of directory snapshots kept between scans, the decision to reuse
// a directory's snapshot, the walk that rebuilds one, and the owned-key
// sets the scan accumulates on the way.
//
// The filesystem is an input: a directory is an `FsNode` holding its path,
// its modification time and the entries `read_dir` lists for it (or the
// fact that it cannot be read).  `is_path_hd` and the file metadata lookups
// are function parameters.

module OwnedScanFs {
  import opened Text
  import opened Utils
  import opened App
  import opened Owned
  import opened OwnedNames
  import opened Types
  import opened Paths

  // ---------------------------------------------------------------------
  // The manifest

  const OWNED_MANIFEST_VERSION: nat := 2

  /** One video file as the manifest remembers it. */
  datatype FileSnapshot = FileSnapshot(
    key: string,
    hd: bool,
    modified: Option<nat>,
    titleHint: Option<string>,
    path: string,
    size: Option<nat>,
    yearHint: Option<int>)

  /** One directory as the manifest remembers it. */
  datatype DirSnapshot = DirSnapshot(mtime: Option<nat>, files: seq<FileSnapshot>, subdirs: seq<string>)

  /** The manifest's contents, as `serde` reads and writes them and as `==`
      compares them. */
  datatype ManifestData = ManifestData(version: nat, dirs: map<string, DirSnapshot>)

  /** `OwnedManifest::default()`. */
  function DefaultManifest(): (m: ManifestData)
    ensures m.version == OWNED_MANIFEST_VERSION && m.dirs == map[]
  {
    ManifestData(OWNED_MANIFEST_VERSION, map[])
  }

  /** A file entry written before paths and sizes were recorded. */
  predicate StaleFile(f: FileSnapshot) { IsBlank(f.path) || f.size.None? }

  predicate HasStaleFile(files: seq<FileSnapshot>)
  {
    exists i :: 0 <= i < |files| && StaleFile(files[i])
  }

  /** `needs_upgrade`: an older version, or a file entry without a path or a
      size anywhere in the manifest. */
  predicate Outdated(m: ManifestData)
  {
    m.version < OWNED_MANIFEST_VERSION || exists d :: d in m.dirs && HasStaleFile(m.dirs[d].files)
  }

  /** What reading the manifest file gave. */
  datatype ManifestRead = Missing | Unreadable | Unparsable | Parsed(data: ManifestData)

  /** `OwnedManifest::load`: the parsed manifest with its version raised to
      the current one, unless it is outdated; the empty default manifest
      when the file is missing, unreadable, unparsable or outdated. */
  function Loaded(r: ManifestRead): (m: ManifestData)
    ensures m.version == OWNED_MANIFEST_VERSION
    ensures m.dirs == map[] || (r.Parsed? && !Outdated(r.data) && m.dirs == r.data.dirs)
    ensures r.Parsed? && !Outdated(r.data) ==> m.dirs == r.data.dirs
  {
    if r.Parsed? && !Outdated(r.data) then r.data.(version := OWNED_MANIFEST_VERSION)
    else DefaultManifest()
  }

  /** A loaded manifest never needs an upgrade. */
  lemma LoadedUpToDate(r: ManifestRead)
    ensures !Outdated(Loaded(r))
  {
    if r.Parsed? && !Outdated(r.data) {
      assert forall d :: d in Loaded(r).dirs ==> Loaded(r).dirs[d] == r.data.dirs[d];
    }
  }

  /** What `save` writes: the manifest at the current version. */
  function Saved(m: ManifestData): (w: ManifestData)
    ensures w.version == OWNED_MANIFEST_VERSION && w.dirs == m.dirs
  {
    m.(version := OWNED_MANIFEST_VERSION)
  }

  /** Loading what was saved gives it back, unless some file entry lacks a
      path or a size, in which case the load starts over empty. */
  lemma SavedThenLoaded(m: ManifestData)
    ensures (forall d :: d in m.dirs ==> !HasStaleFile(m.dirs[d].files)) ==> Loaded(Parsed(Saved(m))) == Saved(m)
    ensures (exists d :: d in m.dirs && HasStaleFile(m.dirs[d].files)) ==> Loaded(Parsed(Saved(m))) == DefaultManifest()
  {
  }

  const SAVE_FAILED: string := "failed to write the owned manifest"

  /** The manifest the scan builds or loads; `insert_snapshot` and
      `rebuild_hd_flags` update it in place. */
  class OwnedManifest {
    var version: nat
    var dirs: map<string, DirSnapshot>

    function Data(): ManifestData
      reads this
    {
      ManifestData(version, dirs)
    }

    /** `OwnedManifest::default()`. */
    constructor Default()
      ensures Data() == DefaultManifest()
    {
      version := OWNED_MANIFEST_VERSION;
      dirs := map[];
    }

    constructor FromData(m: ManifestData)
      ensures Data() == m
    {
      version := m.version;
      dirs := m.dirs;
    }

    /** `OwnedManifest::load`, given what reading and parsing the file gave. */
    static method Load(r: ManifestRead) returns (m: OwnedManifest)
      ensures fresh(m) && m.Data() == Loaded(r)
    {
      if r.Parsed? {
        m := new OwnedManifest.FromData(r.data);
        var outdated := m.NeedsUpgrade();
        if outdated {
          m := new OwnedManifest.Default();
        } else {
          m.version := OWNED_MANIFEST_VERSION;
        }
      } else {
        m := new OwnedManifest.Default();
      }
    }

    /** `needs_upgrade`, visiting the directories in any order. */
    method NeedsUpgrade() returns (b: bool)
      ensures b == Outdated(Data())
    {
      if version < OWNED_MANIFEST_VERSION {
        return true;
      }
      var todo := dirs.Keys;
      while todo != {}
        invariant todo <= dirs.Keys
        invariant forall d :: d in dirs && d !in todo ==> !HasStaleFile(dirs[d].files)
        decreases |todo|
      {
        var d :| d in todo;
        var stale := AnyStaleFile(dirs[d].files);
        if stale {
          return true;
        }
        todo := todo - {d};
      }
      return false;
    }

    /** `save_if_changed`: writes iff the manifest differs from `previous`
        and reports whether it wrote; `writeOk` says whether the write
        succeeded. `written` is what the manifest file then holds anew. */
    method SaveIfChanged(previous: ManifestData, writeOk: bool) returns (r: Result<bool>, written: Option<ManifestData>)
      ensures Data() == previous ==> r == Ok(false) && written == None
      ensures Data() != previous && writeOk ==> r == Ok(true) && written == Some(Saved(Data()))
      ensures Data() != previous && !writeOk ==> r == Err(SAVE_FAILED) && written == None
    {
      if Data() == previous {
        return Ok(false), None;
      }
      if !writeOk {
        return Err(SAVE_FAILED), None;
      }
      return Ok(true), Some(ManifestData(OWNED_MANIFEST_VERSION, dirs));
    }

    /** `is_empty`: no directory is recorded. */
    function IsEmpty(): (b: bool)
      reads this
      ensures b <==> forall d :: d !in dirs
    {
      dirs == map[]
    }

    /** `get`: the snapshot stored for a directory. */
    function Get(dir: string): (r: Option<DirSnapshot>)
      reads this
      ensures r.Some? <==> dir in dirs
      ensures r.Some? ==> r.value == dirs[dir]
    {
      if dir in dirs then Some(dirs[dir]) else None
    }

    /** `insert_snapshot`: records or replaces one directory's snapshot. */
    method InsertSnapshot(dir: string, snapshot: DirSnapshot)
      modifies this
      ensures dirs == old(dirs)[dir := snapshot] && version == old(version)
    {
      dirs := dirs[dir := snapshot];
    }

    /** `rebuild_hd_flags`: refreshes every file entry's modification time,
        size and HD flag from disk and rebuilds the owned-key sets from the
        refreshed entries, reporting whether any entry changed; fails on a
        file entry without a path, with the entries visited before it
        already refreshed. */
    method RebuildHdFlags(disk: DiskView, variantsOf: VariantsOf) returns (r: Result<(OwnedSets, bool)>)
      modifies this
      ensures version == old(version) && dirs.Keys == old(dirs).Keys
      ensures r.Err? <==> exists d :: d in old(dirs) && HasBlankPath(old(dirs)[d].files)
      ensures r.Err? ==> r.error == MISSING_PATHS && forall d :: d in dirs ==> PrefixRefreshed(old(dirs)[d], dirs[d], disk)
      ensures r.Ok? ==> dirs == RefreshedDirs(old(dirs), disk)
      ensures r.Ok? ==> Consistent(r.value.0)
                        && r.value.0.owned == ManifestKeys(dirs, variantsOf, false)
                        && r.value.0.hdKeys == ManifestKeys(dirs, variantsOf, true)
      ensures r.Ok? ==> (r.value.1 <==> dirs != old(dirs))
    {
      var newDirs;
      r, newDirs := RefreshAll(dirs, disk, variantsOf);
      dirs := newDirs;
    }
  }

  /** The inner loop of `needs_upgrade` over one directory's files. */
  method AnyStaleFile(files: seq<FileSnapshot>) returns (b: bool)
    ensures b == HasStaleFile(files)
  {
    var i := 0;
    while i < |files|
      invariant 0 <= i <= |files|
      invariant forall k :: 0 <= k < i ==> !StaleFile(files[k])
    {
      if IsBlank(files[i].path) || files[i].size.None? {
        StaleAt(files, i);
        return true;
      }
      i := i + 1;
    }
    NoneStale(files);
    return false;
  }

  lemma StaleAt(files: seq<FileSnapshot>, i: nat)
    requires i < |files| && StaleFile(files[i])
    ensures HasStaleFile(files)
  {
  }

  lemma NoneStale(files: seq<FileSnapshot>)
    requires forall k :: 0 <= k < |files| ==> !StaleFile(files[k])
    ensures !HasStaleFile(files)
  {
  }

  // ---------------------------------------------------------------------
  // accumulate_owned_entry

  /** The owned-key sets a scan builds: the owned keys, the keys owned in
      HD, and each key's modification time. */
  datatype OwnedSets = OwnedSets(owned: set<string>, hdKeys: set<string>, dates: map<string, Option<nat>>)

  const NO_OWNED: OwnedSets := OwnedSets({}, {}, map[])

  /** Every HD key is owned and exactly the owned keys are dated. */
  predicate Consistent(s: OwnedSets)
  {
    s.hdKeys <= s.owned && s.dates.Keys == s.owned
  }

  /** The keys a file entry is owned under: the key variants of its title
      hint, with its year hint or else the year field of its key; its
      stored key when it has no title hint. */
  function EntryKeys(f: FileSnapshot, variantsOf: VariantsOf): seq<string>
  {
    match f.titleHint
    case Some(t) => variantsOf(t, if f.yearHint.Some? then f.yearHint else OwnedYearFromKey(f.key))
    case None => [f.key]
  }

  function KeySet(ks: seq<string>): (r: set<string>)
    ensures forall k :: k in r <==> k in ks
  {
    set k | k in ks
  }

  /** The `insert_key` closure. */
  function InsertKey(s: OwnedSets, k: string, hd: bool, modified: Option<nat>): OwnedSets
  {
    OwnedSets(s.owned + {k}, if hd then s.hdKeys + {k} else s.hdKeys, s.dates[k := modified])
  }

  function InsertKeys(s: OwnedSets, ks: seq<string>, hd: bool, modified: Option<nat>): OwnedSets
  {
    if ks == [] then s
    else InsertKey(InsertKeys(s, ks[..|ks| - 1], hd, modified), ks[|ks| - 1], hd, modified)
  }

  /** `accumulate_owned_entry`. */
  function Accumulated(s: OwnedSets, f: FileSnapshot, variantsOf: VariantsOf): OwnedSets
  {
    InsertKeys(s, EntryKeys(f, variantsOf), f.hd, f.modified)
  }

  lemma {:induction false} InsertKeysEffect(s: OwnedSets, ks: seq<string>, hd: bool, modified: Option<nat>)
    ensures InsertKeys(s, ks, hd, modified).owned == s.owned + KeySet(ks)
    ensures InsertKeys(s, ks, hd, modified).hdKeys == if hd then s.hdKeys + KeySet(ks) else s.hdKeys
    ensures InsertKeys(s, ks, hd, modified).dates.Keys == s.dates.Keys + KeySet(ks)
    ensures forall k :: k in ks ==> InsertKeys(s, ks, hd, modified).dates[k] == modified
    ensures forall k :: k in s.dates && k !in ks ==> InsertKeys(s, ks, hd, modified).dates[k] == s.dates[k]
  {
    if ks != [] {
      var ks' := ks[..|ks| - 1];
      InsertKeysEffect(s, ks', hd, modified);
      assert ks == ks' + [ks[|ks| - 1]];
    }
  }

  /** After `accumulate_owned_entry`, the file's keys are owned, dated with
      the file's modification time and, for an HD file, HD; nothing else is
      added, other keys keep their dates, and consistent sets stay
      consistent. */
  lemma AccumulatedEffect(s: OwnedSets, f: FileSnapshot, variantsOf: VariantsOf)
    ensures Consistent(s) ==> Consistent(Accumulated(s, f, variantsOf))
    ensures Accumulated(s, f, variantsOf).owned == s.owned + KeySet(EntryKeys(f, variantsOf))
    ensures Accumulated(s, f, variantsOf).hdKeys
            == if f.hd then s.hdKeys + KeySet(EntryKeys(f, variantsOf)) else s.hdKeys
    ensures Accumulated(s, f, variantsOf).dates.Keys == s.dates.Keys + KeySet(EntryKeys(f, variantsOf))
    ensures forall k :: k in EntryKeys(f, variantsOf) ==> Accumulated(s, f, variantsOf).dates[k] == f.modified
    ensures forall k :: k in s.dates && k !in EntryKeys(f, variantsOf) ==> Accumulated(s, f, variantsOf).dates[k] == s.dates[k]
  {
    InsertKeysEffect(s, EntryKeys(f, variantsOf), f.hd, f.modified);
  }

  /** An entry without a title hint is owned under its stored key alone. */
  lemma UnhintedEntryKey(f: FileSnapshot, variantsOf: VariantsOf)
    requires f.titleHint.None?
    ensures EntryKeys(f, variantsOf) == [f.key]
  {
  }

  /** `accumulate_owned_entry` as the source writes it: the closure inserts
      each key into the three sets in turn. */
  method AccumulateOwnedEntry(file: FileSnapshot, sets0: OwnedSets, variantsOf: VariantsOf) returns (sets: OwnedSets)
    ensures sets == Accumulated(sets0, file, variantsOf)
  {
    var keys: seq<string>;
    if file.titleHint.Some? {
      var yearHint := if file.yearHint.Some? then file.yearHint else OwnedYearFromKey(file.key);
      keys := variantsOf(file.titleHint.value, yearHint);
    } else {
      keys := [file.key];
    }
    sets := sets0;
    var i := 0;
    while i < |keys|
      invariant 0 <= i <= |keys|
      invariant sets == InsertKeys(sets0, keys[..i], file.hd, file.modified)
    {
      assert keys[..i + 1][..i] == keys[..i];
      var k := keys[i];
      var owned := sets.owned + {k};
      var hdKeys := if file.hd then sets.hdKeys + {k} else sets.hdKeys;
      sets := OwnedSets(owned, hdKeys, sets.dates[k := file.modified]);
      i := i + 1;
    }
    assert keys[..i] == keys;
  }

  /** Accumulating a sequence of file entries in order. */
  function AccumulateFiles(s: OwnedSets, fs: seq<FileSnapshot>, variantsOf: VariantsOf): OwnedSets
  {
    if fs == [] then s else Accumulated(AccumulateFiles(s, fs[..|fs| - 1], variantsOf), fs[|fs| - 1], variantsOf)
  }

  /** The keys a file entry adds to the owned set (`hdOnly` false) or to
      the HD set (`hdOnly` true). */
  function FileKeys(f: FileSnapshot, variantsOf: VariantsOf, hdOnly: bool): set<string>
  {
    if hdOnly && !f.hd then {} else KeySet(EntryKeys(f, variantsOf))
  }

  /** The keys a sequence of file entries adds to the owned set or to the
      HD set. */
  function FilesKeys(fs: seq<FileSnapshot>, variantsOf: VariantsOf, hdOnly: bool): set<string>
  {
    if fs == [] then {} else FilesKeys(fs[..|fs| - 1], variantsOf, hdOnly) + FileKeys(fs[|fs| - 1], variantsOf, hdOnly)
  }

  /** A key comes from a sequence of file entries exactly when it comes
      from one of them. */
  lemma {:induction false} FilesKeysMeans(fs: seq<FileSnapshot>, variantsOf: VariantsOf, hdOnly: bool, k: string)
    ensures k in FilesKeys(fs, variantsOf, hdOnly) <==> exists f :: f in fs && k in FileKeys(f, variantsOf, hdOnly)
  {
    if fs != [] {
      var fs' := fs[..|fs| - 1];
      FilesKeysMeans(fs', variantsOf, hdOnly, k);
      assert fs == fs' + [fs[|fs| - 1]];
    }
  }

  /** Accumulating file entries adds exactly their keys (and their HD
      files' keys to the HD set) and keeps consistent sets consistent. */
  lemma {:induction false} AccumulateFilesEffect(s: OwnedSets, fs: seq<FileSnapshot>, variantsOf: VariantsOf)
    ensures Consistent(s) ==> Consistent(AccumulateFiles(s, fs, variantsOf))
    ensures AccumulateFiles(s, fs, variantsOf).owned == s.owned + FilesKeys(fs, variantsOf, false)
    ensures AccumulateFiles(s, fs, variantsOf).hdKeys == s.hdKeys + FilesKeys(fs, variantsOf, true)
  {
    if fs != [] {
      AccumulateFilesEffect(s, fs[..|fs| - 1], variantsOf);
      AccumulatedEffect(AccumulateFiles(s, fs[..|fs| - 1], variantsOf), fs[|fs| - 1], variantsOf);
    }
  }

  /** A key is dated with the modification time of the last file entry
      owned under it. */
  lemma {:induction false} AccumulateFilesLastDate(s: OwnedSets, fs: seq<FileSnapshot>, variantsOf: VariantsOf, i: nat, k: string)
    requires i < |fs| && k in EntryKeys(fs[i], variantsOf)
    requires forall j :: i < j < |fs| ==> k !in EntryKeys(fs[j], variantsOf)
    ensures k in AccumulateFiles(s, fs, variantsOf).dates
    ensures AccumulateFiles(s, fs, variantsOf).dates[k] == fs[i].modified
  {
    var fs' := fs[..|fs| - 1];
    AccumulateFilesEffect(s, fs', variantsOf);
    AccumulatedEffect(AccumulateFiles(s, fs', variantsOf), fs[|fs| - 1], variantsOf);
    if i < |fs| - 1 {
      AccumulateFilesLastDate(s, fs', variantsOf, i, k);
    }
  }

  // ---------------------------------------------------------------------
  // Directory listings and snapshot_matches

  /** One entry `read_dir` yields: a directory, a regular file with its
      modification time and size, or an entry the scan skips (one that
      failed to read, whose type could not be read, or that is neither a
      regular file nor a directory, such as a symbolic link). */
  datatype FsEntry =
    | DirEntry(node: FsNode)
    | FileEntry(path: string, modified: Option<nat>, size: Option<nat>)
    | SkippedEntry

  /** A directory: its path, its modification time, whether `read_dir`
      succeeds on it, and the entries it lists. */
  datatype FsNode = FsNode(path: string, mtime: Option<nat>, readable: bool, listing: seq<FsEntry>)

  /** `DirEntryInfo`: a listed subdirectory or video file. */
  datatype DirEntryInfo =
    | DirInfo(node: FsNode)
    | VideoInfo(path: string, modified: Option<nat>, size: Option<nat>)

  function ListedEntry(e: FsEntry): seq<DirEntryInfo>
  {
    match e
    case DirEntry(n) => [DirInfo(n)]
    case FileEntry(p, m, sz) => if IsVideoExt(p) then [VideoInfo(p, m, sz)] else []
    case SkippedEntry => []
  }

  /** The entries the scan keeps, in listing order: every directory and
      every regular file with a video extension. */
  function Listed(raw: seq<FsEntry>): (es: seq<DirEntryInfo>)
    ensures forall n :: DirInfo(n) in es <==> DirEntry(n) in raw
    ensures forall p, m, sz :: VideoInfo(p, m, sz) in es <==> FileEntry(p, m, sz) in raw && IsVideoExt(p)
  {
    if raw == [] then []
    else
      var es := Listed(raw[..|raw| - 1]) + ListedEntry(raw[|raw| - 1]);
      assert raw == raw[..|raw| - 1] + [raw[|raw| - 1]];
      es
  }

  /** One more raw entry adds its own kept entries at the end. */
  lemma ListedStep(raw: seq<FsEntry>, i: nat)
    requires i < |raw|
    ensures Listed(raw[..i + 1]) == Listed(raw[..i]) + ListedEntry(raw[i])
  {
    assert raw[..i + 1][..i] == raw[..i];
  }

  /** The loop of `scan_directory` that gathers the listing. */
  method ListEntries(raw: seq<FsEntry>) returns (entries: seq<DirEntryInfo>)
    ensures entries == Listed(raw)
  {
    entries := [];
    var i := 0;
    while i < |raw|
      invariant 0 <= i <= |raw|
      invariant entries == Listed(raw[..i])
    {
      ListedStep(raw, i);
      match raw[i] {
        case DirEntry(n) =>
          entries := entries + [DirInfo(n)];
        case FileEntry(p, m, sz) =>
          if IsVideoExt(p) {
            entries := entries + [VideoInfo(p, m, sz)];
          }
        case SkippedEntry =>
      }
      i := i + 1;
    }
    assert raw[..i] == raw;
  }

  /** The paths of the listed directories. */
  function ListedDirs(es: seq<DirEntryInfo>): set<string>
  {
    if es == [] then {}
    else ListedDirs(es[..|es| - 1]) + (if es[|es| - 1].DirInfo? then {es[|es| - 1].node.path} else {})
  }

  /** The listed video files by path, with their modification time and
      size; a later entry for the same path replaces an earlier one. */
  function ListedFiles(es: seq<DirEntryInfo>): map<string, (Option<nat>, Option<nat>)>
  {
    if es == [] then map[]
    else
      var e := es[|es| - 1];
      var m := ListedFiles(es[..|es| - 1]);
      if e.VideoInfo? then m[e.path := (e.modified, e.size)] else m
  }

  function FilePaths(files: seq<FileSnapshot>): (ps: seq<string>)
    ensures |ps| == |files| && forall i :: 0 <= i < |files| ==> ps[i] == files[i].path
  {
    seq(|files|, i requires 0 <= i < |files| => files[i].path)
  }

  /** The stored subdirectories are distinct and are the listed ones. */
  predicate SubdirsMatch(subdirs: seq<string>, actual: set<string>)
  {
    Distinct(subdirs) && KeySet(subdirs) == actual
  }

  /** The stored files have distinct paths, are the listed ones, and each
      has the listed modification time and size. */
  predicate FilesMatch(files: seq<FileSnapshot>, actual: map<string, (Option<nat>, Option<nat>)>)
  {
    Distinct(FilePaths(files)) && KeySet(FilePaths(files)) == actual.Keys
    && forall f :: f in files ==> f.path in actual && actual[f.path] == (f.modified, f.size)
  }

  /** `snapshot_matches`: the stored snapshot holds exactly the listed
      subdirectories and exactly the listed video files, with unchanged
      modification times and sizes. */
  predicate SnapshotMatchesSpec(snapshot: DirSnapshot, es: seq<DirEntryInfo>)
  {
    SubdirsMatch(snapshot.subdirs, ListedDirs(es)) && FilesMatch(snapshot.files, ListedFiles(es))
  }

  lemma {:induction false} DistinctCard(s: seq<string>)
    requires Distinct(s)
    ensures |KeySet(s)| == |s|
  {
    if s != [] {
      var s' := s[..|s| - 1];
      DistinctCard(s');
      assert KeySet(s) == KeySet(s') + {s[|s| - 1]};
      assert s[|s| - 1] !in KeySet(s') by {
        forall j | 0 <= j < |s'| ensures s'[j] != s[|s| - 1] {
          assert s'[j] == s[j];
        }
      }
    }
  }

  /** `snapshot_matches`, with the working set and map it empties. */
  method SnapshotMatches(snapshot: DirSnapshot, entries: seq<DirEntryInfo>) returns (b: bool)
    ensures b == SnapshotMatchesSpec(snapshot, entries)
  {
    var actualDirs, actualFiles := CollectListing(entries);
    b := MatchSubdirs(snapshot.subdirs, actualDirs);
    if b {
      b := MatchFiles(snapshot.files, actualFiles);
    }
  }

  /** The first loop of `snapshot_matches`: the listed directories as a set
      and the listed files as a map. */
  method CollectListing(entries: seq<DirEntryInfo>) returns (dirs: set<string>, files: map<string, (Option<nat>, Option<nat>)>)
    ensures dirs == ListedDirs(entries) && files == ListedFiles(entries)
  {
    dirs, files := {}, map[];
    var i := 0;
    while i < |entries|
      invariant 0 <= i <= |entries|
      invariant dirs == ListedDirs(entries[..i]) && files == ListedFiles(entries[..i])
    {
      assert entries[..i + 1][..i] == entries[..i];
      match entries[i] {
        case DirInfo(n) =>
          dirs := dirs + {n.path};
        case VideoInfo(p, m, sz) =>
          files := files[p := (m, sz)];
      }
      i := i + 1;
    }
    assert entries[..i] == entries;
  }

  /** The subdirectory check of `snapshot_matches`: equal counts, then
      each stored subdirectory removed from the listed set, which must end
      empty. */
  method MatchSubdirs(subdirs: seq<string>, actual: set<string>) returns (b: bool)
    ensures b == SubdirsMatch(subdirs, actual)
  {
    if |subdirs| != |actual| {
      if SubdirsMatch(subdirs, actual) {
        DistinctCard(subdirs);
      }
      return false;
    }
    var remaining := actual;
    var i := 0;
    while i < |subdirs|
      invariant 0 <= i <= |subdirs|
      invariant remaining == actual - KeySet(subdirs[..i])
      invariant KeySet(subdirs[..i]) <= actual
      invariant Distinct(subdirs[..i])
    {
      assert subdirs[..i + 1] == subdirs[..i] + [subdirs[i]];
      if subdirs[i] !in remaining {
        if subdirs[i] in actual {
          var j :| 0 <= j < i && subdirs[..i][j] == subdirs[i];
          assert subdirs[j] == subdirs[i];
        } else {
          assert subdirs[i] in KeySet(subdirs);
        }
        return false;
      }
      remaining := remaining - {subdirs[i]};
      i := i + 1;
    }
    assert subdirs[..i] == subdirs;
    b := remaining == {};
  }

  /** The file check of `snapshot_matches`: equal counts, then each stored
      file removed from the listed map, with its modification time and size
      compared, and the map must end empty. */
  method MatchFiles(files: seq<FileSnapshot>, actual: map<string, (Option<nat>, Option<nat>)>) returns (b: bool)
    ensures b == FilesMatch(files, actual)
  {
    if |files| != |actual| {
      FilesMatchCount(files, actual);
      return false;
    }
    var remaining := actual;
    var i := 0;
    while i < |files|
      invariant 0 <= i <= |files|
      invariant MatchedUpTo(files, actual, i)
      invariant remaining == actual - KeySet(FilePaths(files)[..i])
    {
      var path := files[i].path;
      if path !in remaining || remaining[path] != (files[i].modified, files[i].size) {
        FilesMismatch(files, actual, i);
        return false;
      }
      FilesMatchStep(files, actual, i);
      remaining := remaining - {path};
      i := i + 1;
    }
    FilesMatchEnd(files, actual);
    b := remaining == map[];
  }

  /** The stored files before `i` are distinct, listed, and listed with
      their own modification time and size. */
  ghost predicate MatchedUpTo(files: seq<FileSnapshot>, actual: map<string, (Option<nat>, Option<nat>)>, i: nat)
    requires i <= |files|
  {
    KeySet(FilePaths(files)[..i]) <= actual.Keys && Distinct(FilePaths(files)[..i])
    && forall k :: 0 <= k < i ==> actual[files[k].path] == (files[k].modified, files[k].size)
  }

  lemma FilesMatchCount(files: seq<FileSnapshot>, actual: map<string, (Option<nat>, Option<nat>)>)
    ensures FilesMatch(files, actual) ==> |files| == |actual|
  {
    if FilesMatch(files, actual) {
      DistinctCard(FilePaths(files));
      assert |actual.Keys| == |actual|;
    }
  }

  lemma FilesMismatch(files: seq<FileSnapshot>, actual: map<string, (Option<nat>, Option<nat>)>, i: nat)
    requires i < |files|
    requires var rest := actual - KeySet(FilePaths(files)[..i]);
             files[i].path !in rest || rest[files[i].path] != (files[i].modified, files[i].size)
    ensures !FilesMatch(files, actual)
  {
    var paths := FilePaths(files);
    var path := files[i].path;
    if path in KeySet(paths[..i]) {
      var j :| 0 <= j < i && paths[..i][j] == path;
      assert paths[j] == paths[i];
    } else if path !in actual {
      assert path in KeySet(paths);
    } else {
      assert files[i] in files;
    }
  }

  lemma FilesMatchStep(files: seq<FileSnapshot>, actual: map<string, (Option<nat>, Option<nat>)>, i: nat)
    requires i < |files| && MatchedUpTo(files, actual, i)
    requires var rest := actual - KeySet(FilePaths(files)[..i]);
             files[i].path in rest && rest[files[i].path] == (files[i].modified, files[i].size)
    ensures MatchedUpTo(files, actual, i + 1)
    ensures actual - KeySet(FilePaths(files)[..i + 1]) == (actual - KeySet(FilePaths(files)[..i])) - {files[i].path}
  {
    var paths := FilePaths(files);
    assert paths[..i + 1] == paths[..i] + [paths[i]];
  }

  lemma FilesMatchEnd(files: seq<FileSnapshot>, actual: map<string, (Option<nat>, Option<nat>)>)
    requires MatchedUpTo(files, actual, |files|)
    ensures FilesMatch(files, actual) <==> actual - KeySet(FilePaths(files)[..|files|]) == map[]
  {
    var paths := FilePaths(files);
    assert paths[..|files|] == paths;
    var rest := actual - KeySet(paths);
    assert rest.Keys == actual.Keys - KeySet(paths);
    if rest == map[] {
      forall p | p in actual.Keys ensures p in KeySet(paths) {
        assert p !in rest.Keys;
      }
    }
    if KeySet(paths) == actual.Keys {
      assert rest.Keys == {};
    }
    forall f | f in files
      ensures f.path in actual && actual[f.path] == (f.modified, f.size)
    {
      var k :| 0 <= k < |files| && files[k] == f;
    }
  }

  // ---------------------------------------------------------------------
  // scan_directory and reuse_directory

  /** What the scan needs from outside: the file entry the walk builds for
      a listed video (its key, title and year hint from the file stem, its
      HD flag from `is_path_hd`), and `owned_key_variants`. */
  datatype ScanEnv = ScanEnv(
    fileOf: (string, Option<nat>, Option<nat>) -> FileSnapshot,
    variantsOf: VariantsOf)

  /** The new manifest's directories and the owned-key sets, as the scan
      threads them through `&mut`. */
  datatype ScanState = ScanState(dirs: map<string, DirSnapshot>, sets: OwnedSets)

  /** What happens below a directory whose stored snapshot is reused: as
      written, the stored snapshots of the whole subtree are copied; as
      intended, each listed subdirectory is scanned in its own right. */
  datatype ReuseMode = ReuseSubtree | RescanSubdirs

  /** `reuse_directory`: copies the stored snapshot of `dir` into the new
      manifest and accumulates its files, then does the same for each stored
      subdirectory in turn. `fuel` bounds the depth of stored subdirectories
      followed. */
  function Reuse(dir: string, stored: map<string, DirSnapshot>, st: ScanState, variantsOf: VariantsOf, fuel: nat): ScanState
    decreases fuel, 0, 0
  {
    if fuel == 0 || dir !in stored then st
    else
      var snap := stored[dir];
      var st1 := ScanState(st.dirs[dir := snap], AccumulateFiles(st.sets, snap.files, variantsOf));
      ReuseSubdirs(snap.subdirs, 0, stored, st1, variantsOf, fuel - 1)
  }

  function ReuseSubdirs(subs: seq<string>, i: nat, stored: map<string, DirSnapshot>, st: ScanState,
                        variantsOf: VariantsOf, fuel: nat): ScanState
    requires i <= |subs|
    decreases fuel, 1, |subs| - i
  {
    if i == |subs| then st
    else ReuseSubdirs(subs, i + 1, stored, Reuse(subs[i], stored, st, variantsOf, fuel), variantsOf, fuel)
  }

  /** The reuse test of `scan_directory`: a stored snapshot with the same
      modification time that matches the listing. */
  predicate Reusable(node: FsNode, stored: map<string, DirSnapshot>, es: seq<DirEntryInfo>)
  {
    node.path in stored && stored[node.path].mtime == node.mtime && SnapshotMatchesSpec(stored[node.path], es)
  }

  /** `scan_directory`: an unreadable directory is skipped; a reusable one
      is taken from the stored manifest; any other is walked. */
  function Scan(mode: ReuseMode, node: FsNode, stored: map<string, DirSnapshot>, st: ScanState, env: ScanEnv): ScanState
    decreases node, 2, 0
  {
    if !node.readable then st
    else
      var es := Listed(node.listing);
      if Reusable(node, stored, es) then
        var snap := stored[node.path];
        match mode
        case ReuseSubtree => Reuse(node.path, stored, st, env.variantsOf, |stored|)
        case RescanSubdirs =>
          var st1 := ScanState(st.dirs[node.path := snap], AccumulateFiles(st.sets, snap.files, env.variantsOf));
          ScanSubdirs(mode, node, es, 0, stored, st1, env)
      else Walk(mode, node, es, 0, stored, st, DirSnapshot(node.mtime, [], []), env)
  }

  /** The walk of `scan_directory` over the listing from entry `i` on: a
      subdirectory is recorded and scanned, a video file gets a fresh entry
      that is accumulated and recorded; the new snapshot is stored last. */
  function Walk(mode: ReuseMode, node: FsNode, es: seq<DirEntryInfo>, i: nat, stored: map<string, DirSnapshot>,
                st: ScanState, snap: DirSnapshot, env: ScanEnv): ScanState
    requires i <= |es| && forall n :: DirInfo(n) in es ==> DirEntry(n) in node.listing
    decreases node, 1, |es| - i
  {
    if i == |es| then st.(dirs := st.dirs[node.path := snap])
    else
      match es[i]
      case DirInfo(sub) =>
        assert DirEntry(sub) in node.listing;
        Walk(mode, node, es, i + 1, stored, Scan(mode, sub, stored, st, env),
             snap.(subdirs := snap.subdirs + [sub.path]), env)
      case VideoInfo(p, m, sz) =>
        var f := env.fileOf(p, m, sz);
        Walk(mode, node, es, i + 1, stored, st.(sets := Accumulated(st.sets, f, env.variantsOf)),
             snap.(files := snap.files + [f]), env)
  }

  /** The listed subdirectories from entry `i` on, each scanned in turn. */
  function ScanSubdirs(mode: ReuseMode, node: FsNode, es: seq<DirEntryInfo>, i: nat, stored: map<string, DirSnapshot>,
                       st: ScanState, env: ScanEnv): ScanState
    requires i <= |es| && forall n :: DirInfo(n) in es ==> DirEntry(n) in node.listing
    decreases node, 1, |es| - i
  {
    if i == |es| then st
    else
      match es[i]
      case DirInfo(sub) =>
        assert DirEntry(sub) in node.listing;
        ScanSubdirs(mode, node, es, i + 1, stored, Scan(mode, sub, stored, st, env), env)
      case VideoInfo(_, _, _) => ScanSubdirs(mode, node, es, i + 1, stored, st, env)
  }

  /** Accumulates each file entry in turn. */
  method AccumulateAll(files: seq<FileSnapshot>, sets0: OwnedSets, variantsOf: VariantsOf) returns (sets: OwnedSets)
    ensures sets == AccumulateFiles(sets0, files, variantsOf)
  {
    sets := sets0;
    var i := 0;
    while i < |files|
      invariant 0 <= i <= |files|
      invariant sets == AccumulateFiles(sets0, files[..i], variantsOf)
    {
      assert files[..i + 1][..i] == files[..i];
      sets := AccumulateOwnedEntry(files[i], sets, variantsOf);
      i := i + 1;
    }
    assert files[..i] == files;
  }

  /** `reuse_directory` as written. */
  method ReuseDirectory(dir: string, stored: map<string, DirSnapshot>, newManifest: OwnedManifest, sets0: OwnedSets,
                        variantsOf: VariantsOf, fuel: nat) returns (sets: OwnedSets)
    modifies newManifest
    ensures ScanState(newManifest.dirs, sets) == Reuse(dir, stored, ScanState(old(newManifest.dirs), sets0), variantsOf, fuel)
    ensures newManifest.version == old(newManifest.version)
    decreases fuel
  {
    if fuel == 0 || dir !in stored {
      return sets0;
    }
    ghost var target := Reuse(dir, stored, ScanState(newManifest.dirs, sets0), variantsOf, fuel);
    var snapshot := stored[dir];
    sets := AccumulateAll(snapshot.files, sets0, variantsOf);
    newManifest.InsertSnapshot(dir, snapshot);
    var i := 0;
    while i < |snapshot.subdirs|
      invariant 0 <= i <= |snapshot.subdirs|
      invariant ReuseSubdirs(snapshot.subdirs, i, stored, ScanState(newManifest.dirs, sets), variantsOf, fuel - 1) == target
      invariant newManifest.version == old(newManifest.version)
    {
      sets := ReuseDirectory(snapshot.subdirs[i], stored, newManifest, sets, variantsOf, fuel - 1);
      i := i + 1;
    }
  }

  /** `scan_directory`, reusing a directory's own snapshot and scanning
      its subdirectories in their own right. */
  method ScanDirectory(node: FsNode, stored: map<string, DirSnapshot>, newManifest: OwnedManifest, sets0: OwnedSets, env: ScanEnv)
    returns (sets: OwnedSets)
    modifies newManifest
    ensures ScanState(newManifest.dirs, sets) == Scan(RescanSubdirs, node, stored, ScanState(old(newManifest.dirs), sets0), env)
    ensures newManifest.version == old(newManifest.version)
    decreases node, 2
  {
    if !node.readable {
      return sets0;
    }
    var entries := ListEntries(node.listing);
    if node.path in stored && stored[node.path].mtime == node.mtime {
      var snapshot := stored[node.path];
      var matches := SnapshotMatches(snapshot, entries);
      if matches {
        sets := AccumulateAll(snapshot.files, sets0, env.variantsOf);
        newManifest.InsertSnapshot(node.path, snapshot);
        sets := ScanListedSubdirs(node, entries, stored, newManifest, sets, env);
        return;
      }
    }
    sets := WalkDirectory(node, entries, stored, newManifest, sets0, env);
  }

  /** Scans each listed subdirectory of a reused directory. */
  method ScanListedSubdirs(node: FsNode, entries: seq<DirEntryInfo>, stored: map<string, DirSnapshot>,
                           newManifest: OwnedManifest, sets0: OwnedSets, env: ScanEnv) returns (sets: OwnedSets)
    requires entries == Listed(node.listing)
    modifies newManifest
    ensures ScanState(newManifest.dirs, sets)
            == ScanSubdirs(RescanSubdirs, node, entries, 0, stored, ScanState(old(newManifest.dirs), sets0), env)
    ensures newManifest.version == old(newManifest.version)
    decreases node, 1
  {
    ghost var target := ScanSubdirs(RescanSubdirs, node, entries, 0, stored, ScanState(newManifest.dirs, sets0), env);
    sets := sets0;
    var i := 0;
    while i < |entries|
      invariant 0 <= i <= |entries|
      invariant ScanSubdirs(RescanSubdirs, node, entries, i, stored, ScanState(newManifest.dirs, sets), env) == target
      invariant newManifest.version == old(newManifest.version)
    {
      match entries[i] {
        case DirInfo(sub) =>
          assert DirEntry(sub) in node.listing;
          sets := ScanDirectory(sub, stored, newManifest, sets, env);
        case VideoInfo(_, _, _) =>
      }
      i := i + 1;
    }
  }

  /** A listed subdirectory: recorded, then scanned. */
  lemma WalkDirStep(mode: ReuseMode, node: FsNode, es: seq<DirEntryInfo>, i: nat, stored: map<string, DirSnapshot>,
                    st: ScanState, snap: DirSnapshot, env: ScanEnv, sub: FsNode)
    requires i < |es| && (forall n :: DirInfo(n) in es ==> DirEntry(n) in node.listing) && es[i] == DirInfo(sub)
    ensures DirEntry(sub) in node.listing
    ensures Walk(mode, node, es, i, stored, st, snap, env)
            == Walk(mode, node, es, i + 1, stored, Scan(mode, sub, stored, st, env), snap.(subdirs := snap.subdirs + [sub.path]), env)
  {
  }

  /** A listed video file: its entry is accumulated and recorded. */
  lemma WalkFileStep(mode: ReuseMode, node: FsNode, es: seq<DirEntryInfo>, i: nat, stored: map<string, DirSnapshot>,
                     st: ScanState, snap: DirSnapshot, env: ScanEnv, f: FileSnapshot)
    requires i < |es| && (forall n :: DirInfo(n) in es ==> DirEntry(n) in node.listing)
    requires es[i].VideoInfo? && f == env.fileOf(es[i].path, es[i].modified, es[i].size)
    ensures Walk(mode, node, es, i, stored, st, snap, env)
            == Walk(mode, node, es, i + 1, stored, st.(sets := Accumulated(st.sets, f, env.variantsOf)), snap.(files := snap.files + [f]), env)
  {
  }

  /** One entry of the walk of `scan_directory`. */
  method WalkEntry(node: FsNode, entries: seq<DirEntryInfo>, i: nat, stored: map<string, DirSnapshot>,
                   newManifest: OwnedManifest, sets0: OwnedSets, snapshot0: DirSnapshot, env: ScanEnv)
    returns (sets: OwnedSets, snapshot: DirSnapshot)
    requires i < |entries| && forall n :: DirInfo(n) in entries ==> DirEntry(n) in node.listing
    modifies newManifest
    ensures Walk(RescanSubdirs, node, entries, i + 1, stored, ScanState(newManifest.dirs, sets), snapshot, env)
            == Walk(RescanSubdirs, node, entries, i, stored, ScanState(old(newManifest.dirs), sets0), snapshot0, env)
    ensures newManifest.version == old(newManifest.version)
    decreases node, 0
  {
    match entries[i] {
      case DirInfo(sub) =>
        WalkDirStep(RescanSubdirs, node, entries, i, stored, ScanState(newManifest.dirs, sets0), snapshot0, env, sub);
        snapshot := snapshot0.(subdirs := snapshot0.subdirs + [sub.path]);
        sets := ScanDirectory(sub, stored, newManifest, sets0, env);
      case VideoInfo(p, m, sz) =>
        var file := env.fileOf(p, m, sz);
        WalkFileStep(RescanSubdirs, node, entries, i, stored, ScanState(newManifest.dirs, sets0), snapshot0, env, file);
        sets := AccumulateOwnedEntry(file, sets0, env.variantsOf);
        snapshot := snapshot0.(files := snapshot0.files + [file]);
    }
  }

  /** The walk of `scan_directory`: builds the directory's new snapshot. */
  method WalkDirectory(node: FsNode, entries: seq<DirEntryInfo>, stored: map<string, DirSnapshot>,
                       newManifest: OwnedManifest, sets0: OwnedSets, env: ScanEnv) returns (sets: OwnedSets)
    requires entries == Listed(node.listing)
    modifies newManifest
    ensures ScanState(newManifest.dirs, sets)
            == Walk(RescanSubdirs, node, entries, 0, stored, ScanState(old(newManifest.dirs), sets0), DirSnapshot(node.mtime, [], []), env)
    ensures newManifest.version == old(newManifest.version)
    decreases node, 1
  {
    ghost var target := Walk(RescanSubdirs, node, entries, 0, stored, ScanState(newManifest.dirs, sets0), DirSnapshot(node.mtime, [], []), env);
    var snapshot := DirSnapshot(node.mtime, [], []);
    sets := sets0;
    var i := 0;
    while i < |entries|
      invariant 0 <= i <= |entries|
      invariant Walk(RescanSubdirs, node, entries, i, stored, ScanState(newManifest.dirs, sets), snapshot, env) == target
      invariant newManifest.version == old(newManifest.version)
    {
      sets, snapshot := WalkEntry(node, entries, i, stored, newManifest, sets, snapshot, env);
      i := i + 1;
    }
    newManifest.InsertSnapshot(node.path, snapshot);
  }

  // ---------------------------------------------------------------------
  // What a scan keeps

  lemma {:induction false} ReuseConsistent(dir: string, stored: map<string, DirSnapshot>, st: ScanState,
                                          variantsOf: VariantsOf, fuel: nat)
    requires Consistent(st.sets)
    ensures Consistent(Reuse(dir, stored, st, variantsOf, fuel).sets)
    decreases fuel, 0, 0
  {
    if fuel > 0 && dir in stored {
      var snap := stored[dir];
      AccumulateFilesEffect(st.sets, snap.files, variantsOf);
      var st1 := ScanState(st.dirs[dir := snap], AccumulateFiles(st.sets, snap.files, variantsOf));
      ReuseSubdirsConsistent(snap.subdirs, 0, stored, st1, variantsOf, fuel - 1);
    }
  }

  lemma {:induction false} ReuseSubdirsConsistent(subs: seq<string>, i: nat, stored: map<string, DirSnapshot>, st: ScanState,
                                                 variantsOf: VariantsOf, fuel: nat)
    requires i <= |subs| && Consistent(st.sets)
    ensures Consistent(ReuseSubdirs(subs, i, stored, st, variantsOf, fuel).sets)
    decreases fuel, 1, |subs| - i
  {
    if i < |subs| {
      ReuseConsistent(subs[i], stored, st, variantsOf, fuel);
      ReuseSubdirsConsistent(subs, i + 1, stored, Reuse(subs[i], stored, st, variantsOf, fuel), variantsOf, fuel);
    }
  }

  /** A scan keeps the owned-key sets consistent: every HD key is owned and
      exactly the owned keys are dated. */
  lemma {:induction false} ScanConsistent(mode: ReuseMode, node: FsNode, stored: map<string, DirSnapshot>, st: ScanState, env: ScanEnv)
    requires Consistent(st.sets)
    ensures Consistent(Scan(mode, node, stored, st, env).sets)
    decreases node, 2, 0
  {
    if node.readable {
      var es := Listed(node.listing);
      if Reusable(node, stored, es) {
        var snap := stored[node.path];
        match mode
        case ReuseSubtree =>
          ReuseConsistent(node.path, stored, st, env.variantsOf, |stored|);
        case RescanSubdirs =>
          AccumulateFilesEffect(st.sets, snap.files, env.variantsOf);
          var st1 := ScanState(st.dirs[node.path := snap], AccumulateFiles(st.sets, snap.files, env.variantsOf));
          ScanSubdirsConsistent(mode, node, es, 0, stored, st1, env);
      } else {
        WalkConsistent(mode, node, es, 0, stored, st, DirSnapshot(node.mtime, [], []), env);
      }
    }
  }

  lemma {:induction false} WalkConsistent(mode: ReuseMode, node: FsNode, es: seq<DirEntryInfo>, i: nat, stored: map<string, DirSnapshot>,
                                         st: ScanState, snap: DirSnapshot, env: ScanEnv)
    requires i <= |es| && forall n :: DirInfo(n) in es ==> DirEntry(n) in node.listing
    requires Consistent(st.sets)
    ensures Consistent(Walk(mode, node, es, i, stored, st, snap, env).sets)
    decreases node, 1, |es| - i
  {
    if i < |es| {
      match es[i]
      case DirInfo(sub) =>
        WalkDirStep(mode, node, es, i, stored, st, snap, env, sub);
        ScanConsistent(mode, sub, stored, st, env);
        WalkConsistent(mode, node, es, i + 1, stored, Scan(mode, sub, stored, st, env),
                       snap.(subdirs := snap.subdirs + [sub.path]), env);
      case VideoInfo(p, m, sz) =>
        var f := env.fileOf(p, m, sz);
        WalkFileStep(mode, node, es, i, stored, st, snap, env, f);
        AccumulatedEffect(st.sets, f, env.variantsOf);
        WalkConsistent(mode, node, es, i + 1, stored, st.(sets := Accumulated(st.sets, f, env.variantsOf)),
                       snap.(files := snap.files + [f]), env);
    }
  }

  lemma {:induction false} ScanSubdirsConsistent(mode: ReuseMode, node: FsNode, es: seq<DirEntryInfo>, i: nat,
                                                stored: map<string, DirSnapshot>, st: ScanState, env: ScanEnv)
    requires i <= |es| && forall n :: DirInfo(n) in es ==> DirEntry(n) in node.listing
    requires Consistent(st.sets)
    ensures Consistent(ScanSubdirs(mode, node, es, i, stored, st, env).sets)
    decreases node, 1, |es| - i
  {
    if i < |es| {
      match es[i]
      case DirInfo(sub) =>
        assert DirEntry(sub) in node.listing;
        ScanConsistent(mode, sub, stored, st, env);
        ScanSubdirsConsistent(mode, node, es, i + 1, stored, Scan(mode, sub, stored, st, env), env);
      case VideoInfo(_, _, _) =>
        ScanSubdirsConsistent(mode, node, es, i + 1, stored, st, env);
    }
  }

  /** The subdirectory paths of a listing, in order. */
  function WalkedSubdirs(es: seq<DirEntryInfo>): seq<string>
  {
    if es == [] then []
    else WalkedSubdirs(es[..|es| - 1]) + (if es[|es| - 1].DirInfo? then [es[|es| - 1].node.path] else [])
  }

  /** The fresh file entries of a listing's video files, in order. */
  function WalkedFiles(es: seq<DirEntryInfo>, fileOf: (string, Option<nat>, Option<nat>) -> FileSnapshot): seq<FileSnapshot>
  {
    if es == [] then []
    else
      var e := es[|es| - 1];
      WalkedFiles(es[..|es| - 1], fileOf) + (if e.VideoInfo? then [fileOf(e.path, e.modified, e.size)] else [])
  }

  /** The snapshot the walk records for a directory. */
  function WalkedSnapshot(node: FsNode, fileOf: (string, Option<nat>, Option<nat>) -> FileSnapshot): DirSnapshot
  {
    DirSnapshot(node.mtime, WalkedFiles(Listed(node.listing), fileOf), WalkedSubdirs(Listed(node.listing)))
  }

  /** One more entry of the listing extends what the walk records. */
  lemma WalkedStep(es: seq<DirEntryInfo>, i: nat, fileOf: (string, Option<nat>, Option<nat>) -> FileSnapshot)
    requires i < |es|
    ensures WalkedSubdirs(es[..i + 1]) == WalkedSubdirs(es[..i]) + (if es[i].DirInfo? then [es[i].node.path] else [])
    ensures WalkedFiles(es[..i + 1], fileOf)
            == WalkedFiles(es[..i], fileOf) + (if es[i].VideoInfo? then [fileOf(es[i].path, es[i].modified, es[i].size)] else [])
  {
    assert es[..i + 1][..i] == es[..i];
  }

  lemma {:induction false} WalkStores(mode: ReuseMode, node: FsNode, es: seq<DirEntryInfo>, i: nat, stored: map<string, DirSnapshot>,
                                     st: ScanState, snap: DirSnapshot, env: ScanEnv)
    requires i <= |es| && forall n :: DirInfo(n) in es ==> DirEntry(n) in node.listing
    requires snap == DirSnapshot(node.mtime, WalkedFiles(es[..i], env.fileOf), WalkedSubdirs(es[..i]))
    ensures node.path in Walk(mode, node, es, i, stored, st, snap, env).dirs
    ensures Walk(mode, node, es, i, stored, st, snap, env).dirs[node.path]
            == DirSnapshot(node.mtime, WalkedFiles(es, env.fileOf), WalkedSubdirs(es))
    decreases |es| - i
  {
    if i == |es| {
      assert es[..i] == es;
    } else {
      WalkedStep(es, i, env.fileOf);
      match es[i]
      case DirInfo(sub) =>
        WalkDirStep(mode, node, es, i, stored, st, snap, env, sub);
        WalkStores(mode, node, es, i + 1, stored, Scan(mode, sub, stored, st, env),
                   snap.(subdirs := snap.subdirs + [sub.path]), env);
      case VideoInfo(p, m, sz) =>
        var f := env.fileOf(p, m, sz);
        WalkFileStep(mode, node, es, i, stored, st, snap, env, f);
        WalkStores(mode, node, es, i + 1, stored, st.(sets := Accumulated(st.sets, f, env.variantsOf)),
                   snap.(files := snap.files + [f]), env);
    }
  }

  /** A readable directory that cannot be reused (no stored snapshot, a
      new modification time, or a listing that does not match) is walked:
      the new manifest records it with its current modification time, its
      listed subdirectories in order and a fresh entry per listed video. */
  lemma ChangedDirectoryWalked(mode: ReuseMode, node: FsNode, stored: map<string, DirSnapshot>, st: ScanState, env: ScanEnv)
    requires node.readable && !Reusable(node, stored, Listed(node.listing))
    ensures node.path in Scan(mode, node, stored, st, env).dirs
    ensures Scan(mode, node, stored, st, env).dirs[node.path] == WalkedSnapshot(node, env.fileOf)
  {
    var es := Listed(node.listing);
    WalkStores(mode, node, es, 0, stored, st, DirSnapshot(node.mtime, [], []), env);
  }

  /** An unreadable directory changes nothing. */
  lemma UnreadableSkipped(mode: ReuseMode, node: FsNode, stored: map<string, DirSnapshot>, st: ScanState, env: ScanEnv)
    requires !node.readable
    ensures Scan(mode, node, stored, st, env) == st
  {
  }

  function EntryPath(e: DirEntryInfo): string
  {
    match e
    case DirInfo(n) => n.path
    case VideoInfo(p, _, _) => p
  }

  /** No two listed entries share a path, as in any real directory. */
  predicate DistinctEntries(es: seq<DirEntryInfo>)
  {
    forall i, j :: 0 <= i < j < |es| ==> EntryPath(es[i]) != EntryPath(es[j])
  }

  function EntryPaths(es: seq<DirEntryInfo>): set<string>
  {
    set i | 0 <= i < |es| :: EntryPath(es[i])
  }

  /** The entry the walk builds for a listed file records the file's path,
      modification time and size. */
  ghost predicate KeepsMetadata(fileOf: (string, Option<nat>, Option<nat>) -> FileSnapshot)
  {
    forall p, m, sz :: fileOf(p, m, sz).path == p && fileOf(p, m, sz).modified == m && fileOf(p, m, sz).size == sz
  }

  lemma DistinctAppend(a: seq<string>, x: string)
    requires Distinct(a) && x !in a
    ensures Distinct(a + [x])
  {
  }

  lemma SubdirsMatchAppend(ws: seq<string>, actual: set<string>, x: string)
    requires SubdirsMatch(ws, actual) && x !in actual
    ensures SubdirsMatch(ws + [x], actual + {x})
  {
    assert KeySet(ws + [x]) == KeySet(ws) + {x};
    DistinctAppend(ws, x);
  }

  lemma FilesMatchAppend(wf: seq<FileSnapshot>, actual: map<string, (Option<nat>, Option<nat>)>, f: FileSnapshot)
    requires FilesMatch(wf, actual) && f.path !in actual
    ensures FilesMatch(wf + [f], actual[f.path := (f.modified, f.size)])
  {
    var ps := FilePaths(wf);
    assert FilePaths(wf + [f]) == ps + [f.path];
    assert KeySet(ps + [f.path]) == KeySet(ps) + {f.path};
    DistinctAppend(ps, f.path);
  }

  /** Dropping a listing's last entry. */
  lemma EntriesPrefix(es: seq<DirEntryInfo>)
    requires es != [] && DistinctEntries(es)
    ensures DistinctEntries(es[..|es| - 1])
    ensures EntryPaths(es) == EntryPaths(es[..|es| - 1]) + {EntryPath(es[|es| - 1])}
    ensures EntryPath(es[|es| - 1]) !in EntryPaths(es[..|es| - 1])
  {
    var es' := es[..|es| - 1];
    var e := es[|es| - 1];
    forall i, j | 0 <= i < j < |es'| ensures EntryPath(es'[i]) != EntryPath(es'[j]) {
      assert es'[i] == es[i] && es'[j] == es[j];
    }
    forall i | 0 <= i < |es'| ensures EntryPath(es'[i]) != EntryPath(e) && EntryPath(es'[i]) in EntryPaths(es) {
      assert es'[i] == es[i];
    }
    forall x | x in EntryPaths(es) ensures x in EntryPaths(es') + {EntryPath(e)} {
      var i :| 0 <= i < |es| && EntryPath(es[i]) == x;
      if i < |es'| {
        assert es'[i] == es[i];
      }
    }
  }

  lemma {:induction false} WalkedSubdirsMatch(es: seq<DirEntryInfo>)
    requires DistinctEntries(es)
    ensures SubdirsMatch(WalkedSubdirs(es), ListedDirs(es)) && ListedDirs(es) <= EntryPaths(es)
  {
    if es != [] {
      var es' := es[..|es| - 1];
      EntriesPrefix(es);
      WalkedSubdirsMatch(es');
      if es[|es| - 1].DirInfo? {
        SubdirsMatchAppend(WalkedSubdirs(es'), ListedDirs(es'), es[|es| - 1].node.path);
      }
    }
  }

  lemma {:induction false} WalkedFilesMatch(es: seq<DirEntryInfo>, fileOf: (string, Option<nat>, Option<nat>) -> FileSnapshot)
    requires DistinctEntries(es) && KeepsMetadata(fileOf)
    ensures FilesMatch(WalkedFiles(es, fileOf), ListedFiles(es)) && ListedFiles(es).Keys <= EntryPaths(es)
  {
    if es != [] {
      var es' := es[..|es| - 1];
      var e := es[|es| - 1];
      EntriesPrefix(es);
      WalkedFilesMatch(es', fileOf);
      if e.VideoInfo? {
        var f := fileOf(e.path, e.modified, e.size);
        assert f.path == e.path && f.modified == e.modified && f.size == e.size;
        assert f.path !in ListedFiles(es');
        FilesMatchAppend(WalkedFiles(es', fileOf), ListedFiles(es'), f);
        assert WalkedFiles(es, fileOf) == WalkedFiles(es', fileOf) + [f];
        assert ListedFiles(es) == ListedFiles(es')[f.path := (f.modified, f.size)];
        assert EntryPath(e) == f.path;
      } else {
        assert WalkedFiles(es, fileOf) == WalkedFiles(es', fileOf);
        assert ListedFiles(es) == ListedFiles(es');
      }
      assert FilesMatch(WalkedFiles(es, fileOf), ListedFiles(es));
    }
  }

  /** The snapshot the walk records for a directory matches its listing
      when no two entries share a path: a directory rescanned with nothing
      changed is reused. */
  lemma WalkedSnapshotMatches(node: FsNode, fileOf: (string, Option<nat>, Option<nat>) -> FileSnapshot)
    requires DistinctEntries(Listed(node.listing)) && KeepsMetadata(fileOf)
    ensures Reusable(node, map[node.path := WalkedSnapshot(node, fileOf)], Listed(node.listing))
  {
    WalkedSubdirsMatch(Listed(node.listing));
    WalkedFilesMatch(Listed(node.listing), fileOf);
  }

  // ---------------------------------------------------------------------
  // Which keys a scan finds

  /** Every stored file entry is the one the walk builds for its path,
      modification time and size: the stored manifest was written by a
      walk with the same key and HD rules. */
  ghost predicate Faithful(stored: map<string, DirSnapshot>, fileOf: (string, Option<nat>, Option<nat>) -> FileSnapshot)
  {
    forall d, f :: d in stored && f in stored[d].files ==> f == fileOf(f.path, f.modified, f.size)
  }

  /** No directory of the tree lists two entries with the same path. */
  ghost predicate WellListed(node: FsNode)
    decreases node
  {
    DistinctEntries(Listed(node.listing))
    && forall k :: 0 <= k < |node.listing| && node.listing[k].DirEntry? ==> WellListed(node.listing[k].node)
  }

  lemma WellListedSub(node: FsNode, sub: FsNode)
    requires WellListed(node) && DirEntry(sub) in node.listing
    ensures WellListed(sub)
  {
    var k :| 0 <= k < |node.listing| && node.listing[k] == DirEntry(sub);
  }

  /** The owned keys (`hdOnly` false) or the HD keys (`hdOnly` true) of a
      scan state. */
  function Keys(st: ScanState, hdOnly: bool): set<string>
  {
    if hdOnly then st.sets.hdKeys else st.sets.owned
  }

  /** The keys of the listed video files from entry `i` on, each with the
      entry the walk builds for it. */
  function VideoKeys(es: seq<DirEntryInfo>, i: nat, env: ScanEnv, hdOnly: bool): set<string>
    requires i <= |es|
    decreases |es| - i
  {
    if i == |es| then {}
    else
      (match es[i]
       case DirInfo(_) => {}
       case VideoInfo(p, m, sz) => FileKeys(env.fileOf(p, m, sz), env.variantsOf, hdOnly))
      + VideoKeys(es, i + 1, env, hdOnly)
  }

  /** The keys a full walk finds in a tree: those of every video file in
      its readable directories, each with the entry the walk builds for
      it. */
  function TreeKeys(node: FsNode, env: ScanEnv, hdOnly: bool): set<string>
    decreases node, 2, 0
  {
    if !node.readable then {}
    else
      var es := Listed(node.listing);
      VideoKeys(es, 0, env, hdOnly) + SubdirKeys(node, es, 0, env, hdOnly)
  }

  /** The keys a full walk finds below the listed subdirectories from entry
      `i` on. */
  function SubdirKeys(node: FsNode, es: seq<DirEntryInfo>, i: nat, env: ScanEnv, hdOnly: bool): set<string>
    requires i <= |es| && forall n :: DirInfo(n) in es ==> DirEntry(n) in node.listing
    decreases node, 1, |es| - i
  {
    if i == |es| then {}
    else
      match es[i]
      case DirInfo(sub) =>
        assert DirEntry(sub) in node.listing;
        TreeKeys(sub, env, hdOnly) + SubdirKeys(node, es, i + 1, env, hdOnly)
      case VideoInfo(_, _, _) => SubdirKeys(node, es, i + 1, env, hdOnly)
  }

  lemma {:induction false} VideoKeysMeans(es: seq<DirEntryInfo>, i: nat, env: ScanEnv, hdOnly: bool, k: string)
    requires i <= |es|
    ensures k in VideoKeys(es, i, env, hdOnly)
            <==> exists j :: i <= j < |es| && es[j].VideoInfo?
                   && k in FileKeys(env.fileOf(es[j].path, es[j].modified, es[j].size), env.variantsOf, hdOnly)
    decreases |es| - i
  {
    if i < |es| {
      VideoKeysMeans(es, i + 1, env, hdOnly, k);
    }
  }

  /** Each listed path maps to the metadata of a listed video file with
      that path. */
  lemma {:induction false} ListedFilesWitness(es: seq<DirEntryInfo>, p: string)
    requires p in ListedFiles(es)
    ensures exists j :: 0 <= j < |es| && es[j].VideoInfo? && es[j].path == p
                        && ListedFiles(es)[p] == (es[j].modified, es[j].size)
  {
    var es' := es[..|es| - 1];
    var e := es[|es| - 1];
    if !(e.VideoInfo? && e.path == p) {
      ListedFilesWitness(es', p);
      var j :| 0 <= j < |es'| && es'[j].VideoInfo? && es'[j].path == p
               && ListedFiles(es')[p] == (es'[j].modified, es'[j].size);
      assert es[j] == es'[j];
    }
  }

  /** With distinct paths, each listed video file is listed with its own
      metadata. */
  lemma {:induction false} ListedFilesAt(es: seq<DirEntryInfo>, j: nat)
    requires DistinctEntries(es) && j < |es| && es[j].VideoInfo?
    ensures es[j].path in ListedFiles(es) && ListedFiles(es)[es[j].path] == (es[j].modified, es[j].size)
  {
    if j < |es| - 1 {
      var es' := es[..|es| - 1];
      EntriesPrefix(es);
      assert es'[j] == es[j];
      ListedFilesAt(es', j);
      assert EntryPath(es[j]) != EntryPath(es[|es| - 1]);
    }
  }

  /** A reused snapshot whose entries are the walk's own holds exactly the
      keys of the listed video files. */
  lemma ReusedFilesKeys(files: seq<FileSnapshot>, es: seq<DirEntryInfo>, env: ScanEnv, hdOnly: bool)
    requires FilesMatch(files, ListedFiles(es)) && DistinctEntries(es)
    requires forall f :: f in files ==> f == env.fileOf(f.path, f.modified, f.size)
    ensures FilesKeys(files, env.variantsOf, hdOnly) == VideoKeys(es, 0, env, hdOnly)
  {
    forall k | k in FilesKeys(files, env.variantsOf, hdOnly) ensures k in VideoKeys(es, 0, env, hdOnly) {
      FilesKeysMeans(files, env.variantsOf, hdOnly, k);
      var f :| f in files && k in FileKeys(f, env.variantsOf, hdOnly);
      ListedFilesWitness(es, f.path);
      var j :| 0 <= j < |es| && es[j].VideoInfo? && es[j].path == f.path
               && ListedFiles(es)[f.path] == (es[j].modified, es[j].size);
      assert env.fileOf(es[j].path, es[j].modified, es[j].size) == f;
      VideoKeysMeans(es, 0, env, hdOnly, k);
    }
    forall k | k in VideoKeys(es, 0, env, hdOnly) ensures k in FilesKeys(files, env.variantsOf, hdOnly) {
      VideoKeysMeans(es, 0, env, hdOnly, k);
      var j :| 0 <= j < |es| && es[j].VideoInfo?
               && k in FileKeys(env.fileOf(es[j].path, es[j].modified, es[j].size), env.variantsOf, hdOnly);
      ListedFilesAt(es, j);
      assert es[j].path in KeySet(FilePaths(files));
      var i :| 0 <= i < |files| && FilePaths(files)[i] == es[j].path;
      assert files[i] in files;
      assert files[i] == env.fileOf(es[j].path, es[j].modified, es[j].size);
      FilesKeysMeans(files, env.variantsOf, hdOnly, k);
    }
  }

  /** The corrected scan adds exactly the keys a full walk of the tree
      finds, when the stored entries are the walk's own. */
  lemma {:induction false} ScanKeys(node: FsNode, stored: map<string, DirSnapshot>, st: ScanState, env: ScanEnv, hdOnly: bool)
    requires Faithful(stored, env.fileOf) && WellListed(node)
    ensures Keys(Scan(RescanSubdirs, node, stored, st, env), hdOnly) == Keys(st, hdOnly) + TreeKeys(node, env, hdOnly)
    decreases node, 2, 0
  {
    if node.readable {
      var es := Listed(node.listing);
      if Reusable(node, stored, es) {
        var snap := stored[node.path];
        AccumulateFilesEffect(st.sets, snap.files, env.variantsOf);
        ReusedFilesKeys(snap.files, es, env, hdOnly);
        var st1 := ScanState(st.dirs[node.path := snap], AccumulateFiles(st.sets, snap.files, env.variantsOf));
        ScanSubdirsKeys(node, es, 0, stored, st1, env, hdOnly);
      } else {
        WalkKeys(node, es, 0, stored, st, DirSnapshot(node.mtime, [], []), env, hdOnly);
      }
    }
  }

  lemma {:induction false} WalkKeys(node: FsNode, es: seq<DirEntryInfo>, i: nat, stored: map<string, DirSnapshot>,
                                   st: ScanState, snap: DirSnapshot, env: ScanEnv, hdOnly: bool)
    requires i <= |es| && forall n :: DirInfo(n) in es ==> DirEntry(n) in node.listing
    requires Faithful(stored, env.fileOf) && WellListed(node)
    ensures Keys(Walk(RescanSubdirs, node, es, i, stored, st, snap, env), hdOnly)
            == Keys(st, hdOnly) + VideoKeys(es, i, env, hdOnly) + SubdirKeys(node, es, i, env, hdOnly)
    decreases node, 1, |es| - i
  {
    if i < |es| {
      match es[i]
      case DirInfo(sub) =>
        WalkDirStep(RescanSubdirs, node, es, i, stored, st, snap, env, sub);
        WellListedSub(node, sub);
        ScanKeys(sub, stored, st, env, hdOnly);
        WalkKeys(node, es, i + 1, stored, Scan(RescanSubdirs, sub, stored, st, env),
                 snap.(subdirs := snap.subdirs + [sub.path]), env, hdOnly);
      case VideoInfo(p, m, sz) =>
        var f := env.fileOf(p, m, sz);
        WalkFileStep(RescanSubdirs, node, es, i, stored, st, snap, env, f);
        AccumulatedEffect(st.sets, f, env.variantsOf);
        WalkKeys(node, es, i + 1, stored, st.(sets := Accumulated(st.sets, f, env.variantsOf)),
                 snap.(files := snap.files + [f]), env, hdOnly);
    }
  }

  lemma {:induction false} ScanSubdirsKeys(node: FsNode, es: seq<DirEntryInfo>, i: nat, stored: map<string, DirSnapshot>,
                                          st: ScanState, env: ScanEnv, hdOnly: bool)
    requires i <= |es| && forall n :: DirInfo(n) in es ==> DirEntry(n) in node.listing
    requires Faithful(stored, env.fileOf) && WellListed(node)
    ensures Keys(ScanSubdirs(RescanSubdirs, node, es, i, stored, st, env), hdOnly)
            == Keys(st, hdOnly) + SubdirKeys(node, es, i, env, hdOnly)
    decreases node, 1, |es| - i
  {
    if i < |es| {
      match es[i]
      case DirInfo(sub) =>
        assert DirEntry(sub) in node.listing;
        WellListedSub(node, sub);
        ScanKeys(sub, stored, st, env, hdOnly);
        ScanSubdirsKeys(node, es, i + 1, stored, Scan(RescanSubdirs, sub, stored, st, env), env, hdOnly);
      case VideoInfo(_, _, _) =>
        ScanSubdirsKeys(node, es, i + 1, stored, st, env, hdOnly);
    }
  }

  /** Reusing a faithful stored manifest finds the same owned and HD keys
      as walking the whole tree with no stored manifest. */
  lemma ReuseFindsWalkedKeys(node: FsNode, stored: map<string, DirSnapshot>, st: ScanState, env: ScanEnv, hdOnly: bool)
    requires Faithful(stored, env.fileOf) && WellListed(node)
    ensures Keys(Scan(RescanSubdirs, node, stored, st, env), hdOnly) == Keys(Scan(RescanSubdirs, node, map[], st, env), hdOnly)
  {
    ScanKeys(node, stored, st, env, hdOnly);
    ScanKeys(node, map[], st, env, hdOnly);
  }

  /** `/lib` holds the subdirectory `/lib/a`, to which the video file
      `file` was added after the manifest was saved: `/lib/a` has a new
      modification time, `/lib` does not. */
  function LibA(file: string): FsNode
  {
    FsNode("/lib/a", Some(2), true, [FileEntry(file, Some(5), Some(7))])
  }

  function Lib(file: string): FsNode
  {
    FsNode("/lib", Some(1), true, [DirEntry(LibA(file))])
  }

  const LIB_STORED: map<string, DirSnapshot> :=
    map["/lib" := DirSnapshot(Some(1), [], ["/lib/a"]), "/lib/a" := DirSnapshot(Some(1), [], [])]

  /** `/lib` is unchanged and is reused. */
  lemma LibReusable(file: string)
    ensures Listed(Lib(file).listing) == [DirInfo(LibA(file))]
    ensures Reusable(Lib(file), LIB_STORED, Listed(Lib(file).listing))
  {
    var raw := Lib(file).listing;
    assert raw[..|raw| - 1] == [];
    assert Listed(raw[..|raw| - 1]) == [];
    assert ListedEntry(raw[|raw| - 1]) == [DirInfo(LibA(file))];
    var es := Listed(raw);
    assert es == [DirInfo(LibA(file))];
    assert es[..0] == [];
    assert ListedDirs(es) == {"/lib/a"};
    assert ListedFiles(es) == map[];
    assert KeySet(["/lib/a"]) == {"/lib/a"};
  }

  /** `/lib/a` has a new modification time and is walked. */
  lemma LibAWalked(file: string)
    requires IsVideoExt(file)
    ensures Listed(LibA(file).listing) == [VideoInfo(file, Some(5), Some(7))]
    ensures !Reusable(LibA(file), LIB_STORED, Listed(LibA(file).listing))
  {
    var raw := LibA(file).listing;
    assert raw[..|raw| - 1] == [];
    assert Listed(raw[..|raw| - 1]) == [];
    assert ListedEntry(raw[|raw| - 1]) == [VideoInfo(file, Some(5), Some(7))];
    assert LIB_STORED["/lib/a"].mtime == Some(1);
  }

  /** Nothing stored under `/lib` has file entries, and its listings have
      distinct paths. */
  lemma LibWellListed(file: string, fileOf: (string, Option<nat>, Option<nat>) -> FileSnapshot)
    requires IsVideoExt(file)
    ensures Faithful(LIB_STORED, fileOf) && WellListed(Lib(file))
  {
    LibReusable(file);
    LibAWalked(file);
    assert WellListed(LibA(file));
    assert Lib(file).listing[0] == DirEntry(LibA(file));
  }

  /** As written, `reuse_directory` copies the stored subtree of `/lib`
      because `/lib` itself is unchanged, so no file in `/lib/a` is ever
      owned. */
  lemma ReuseSubtreeMissesNewFile(file: string, env: ScanEnv)
    ensures Scan(ReuseSubtree, Lib(file), LIB_STORED, ScanState(map[], NO_OWNED), env).sets.owned == {}
  {
    var st := ScanState(map[], NO_OWNED);
    LibReusable(file);
    var st1 := ScanState(map["/lib" := LIB_STORED["/lib"]], NO_OWNED);
    assert Reuse("/lib", LIB_STORED, st, env.variantsOf, 2) == ReuseSubdirs(["/lib/a"], 0, LIB_STORED, st1, env.variantsOf, 1);
    var st2 := ScanState(st1.dirs["/lib/a" := LIB_STORED["/lib/a"]], NO_OWNED);
    assert Reuse("/lib/a", LIB_STORED, st1, env.variantsOf, 1) == st2;
  }

  /** Walking a directory that lists one video file accumulates that
      file's fresh entry. */
  lemma WalkOneVideo(mode: ReuseMode, node: FsNode, stored: map<string, DirSnapshot>, st: ScanState, env: ScanEnv,
                     e: DirEntryInfo)
    requires node.readable && Listed(node.listing) == [e] && e.VideoInfo?
    requires !Reusable(node, stored, Listed(node.listing))
    ensures Scan(mode, node, stored, st, env).sets == Accumulated(st.sets, env.fileOf(e.path, e.modified, e.size), env.variantsOf)
  {
    var es := Listed(node.listing);
    var f := env.fileOf(e.path, e.modified, e.size);
    var snap := DirSnapshot(node.mtime, [], []);
    var st' := st.(sets := Accumulated(st.sets, f, env.variantsOf));
    assert Scan(mode, node, stored, st, env) == Walk(mode, node, es, 0, stored, st, snap, env);
    assert es[0] == VideoInfo(e.path, e.modified, e.size);
    assert Walk(mode, node, es, 0, stored, st, snap, env)
           == Walk(mode, node, es, 1, stored, st', snap.(files := snap.files + [f]), env);
    assert Walk(mode, node, es, 1, stored, st', snap.(files := snap.files + [f]), env).sets == st'.sets;
  }

  /** The corrected scan rescans `/lib/a` and owns the new video file's
      keys. */
  lemma RescanFindsNewFile(file: string, env: ScanEnv)
    requires IsVideoExt(file)
    ensures KeySet(EntryKeys(env.fileOf(file, Some(5), Some(7)), env.variantsOf))
            <= Scan(RescanSubdirs, Lib(file), LIB_STORED, ScanState(map[], NO_OWNED), env).sets.owned
  {
    LibReusable(file);
    var es := Listed(Lib(file).listing);
    var st1 := ScanState(map["/lib" := LIB_STORED["/lib"]], NO_OWNED);
    var f := env.fileOf(file, Some(5), Some(7));
    assert ScanSubdirs(RescanSubdirs, Lib(file), es, 0, LIB_STORED, st1, env)
           == ScanSubdirs(RescanSubdirs, Lib(file), es, 1, LIB_STORED, Scan(RescanSubdirs, LibA(file), LIB_STORED, st1, env), env);
    LibAWalked(file);
    WalkOneVideo(RescanSubdirs, LibA(file), LIB_STORED, st1, env, VideoInfo(file, Some(5), Some(7)));
    AccumulatedEffect(NO_OWNED, f, env.variantsOf);
  }

  /** On this tree the corrected scan owns what a full walk with no stored
      manifest owns, while the scan as written owns nothing. */
  lemma RescanAgreesWithFullWalk(file: string, env: ScanEnv)
    requires IsVideoExt(file)
    ensures Scan(RescanSubdirs, Lib(file), LIB_STORED, ScanState(map[], NO_OWNED), env).sets.owned
            == Scan(RescanSubdirs, Lib(file), map[], ScanState(map[], NO_OWNED), env).sets.owned
  {
    LibWellListed(file, env.fileOf);
    ReuseFindsWalkedKeys(Lib(file), LIB_STORED, ScanState(map[], NO_OWNED), env, false);
  }

  // ---------------------------------------------------------------------
  // rebuild_hd_flags

  const MISSING_PATHS: string := "Owned manifest is missing file paths; run 'Refresh owned scan' once to upgrade."

  /** What the rebuild reads from disk for a file path: its modification
      time and size (`file_modified_and_size`), and `is_path_hd`'s verdict,
      none when the path does not tell. */
  datatype DiskView = DiskView(stat: string -> (Option<nat>, Option<nat>), hdOf: string -> Option<bool>)

  predicate HasBlankPath(files: seq<FileSnapshot>)
  {
    exists i :: 0 <= i < |files| && IsBlank(files[i].path)
  }

  /** A file entry refreshed from disk: the current modification time and
      size, and the HD verdict of its path when there is one. */
  function Refreshed(f: FileSnapshot, disk: DiskView): (g: FileSnapshot)
    ensures g.path == f.path && g.key == f.key && g.titleHint == f.titleHint && g.yearHint == f.yearHint
    ensures (g.modified, g.size) == disk.stat(f.path)
    ensures g.hd == if disk.hdOf(f.path).Some? then disk.hdOf(f.path).value else f.hd
  {
    var (m, sz) := disk.stat(f.path);
    var v := disk.hdOf(f.path);
    f.(modified := m, size := sz, hd := if v.Some? then v.value else f.hd)
  }

  function RefreshedFiles(files: seq<FileSnapshot>, disk: DiskView): (r: seq<FileSnapshot>)
    ensures |r| == |files| && forall i :: 0 <= i < |files| ==> r[i] == Refreshed(files[i], disk)
  {
    seq(|files|, i requires 0 <= i < |files| => Refreshed(files[i], disk))
  }

  /** Every directory's file entries refreshed from disk. */
  function RefreshedDirs(dirs: map<string, DirSnapshot>, disk: DiskView): (r: map<string, DirSnapshot>)
    ensures r.Keys == dirs.Keys
    ensures forall d :: d in dirs ==> r[d] == dirs[d].(files := RefreshedFiles(dirs[d].files, disk))
  {
    map d | d in dirs :: dirs[d].(files := RefreshedFiles(dirs[d].files, disk))
  }

  /** `after` is `before` with the file entries before some position
      refreshed and the rest as they were. */
  ghost predicate PrefixRefreshed(before: DirSnapshot, after: DirSnapshot, disk: DiskView)
  {
    exists i :: 0 <= i <= |before.files| && after == before.(files := RefreshedFiles(before.files[..i], disk) + before.files[i..])
  }

  /** The owned keys (`hdOnly` false) or HD keys (`hdOnly` true) of the file
      entries of the directories `ds`. */
  function KeysIn(dirs: map<string, DirSnapshot>, ds: set<string>, variantsOf: VariantsOf, hdOnly: bool): set<string>
  {
    set d, k | d in ds && d in dirs && k in FilesKeys(dirs[d].files, variantsOf, hdOnly) :: k
  }

  /** A key is among those of the directories `ds` exactly when one of
      them holds a file entry with that key. */
  lemma KeysInMeans(dirs: map<string, DirSnapshot>, ds: set<string>, variantsOf: VariantsOf, hdOnly: bool, k: string)
    ensures k in KeysIn(dirs, ds, variantsOf, hdOnly)
            <==> exists d :: d in ds && d in dirs && k in FilesKeys(dirs[d].files, variantsOf, hdOnly)
  {
  }

  /** The owned keys or HD keys of every file entry of a manifest. */
  function ManifestKeys(dirs: map<string, DirSnapshot>, variantsOf: VariantsOf, hdOnly: bool): set<string>
  {
    KeysIn(dirs, dirs.Keys, variantsOf, hdOnly)
  }

  /** Refreshing twice reads the same disk and changes nothing more. */
  lemma RefreshIdempotent(dirs: map<string, DirSnapshot>, disk: DiskView)
    ensures RefreshedDirs(RefreshedDirs(dirs, disk), disk) == RefreshedDirs(dirs, disk)
  {
    var once := RefreshedDirs(dirs, disk);
    forall d | d in dirs ensures RefreshedDirs(once, disk)[d] == once[d] {
      assert RefreshedFiles(once[d].files, disk) == once[d].files;
    }
  }

  /** The inner loop of `rebuild_hd_flags` over one directory's file
      entries: each is refreshed in place and accumulated; an entry
      without a path stops it. */
  method RefreshFiles(files: seq<FileSnapshot>, sets0: OwnedSets, disk: DiskView, variantsOf: VariantsOf)
    returns (ok: bool, newFiles: seq<FileSnapshot>, sets: OwnedSets, changed: bool)
    ensures ok <==> !HasBlankPath(files)
    ensures ok ==> newFiles == RefreshedFiles(files, disk) && sets == AccumulateFiles(sets0, newFiles, variantsOf)
    ensures ok ==> (changed <==> newFiles != files)
    ensures !ok ==> exists i :: 0 <= i <= |files| && newFiles == RefreshedFiles(files[..i], disk) + files[i..]
  {
    newFiles, sets, changed := files, sets0, false;
    var i := 0;
    while i < |files|
      invariant 0 <= i <= |files|
      invariant RefreshedUpTo(files, newFiles, i, disk)
      invariant NoBlankBefore(files, i)
      invariant sets == AccumulateFiles(sets0, newFiles[..i], variantsOf)
      invariant changed <==> DiffersBefore(files, newFiles, i)
    {
      if IsBlank(files[i].path) {
        BlankFound(files, newFiles, i, disk);
        return false, newFiles, sets, changed;
      }
      var g, ch := RefreshFile(files[i], disk);
      var next := newFiles[i := g];
      RefreshFilesStep(files, newFiles, next, i, disk, sets0, sets, variantsOf, changed, ch);
      sets := AccumulateOwnedEntry(g, sets, variantsOf);
      newFiles, changed := next, changed || ch;
      i := i + 1;
    }
    RefreshFilesEnd(files, newFiles, disk, changed);
    return true, newFiles, sets, changed;
  }

  /** One step of the inner loop: the fields of a file entry compared with
      what is on disk and replaced, with `changed` raised for each field
      that differs. */
  method RefreshFile(f: FileSnapshot, disk: DiskView) returns (g: FileSnapshot, changed: bool)
    ensures g == Refreshed(f, disk) && (changed <==> g != f)
  {
    var (modified, size) := disk.stat(f.path);
    g, changed := f, false;
    if g.modified != modified {
      g := g.(modified := modified);
      changed := true;
    }
    if g.size != size {
      g := g.(size := size);
      changed := true;
    }
    var verdict := disk.hdOf(f.path);
    if verdict.Some? && verdict.value != g.hd {
      g := g.(hd := verdict.value);
      changed := true;
    }
  }

  ghost predicate RefreshedUpTo(files: seq<FileSnapshot>, cur: seq<FileSnapshot>, i: nat, disk: DiskView)
  {
    i <= |files| && cur == RefreshedFiles(files[..i], disk) + files[i..]
  }

  ghost predicate NoBlankBefore(files: seq<FileSnapshot>, i: nat)
  {
    forall j :: 0 <= j < i && j < |files| ==> !IsBlank(files[j].path)
  }

  ghost predicate DiffersBefore(files: seq<FileSnapshot>, cur: seq<FileSnapshot>, i: nat)
  {
    exists j :: 0 <= j < i && j < |files| && j < |cur| && cur[j] != files[j]
  }

  lemma BlankFound(files: seq<FileSnapshot>, cur: seq<FileSnapshot>, i: nat, disk: DiskView)
    requires i < |files| && IsBlank(files[i].path) && RefreshedUpTo(files, cur, i, disk)
    ensures HasBlankPath(files)
    ensures exists k :: 0 <= k <= |files| && cur == RefreshedFiles(files[..k], disk) + files[k..]
  {
  }

  lemma RefreshFilesStep(files: seq<FileSnapshot>, cur: seq<FileSnapshot>, next: seq<FileSnapshot>, i: nat, disk: DiskView,
                         sets0: OwnedSets, sets: OwnedSets, variantsOf: VariantsOf, changed: bool, ch: bool)
    requires i < |files| && RefreshedUpTo(files, cur, i, disk) && NoBlankBefore(files, i) && !IsBlank(files[i].path)
    requires sets == AccumulateFiles(sets0, cur[..i], variantsOf)
    requires changed <==> DiffersBefore(files, cur, i)
    requires next == cur[i := Refreshed(files[i], disk)]
    requires ch <==> Refreshed(files[i], disk) != files[i]
    ensures RefreshedUpTo(files, next, i + 1, disk) && NoBlankBefore(files, i + 1)
    ensures Accumulated(sets, Refreshed(files[i], disk), variantsOf) == AccumulateFiles(sets0, next[..i + 1], variantsOf)
    ensures changed || ch <==> DiffersBefore(files, next, i + 1)
  {
    RefreshedStep(files, cur, next, i, disk);
    AccumulateStep(cur, next, i, sets0, variantsOf);
    DiffersStep(files, cur, next, i, changed, ch);
  }

  lemma RefreshedStep(files: seq<FileSnapshot>, cur: seq<FileSnapshot>, next: seq<FileSnapshot>, i: nat, disk: DiskView)
    requires i < |files| && RefreshedUpTo(files, cur, i, disk)
    requires next == cur[i := Refreshed(files[i], disk)]
    ensures RefreshedUpTo(files, next, i + 1, disk)
  {
    assert files[..i + 1] == files[..i] + [files[i]];
    assert next == RefreshedFiles(files[..i + 1], disk) + files[i + 1..];
  }

  lemma AccumulateStep(cur: seq<FileSnapshot>, next: seq<FileSnapshot>, i: nat, sets0: OwnedSets, variantsOf: VariantsOf)
    requires i < |cur| == |next| && next[..i] == cur[..i]
    ensures AccumulateFiles(sets0, next[..i + 1], variantsOf)
            == Accumulated(AccumulateFiles(sets0, cur[..i], variantsOf), next[i], variantsOf)
  {
    assert next[..i + 1][..i] == next[..i];
  }

  lemma DiffersStep(files: seq<FileSnapshot>, cur: seq<FileSnapshot>, next: seq<FileSnapshot>, i: nat, changed: bool, ch: bool)
    requires i < |files| == |cur| == |next| && next[..i] == cur[..i]
    requires changed <==> DiffersBefore(files, cur, i)
    requires ch <==> next[i] != files[i]
    ensures changed || ch <==> DiffersBefore(files, next, i + 1)
  {
    if DiffersBefore(files, next, i + 1) {
      var j :| 0 <= j < i + 1 && j < |files| && j < |next| && next[j] != files[j];
      if j < i {
        assert cur[j] == next[..i][j];
      }
    }
    if changed {
      var j :| 0 <= j < i && j < |files| && j < |cur| && cur[j] != files[j];
      assert next[j] == next[..i][j];
    }
  }

  lemma RefreshFilesEnd(files: seq<FileSnapshot>, cur: seq<FileSnapshot>, disk: DiskView, changed: bool)
    requires RefreshedUpTo(files, cur, |files|, disk) && NoBlankBefore(files, |files|)
    requires changed <==> DiffersBefore(files, cur, |files|)
    ensures cur == RefreshedFiles(files, disk) && !HasBlankPath(files)
    ensures changed <==> cur != files
    ensures cur[..|files|] == cur
  {
    assert files[..|files|] == files;
    if cur != files {
      assert |cur| == |files|;
      var j :| 0 <= j < |files| && cur[j] != files[j];
    }
  }

  /** The outer loop of `rebuild_hd_flags`, over the directories in any
      order. */
  method RefreshAll(dirs0: map<string, DirSnapshot>, disk: DiskView, variantsOf: VariantsOf)
    returns (r: Result<(OwnedSets, bool)>, dirs: map<string, DirSnapshot>)
    ensures dirs.Keys == dirs0.Keys
    ensures r.Err? <==> exists d :: d in dirs0 && HasBlankPath(dirs0[d].files)
    ensures r.Err? ==> r.error == MISSING_PATHS && forall d :: d in dirs ==> PrefixRefreshed(dirs0[d], dirs[d], disk)
    ensures r.Ok? ==> dirs == RefreshedDirs(dirs0, disk)
    ensures r.Ok? ==> Consistent(r.value.0)
                      && r.value.0.owned == ManifestKeys(dirs, variantsOf, false)
                      && r.value.0.hdKeys == ManifestKeys(dirs, variantsOf, true)
    ensures r.Ok? ==> (r.value.1 <==> dirs != dirs0)
  {
    var ok, sets, changed;
    ghost var done;
    ok, dirs, sets, changed, done := RefreshEach(dirs0, disk, variantsOf);
    if !ok {
      return Err(MISSING_PATHS), dirs;
    }
    RefreshAllEnd(dirs0, dirs, done, disk, changed);
    return Ok((sets, changed)), dirs;
  }

  /** The loop of `refresh_all` over the stored directories, in any order,
      stopping at the first directory with a file entry without a path. */
  method RefreshEach(dirs0: map<string, DirSnapshot>, disk: DiskView, variantsOf: VariantsOf)
    returns (ok: bool, dirs: map<string, DirSnapshot>, sets: OwnedSets, changed: bool, ghost done: set<string>)
    ensures ok ==> Refreshing(dirs0, dirs, sets, changed, done, {}, disk, variantsOf)
    ensures !ok ==> StoppedEarly(dirs0, dirs, disk)
  {
    dirs := dirs0;
    sets := NO_OWNED;
    changed := false;
    var todo := dirs0.Keys;
    done := {};
    RefreshingStart(dirs0, disk, variantsOf);
    while todo != {}
      invariant Refreshing(dirs0, dirs, sets, changed, done, todo, disk, variantsOf)
      decreases |todo|
    {
      var d :| d in todo;
      var next, sets', changed';
      ok, next, sets', changed' := RefreshDir(dirs0, dirs, done, todo, d, sets, changed, disk, variantsOf);
      if !ok {
        dirs := next;
        return;
      }
      dirs, sets, changed := next, sets', changed';
      todo := todo - {d};
      done := done + {d};
    }
    ok := true;
  }

  /** The state of the loop of `refresh_all`: the directories in `done`
      are refreshed and their keys collected, those in `todo` untouched,
      and `changed` says whether a refreshed directory differs. */
  ghost predicate Refreshing(dirs0: map<string, DirSnapshot>, dirs: map<string, DirSnapshot>, sets: OwnedSets, changed: bool,
                             done: set<string>, todo: set<string>, disk: DiskView, variantsOf: VariantsOf)
  {
    DoneRefreshed(dirs0, dirs, done, todo, disk) && KeysSoFar(sets, dirs, done, variantsOf)
    && (changed <==> ChangedIn(dirs0, dirs, done))
  }

  lemma RefreshingStart(dirs0: map<string, DirSnapshot>, disk: DiskView, variantsOf: VariantsOf)
    ensures Refreshing(dirs0, dirs0, NO_OWNED, false, {}, dirs0.Keys, disk, variantsOf)
  {
  }

  /** The loop of `refresh_all` stopped at a directory with a file entry
      without a path: every directory is refreshed up to some entry. */
  ghost predicate StoppedEarly(dirs0: map<string, DirSnapshot>, dirs: map<string, DirSnapshot>, disk: DiskView)
  {
    dirs.Keys == dirs0.Keys && (exists e :: e in dirs0 && HasBlankPath(dirs0[e].files))
    && forall e :: e in dirs ==> PrefixRefreshed(dirs0[e], dirs[e], disk)
  }

  /** The directories in `done` are refreshed, those in `todo` untouched. */
  ghost predicate DoneRefreshed(dirs0: map<string, DirSnapshot>, dirs: map<string, DirSnapshot>, done: set<string>,
                                todo: set<string>, disk: DiskView)
  {
    todo + done == dirs0.Keys && todo !! done && dirs.Keys == dirs0.Keys
    && (forall d :: d in todo ==> dirs[d] == dirs0[d])
    && (forall d :: d in done ==> dirs[d] == dirs0[d].(files := RefreshedFiles(dirs0[d].files, disk)))
    && (forall d :: d in done ==> !HasBlankPath(dirs0[d].files))
  }

  /** The sets hold the keys of the directories in `done`, consistently. */
  ghost predicate KeysSoFar(sets: OwnedSets, dirs: map<string, DirSnapshot>, done: set<string>, variantsOf: VariantsOf)
  {
    Consistent(sets) && sets.owned == KeysIn(dirs, done, variantsOf, false) && sets.hdKeys == KeysIn(dirs, done, variantsOf, true)
  }

  ghost predicate ChangedIn(dirs0: map<string, DirSnapshot>, dirs: map<string, DirSnapshot>, done: set<string>)
  {
    exists d :: d in done && d in dirs && d in dirs0 && dirs[d] != dirs0[d]
  }

  lemma RefreshAllFails(dirs0: map<string, DirSnapshot>, dirs: map<string, DirSnapshot>, next: map<string, DirSnapshot>,
                        done: set<string>, todo: set<string>, d: string, disk: DiskView)
    requires DoneRefreshed(dirs0, dirs, done, todo, disk) && d in todo
    requires HasBlankPath(dirs[d].files)
    requires exists i :: 0 <= i <= |dirs[d].files| && next == dirs[d := dirs[d].(files := RefreshedFiles(dirs[d].files[..i], disk) + dirs[d].files[i..])]
    ensures next.Keys == dirs0.Keys
    ensures exists e :: e in dirs0 && HasBlankPath(dirs0[e].files)
    ensures forall e :: e in next ==> PrefixRefreshed(dirs0[e], next[e], disk)
  {
    var i :| 0 <= i <= |dirs[d].files| && next == dirs[d := dirs[d].(files := RefreshedFiles(dirs[d].files[..i], disk) + dirs[d].files[i..])];
    assert dirs[d] == dirs0[d];
    forall e | e in next ensures PrefixRefreshed(dirs0[e], next[e], disk) {
      if e == d {
        assert next[e] == dirs0[d].(files := RefreshedFiles(dirs0[d].files[..i], disk) + dirs0[d].files[i..]);
      } else if e in done {
        AllRefreshed(dirs0[e], disk);
      } else {
        NoneRefreshed(dirs0[e], disk);
      }
    }
  }

  /** One pass of the outer loop: the directory `d` refreshed in place. */
  method RefreshDir(dirs0: map<string, DirSnapshot>, dirs: map<string, DirSnapshot>, ghost done: set<string>, ghost todo: set<string>,
                    d: string, sets: OwnedSets, changed: bool, disk: DiskView, variantsOf: VariantsOf)
    returns (ok: bool, next: map<string, DirSnapshot>, sets': OwnedSets, changed': bool)
    requires Refreshing(dirs0, dirs, sets, changed, done, todo, disk, variantsOf) && d in todo
    ensures ok ==> Refreshing(dirs0, next, sets', changed', done + {d}, todo - {d}, disk, variantsOf)
    ensures !ok ==> StoppedEarly(dirs0, next, disk)
  {
    var snapshot := dirs[d];
    var files, ch;
    changed' := changed;
    ok, files, sets', ch := RefreshFiles(snapshot.files, sets, disk, variantsOf);
    next := dirs[d := snapshot.(files := files)];
    if !ok {
      RefreshAllFails(dirs0, dirs, next, done, todo, d, disk);
      return;
    }
    RefreshedDone(dirs0, dirs, next, done, todo, d, disk);
    RefreshedKeys(dirs, next, done, d, disk, sets, sets', variantsOf);
    RefreshedChanged(dirs0, dirs, next, done, d, disk, changed, ch);
    changed' := changed || ch;
  }

  lemma RefreshedDone(dirs0: map<string, DirSnapshot>, dirs: map<string, DirSnapshot>, next: map<string, DirSnapshot>,
                      done: set<string>, todo: set<string>, d: string, disk: DiskView)
    requires DoneRefreshed(dirs0, dirs, done, todo, disk) && d in todo
    requires !HasBlankPath(dirs[d].files)
    requires next == dirs[d := dirs[d].(files := RefreshedFiles(dirs[d].files, disk))]
    ensures DoneRefreshed(dirs0, next, done + {d}, todo - {d}, disk)
  {
  }

  lemma RefreshedKeys(dirs: map<string, DirSnapshot>, next: map<string, DirSnapshot>, done: set<string>, d: string, disk: DiskView,
                      sets: OwnedSets, sets': OwnedSets, variantsOf: VariantsOf)
    requires KeysSoFar(sets, dirs, done, variantsOf) && d in dirs && d !in done
    requires next == dirs[d := dirs[d].(files := RefreshedFiles(dirs[d].files, disk))]
    requires sets' == AccumulateFiles(sets, RefreshedFiles(dirs[d].files, disk), variantsOf)
    ensures KeysSoFar(sets', next, done + {d}, variantsOf)
  {
    AccumulateFilesEffect(sets, RefreshedFiles(dirs[d].files, disk), variantsOf);
    KeysInStep(dirs, done, d, next[d], variantsOf, false);
    KeysInStep(dirs, done, d, next[d], variantsOf, true);
  }

  lemma RefreshedChanged(dirs0: map<string, DirSnapshot>, dirs: map<string, DirSnapshot>, next: map<string, DirSnapshot>,
                         done: set<string>, d: string, disk: DiskView, changed: bool, ch: bool)
    requires d in dirs && d in dirs0 && d !in done && dirs[d] == dirs0[d]
    requires changed <==> ChangedIn(dirs0, dirs, done)
    requires next == dirs[d := dirs[d].(files := RefreshedFiles(dirs[d].files, disk))]
    requires ch <==> RefreshedFiles(dirs[d].files, disk) != dirs[d].files
    ensures changed || ch <==> ChangedIn(dirs0, next, done + {d})
  {
    if ChangedIn(dirs0, next, done + {d}) {
      var e :| e in done + {d} && e in next && e in dirs0 && next[e] != dirs0[e];
      if e != d {
        assert next[e] == dirs[e];
      }
    }
    if changed {
      var e :| e in done && e in dirs && e in dirs0 && dirs[e] != dirs0[e];
      assert next[e] == dirs[e];
    }
    if ch {
      assert next[d] != dirs0[d];
    }
  }

  lemma RefreshAllEnd(dirs0: map<string, DirSnapshot>, dirs: map<string, DirSnapshot>, done: set<string>, disk: DiskView, changed: bool)
    requires DoneRefreshed(dirs0, dirs, done, {}, disk)
    requires changed <==> ChangedIn(dirs0, dirs, done)
    ensures dirs == RefreshedDirs(dirs0, disk)
    ensures !exists d :: d in dirs0 && HasBlankPath(dirs0[d].files)
    ensures done == dirs.Keys
    ensures changed <==> dirs != dirs0
  {
    forall d | d in dirs ensures dirs[d] == RefreshedDirs(dirs0, disk)[d] {
      assert d in done;
    }
    if !changed {
      assert dirs == dirs0;
    }
  }

  lemma NoneRefreshed(s: DirSnapshot, disk: DiskView)
    ensures PrefixRefreshed(s, s, disk)
  {
    assert s.files == RefreshedFiles(s.files[..0], disk) + s.files[0..];
  }

  lemma AllRefreshed(s: DirSnapshot, disk: DiskView)
    ensures PrefixRefreshed(s, s.(files := RefreshedFiles(s.files, disk)), disk)
  {
    var n := |s.files|;
    assert RefreshedFiles(s.files, disk) == RefreshedFiles(s.files[..n], disk) + s.files[n..];
  }

  lemma KeysInStep(dirs: map<string, DirSnapshot>, ds: set<string>, d: string, snap: DirSnapshot,
                   variantsOf: VariantsOf, hdOnly: bool)
    requires d !in ds
    ensures KeysIn(dirs[d := snap], ds + {d}, variantsOf, hdOnly)
            == KeysIn(dirs, ds, variantsOf, hdOnly) + FilesKeys(snap.files, variantsOf, hdOnly)
  {
    var dirs' := dirs[d := snap];
    forall k | k in KeysIn(dirs', ds + {d}, variantsOf, hdOnly)
      ensures k in KeysIn(dirs, ds, variantsOf, hdOnly) + FilesKeys(snap.files, variantsOf, hdOnly)
    {
      KeysInMeans(dirs', ds + {d}, variantsOf, hdOnly, k);
      var e :| e in ds + {d} && e in dirs' && k in FilesKeys(dirs'[e].files, variantsOf, hdOnly);
      if e != d {
        assert dirs'[e] == dirs[e];
        KeysInMeans(dirs, ds, variantsOf, hdOnly, k);
      }
    }
    forall k | k in KeysIn(dirs, ds, variantsOf, hdOnly) + FilesKeys(snap.files, variantsOf, hdOnly)
      ensures k in KeysIn(dirs', ds + {d}, variantsOf, hdOnly)
    {
      KeysInMeans(dirs', ds + {d}, variantsOf, hdOnly, k);
      if k in KeysIn(dirs, ds, variantsOf, hdOnly) {
        KeysInMeans(dirs, ds, variantsOf, hdOnly, k);
        var e :| e in ds && e in dirs && k in FilesKeys(dirs[e].files, variantsOf, hdOnly);
        assert dirs'[e] == dirs[e];
      } else {
        assert dirs'[d] == snap;
      }
    }
  }

  /** Refreshing the file entry the walk built for a path gives the entry
      the walk builds from the path's current metadata: `rebuild_hd_flags`
      and a fresh walk agree. */
  lemma RefreshedWalkedFile(path: string, modified: Option<nat>, size: Option<nat>, disk: DiskView, md5Hex: string -> string)
    ensures Refreshed(WalkedFile(path, modified, size, disk.hdOf, md5Hex), disk)
            == WalkedFile(path, disk.stat(path).0, disk.stat(path).1, disk.hdOf, md5Hex)
  {
  }

  // ---------------------------------------------------------------------
  // The file entry the walk builds

  /** The entry `scan_directory` builds for a listed video file: the year
      from the file stem, the cleaned title, the owned key made from both,
      the HD verdict of `is_path_hd` (false when there is none) and the
      listed metadata. `hdOf` stands for `is_path_hd` and `md5Hex` for the
      digest `make_owned_key` uses. */
  function WalkedFile(path: string, modified: Option<nat>, size: Option<nat>, hdOf: string -> Option<bool>,
                      md5Hex: string -> string): (f: FileSnapshot)
    ensures f.path == path && f.modified == modified && f.size == size
    ensures f.hd <==> hdOf(path) == Some(true)
    ensures f.titleHint.Some?
  {
    var stem := match FileStem(path) case Some(s) => s case None => "";
    var year := ExtractedYear(stem);
    var title := CleanedTitle(stem, year);
    FileSnapshot(MakeOwnedKey(title, year, md5Hex), hdOf(path) == Some(true), modified, Some(title), path, size, year)
  }

  /** The scan's own environment: walked entries as `scan_directory`
      builds them and `owned_key_variants`. */
  function StandardEnv(hdOf: string -> Option<bool>, md5Hex: string -> string): (env: ScanEnv)
    ensures KeepsMetadata(env.fileOf)
  {
    var env := ScanEnv((p, m, sz) => WalkedFile(p, m, sz, hdOf, md5Hex), OwnedVariantsOf(md5Hex));
    assert forall p, m, sz :: env.fileOf(p, m, sz) == WalkedFile(p, m, sz, hdOf, md5Hex);
    env
  }

  /** A walked entry is owned under the key variants of its cleaned title
      with its year. */
  lemma WalkedFileKeys(path: string, modified: Option<nat>, size: Option<nat>, hdOf: string -> Option<bool>,
                       md5Hex: string -> string, variantsOf: VariantsOf)
    ensures EntryKeys(WalkedFile(path, modified, size, hdOf, md5Hex), variantsOf)
            == variantsOf(WalkedFile(path, modified, size, hdOf, md5Hex).titleHint.value,
                          if WalkedFile(path, modified, size, hdOf, md5Hex).yearHint.Some?
                          then WalkedFile(path, modified, size, hdOf, md5Hex).yearHint
                          else OwnedYearFromKey(WalkedFile(path, modified, size, hdOf, md5Hex).key))
  {
  }

  // ---------------------------------------------------------------------
  // The sidecar files

  /** `persist_owned_keys_sidecar` and `persist_owned_hd_sidecar`: each key
      of the set on a line of its own, in whatever order the set yields
      them. The file itself is not modelled; the text is returned. */
  method PersistSidecar(keys: set<string>) returns (text: string)
    ensures exists order: seq<string> :: (forall k :: k in order <==> k in keys) && text == Unlines(order)
    ensures (forall k :: k in keys ==> SidecarKey(k)) ==> SidecarSet(Some(text)) == Some(keys)
  {
    ghost var order: seq<string> := [];
    var rest := keys;
    text := [];
    while rest != {}
      invariant text == Unlines(order)
      invariant forall k :: k in keys <==> k in order || k in rest
      invariant forall k :: k in order ==> k !in rest
      decreases |rest|
    {
      var k :| k in rest;
      UnlinesSnoc(order, k);
      text := text + k + "\n";
      order := order + [k];
      rest := rest - {k};
    }
    if forall k :: k in keys ==> SidecarKey(k) {
      SidecarRoundTrip(keys, order);
    }
  }

  lemma {:induction false} UnlinesSnoc(ls: seq<string>, k: string)
    ensures Unlines(ls + [k]) == Unlines(ls) + k + "\n"
    decreases |ls|
  {
    if ls == [] {
      assert [k][1..] == [];
    } else {
      assert (ls + [k])[1..] == ls[1..] + [k];
      UnlinesSnoc(ls[1..], k);
    }
  }

  /** A key set written one key per line, in any order, reads back as
      the same set, when every key can stand on a line of its own. */
  lemma SidecarRoundTrip(keys: set<string>, order: seq<string>)
    requires forall k :: k in order <==> k in keys
    requires forall k :: k in keys ==> SidecarKey(k)
    ensures SidecarSet(Some(Unlines(order))) == Some(keys)
  {
    forall i | 0 <= i < |order|
      ensures SidecarKey(order[i]) && IsLine(order[i])
    {
      var k := order[i];
      assert k in keys;
      assert Trim(k) == k;
    }
    LinesUnlines(order);
    forall k
      ensures k in LineKeys(order) <==> k in keys
    {
      LineKeysOfKeys(order, k);
    }
    assert LineKeys(order) == keys;
    assert Lines(Unlines(order)) == order;
  }

  // ---------------------------------------------------------------------
  // spawn_scan

  const NO_ROOTS: string := "No library_roots in config.json; owned scan skipped."

  function MissingRoot(path: string): string
  {
    "Owned scan: missing root " + path
  }

  /** A configured library root: its path and, when it exists, the tree
      under it. */
  datatype LibraryRoot = LibraryRoot(path: string, tree: Option<FsNode>)

  /** What a scan leaves behind: the messages it sends, in order; the
      manifest it writes, if any; and the owned and HD key sets it writes to
      the sidecar files, if any. */
  datatype ScanOutcome = ScanOutcome(msgs: seq<OwnedMsg>, written: Option<ManifestData>, sidecars: Option<(set<string>, set<string>)>)

  /** The loop of `spawn_scan` over the roots: each existing root scanned
      in turn, each missing one reported. */
  function ScanRoots(roots: seq<LibraryRoot>, stored: map<string, DirSnapshot>, env: ScanEnv): (ScanState, seq<OwnedMsg>)
  {
    if roots == [] then (ScanState(map[], NO_OWNED), [])
    else
      var prev := ScanRoots(roots[..|roots| - 1], stored, env);
      var root := roots[|roots| - 1];
      match root.tree
      case None => (prev.0, prev.1 + [OwnedInfo(MissingRoot(root.path))])
      case Some(node) => (Scan(RescanSubdirs, node, stored, prev.0, env), prev.1)
  }

  /** `spawn_scan`: with no roots, a notice and an empty result; otherwise
      every root scanned against the loaded manifest, the new manifest
      saved when it differs from the loaded one, the sidecars written when
      the save happened, and the owned keys with their dates sent last.
      `writeOk` says whether writing the manifest succeeds. */
  function SpawnedScan(roots: seq<LibraryRoot>, read: ManifestRead, env: ScanEnv, writeOk: bool): ScanOutcome
  {
    if roots == [] then ScanOutcome([OwnedInfo(NO_ROOTS), OwnedDone({}, map[])], None, None)
    else
      var previous := Loaded(read);
      var scanned := ScanRoots(roots, previous.dirs, env);
      var current := ManifestData(OWNED_MANIFEST_VERSION, scanned.0.dirs);
      var saved := current != previous && writeOk;
      ScanOutcome(scanned.1 + [OwnedDone(scanned.0.sets.owned, scanned.0.sets.dates)],
                  if saved then Some(current) else None,
                  if saved then Some((scanned.0.sets.owned, scanned.0.sets.hdKeys)) else None)
  }

  function LastMsg(msgs: seq<OwnedMsg>): OwnedMsg
    requires msgs != []
  {
    msgs[|msgs| - 1]
  }

  /** The scanning thread of `spawn_scan`. */
  method SpawnScan(roots: seq<LibraryRoot>, read: ManifestRead, env: ScanEnv, writeOk: bool) returns (out: ScanOutcome)
    ensures out == SpawnedScan(roots, read, env, writeOk)
  {
    if |roots| == 0 {
      return ScanOutcome([OwnedInfo(NO_ROOTS), OwnedDone({}, map[])], None, None);
    }
    var manifest := OwnedManifest.Load(read);
    var newManifest := new OwnedManifest.Default();
    var sets := NO_OWNED;
    var msgs: seq<OwnedMsg> := [];
    var i := 0;
    while i < |roots|
      invariant 0 <= i <= |roots|
      invariant manifest.Data() == Loaded(read) && newManifest.version == OWNED_MANIFEST_VERSION
      invariant (ScanState(newManifest.dirs, sets), msgs) == ScanRoots(roots[..i], manifest.dirs, env)
    {
      assert roots[..i + 1][..i] == roots[..i];
      var root := roots[i];
      if root.tree.None? {
        msgs := msgs + [OwnedInfo(MissingRoot(root.path))];
      } else {
        sets := ScanDirectory(root.tree.value, manifest.dirs, newManifest, sets, env);
      }
      i := i + 1;
    }
    assert roots[..i] == roots;
    var saved, written := newManifest.SaveIfChanged(manifest.Data(), writeOk);
    var changed := saved.Ok? && saved.value;
    out := ScanOutcome(msgs + [OwnedDone(sets.owned, sets.dates)], written,
                       if changed then Some((sets.owned, sets.hdKeys)) else None);
  }

  lemma {:induction false} ScanRootsConsistent(roots: seq<LibraryRoot>, stored: map<string, DirSnapshot>, env: ScanEnv)
    ensures Consistent(ScanRoots(roots, stored, env).0.sets)
    ensures forall m :: m in ScanRoots(roots, stored, env).1 ==> m.OwnedInfo?
  {
    if roots != [] {
      var prev := ScanRoots(roots[..|roots| - 1], stored, env);
      ScanRootsConsistent(roots[..|roots| - 1], stored, env);
      if roots[|roots| - 1].tree.Some? {
        ScanConsistent(RescanSubdirs, roots[|roots| - 1].tree.value, stored, prev.0, env);
      }
    }
  }

  /** Every message but the last is a notice; the last reports the owned
      keys, exactly the dated ones; the sidecars are written exactly when
      the manifest is, and hold the reported keys and a subset of them
      owned in HD. */
  lemma SpawnedScanReports(roots: seq<LibraryRoot>, read: ManifestRead, env: ScanEnv, writeOk: bool)
    ensures SpawnedScan(roots, read, env, writeOk).msgs != []
    ensures forall i :: 0 <= i < |SpawnedScan(roots, read, env, writeOk).msgs| - 1 ==> SpawnedScan(roots, read, env, writeOk).msgs[i].OwnedInfo?
    ensures LastMsg(SpawnedScan(roots, read, env, writeOk).msgs).OwnedDone?
    ensures LastMsg(SpawnedScan(roots, read, env, writeOk).msgs).keys == LastMsg(SpawnedScan(roots, read, env, writeOk).msgs).modified.Keys
    ensures SpawnedScan(roots, read, env, writeOk).sidecars.Some? <==> SpawnedScan(roots, read, env, writeOk).written.Some?
    ensures SpawnedScan(roots, read, env, writeOk).sidecars.Some? ==>
              SpawnedScan(roots, read, env, writeOk).sidecars.value.0 == LastMsg(SpawnedScan(roots, read, env, writeOk).msgs).keys
              && SpawnedScan(roots, read, env, writeOk).sidecars.value.1 <= SpawnedScan(roots, read, env, writeOk).sidecars.value.0
  {
    if roots != [] {
      ScanRootsConsistent(roots, Loaded(read).dirs, env);
    }
  }

  /** Without a manifest write the scan writes nothing else either; a
      written manifest is at the current version. */
  lemma SpawnedScanWrites(roots: seq<LibraryRoot>, read: ManifestRead, env: ScanEnv, writeOk: bool)
    ensures !writeOk ==> SpawnedScan(roots, read, env, writeOk).written == None
    ensures SpawnedScan(roots, read, env, writeOk).written.Some? ==>
              SpawnedScan(roots, read, env, writeOk).written.value.version == OWNED_MANIFEST_VERSION
              && SpawnedScan(roots, read, env, writeOk).written.value != Loaded(read)
  {
  }

  /** The keys a full walk finds under the existing roots. */
  function RootsKeys(roots: seq<LibraryRoot>, env: ScanEnv, hdOnly: bool): set<string>
  {
    if roots == [] then {}
    else
      var root := roots[|roots| - 1];
      RootsKeys(roots[..|roots| - 1], env, hdOnly) + (if root.tree.Some? then TreeKeys(root.tree.value, env, hdOnly) else {})
  }

  lemma {:induction false} ScanRootsKeys(roots: seq<LibraryRoot>, stored: map<string, DirSnapshot>, env: ScanEnv, hdOnly: bool)
    requires Faithful(stored, env.fileOf)
    requires forall i :: 0 <= i < |roots| && roots[i].tree.Some? ==> WellListed(roots[i].tree.value)
    ensures Keys(ScanRoots(roots, stored, env).0, hdOnly) == RootsKeys(roots, env, hdOnly)
  {
    if roots != [] {
      var roots' := roots[..|roots| - 1];
      assert forall i :: 0 <= i < |roots'| ==> roots'[i] == roots[i];
      ScanRootsKeys(roots', stored, env, hdOnly);
      if roots[|roots| - 1].tree.Some? {
        ScanKeys(roots[|roots| - 1].tree.value, stored, ScanRoots(roots', stored, env).0, env, hdOnly);
      }
    }
  }

  /** With a manifest the scan itself wrote, the reported owned keys and
      the HD sidecar are those of every video file under the existing
      roots, as a scan with no manifest finds them. */
  lemma SpawnedScanKeys(roots: seq<LibraryRoot>, read: ManifestRead, env: ScanEnv, writeOk: bool)
    requires roots != [] && Faithful(Loaded(read).dirs, env.fileOf)
    requires forall i :: 0 <= i < |roots| && roots[i].tree.Some? ==> WellListed(roots[i].tree.value)
    ensures LastMsg(SpawnedScan(roots, read, env, writeOk).msgs) == OwnedDone(RootsKeys(roots, env, false), ScanRoots(roots, Loaded(read).dirs, env).0.sets.dates)
    ensures SpawnedScan(roots, read, env, writeOk).sidecars.Some? ==>
              SpawnedScan(roots, read, env, writeOk).sidecars.value == (RootsKeys(roots, env, false), RootsKeys(roots, env, true))
  {
    ScanRootsKeys(roots, Loaded(read).dirs, env, false);
    ScanRootsKeys(roots, Loaded(read).dirs, env, true);
  }
}
