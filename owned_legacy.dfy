/** The version-1 owned manifest (`src/app/owned.rs`): the older copy of
    the filesystem scan. Its file entries carry no year hint, and it owns a
    file under its stored key and the year-less key of its title hint
    instead of the key variants. Title cleaning, year extraction, the video
    test and snapshot matching are the same as in the current scan and are
    shared with `OwnedScanFs` and `OwnedNames`. */
module OwnedLegacy {
  import opened Text
  import opened Types
  import opened App
  import opened Owned
  import Fs = OwnedScanFs

  // ---------------------------------------------------------------------
  // The manifest

  const LEGACY_MANIFEST_VERSION: nat := 1

  /** One video file as the version-1 manifest remembers it. */
  datatype FileSnapshot = FileSnapshot(
    key: string,
    hd: bool,
    modified: Option<nat>,
    titleHint: Option<string>,
    path: string,
    size: Option<nat>)

  datatype DirSnapshot = DirSnapshot(mtime: Option<nat>, files: seq<FileSnapshot>, subdirs: seq<string>)

  datatype ManifestData = ManifestData(version: nat, dirs: map<string, DirSnapshot>)

  /** A file entry written before paths and sizes were recorded. */
  predicate StaleFile(f: FileSnapshot) { IsBlank(f.path) || f.size.None? }

  predicate HasStaleFile(files: seq<FileSnapshot>)
  {
    exists i :: 0 <= i < |files| && StaleFile(files[i])
  }

  /** What `needs_upgrade` detects: a version below 1, or a file entry
      without a path or a size anywhere in the manifest. */
  predicate Outdated(m: ManifestData)
  {
    m.version < LEGACY_MANIFEST_VERSION || exists d :: d in m.dirs && HasStaleFile(m.dirs[d].files)
  }

  class OwnedManifest {
    var version: nat
    var dirs: map<string, DirSnapshot>

    function Data(): ManifestData
      reads this
    {
      ManifestData(version, dirs)
    }

    /** `OwnedManifest::default()`. */
    constructor Default()
      ensures Data() == ManifestData(LEGACY_MANIFEST_VERSION, map[])
    {
      version := LEGACY_MANIFEST_VERSION;
      dirs := map[];
    }

    /** `needs_upgrade`, visiting the directories in any order. */
    method NeedsUpgrade() returns (b: bool)
      ensures b <==> version < LEGACY_MANIFEST_VERSION
                     || exists d, i :: d in dirs && 0 <= i < |dirs[d].files| && StaleFile(dirs[d].files[i])
      ensures b == Outdated(Data())
    {
      if version < LEGACY_MANIFEST_VERSION {
        return true;
      }
      var todo := dirs.Keys;
      while todo != {}
        invariant todo <= dirs.Keys
        invariant forall d :: d in dirs && d !in todo ==> !HasStaleFile(dirs[d].files)
        decreases |todo|
      {
        var d :| d in todo;
        var stale := AnyStaleFile(dirs[d].files);
        if stale {
          return true;
        }
        todo := todo - {d};
      }
      return false;
    }

    /** `get`: the snapshot stored for a directory. */
    function Get(dir: string): (r: Option<DirSnapshot>)
      reads this
      ensures r.Some? <==> dir in dirs
      ensures r.Some? ==> r.value == dirs[dir]
    {
      if dir in dirs then Some(dirs[dir]) else None
    }

    /** `insert_snapshot`: records or replaces one directory's snapshot. */
    method InsertSnapshot(dir: string, snapshot: DirSnapshot)
      modifies this
      ensures dirs == old(dirs)[dir := snapshot] && version == old(version)
    {
      dirs := dirs[dir := snapshot];
    }
  }

  /** The inner loop of `needs_upgrade` over one directory's files. */
  method AnyStaleFile(files: seq<FileSnapshot>) returns (b: bool)
    ensures b == HasStaleFile(files)
  {
    var i := 0;
    while i < |files|
      invariant 0 <= i <= |files|
      invariant forall k :: 0 <= k < i ==> !StaleFile(files[k])
    {
      if IsBlank(files[i].path) || files[i].size.None? {
        return true;
      }
      i := i + 1;
    }
    return false;
  }

  // ---------------------------------------------------------------------
  // accumulate_owned_entry

  /** The year-less key of a title, `make_owned_key(title, None)`. */
  function YearlessKey(title: string, md5Hex: string -> string): string
  {
    MakeOwnedKey(title, None, md5Hex)
  }

  /** The keys `accumulate_owned_entry` inserts, in order: the stored key,
      then the year-less key of the title hint when there is a hint and its
      key differs. */
  function EntryKeys(f: FileSnapshot, md5Hex: string -> string): (ks: seq<string>)
    ensures |ks| >= 1 && ks[0] == f.key
    ensures |ks| == 2 <==> f.titleHint.Some? && YearlessKey(f.titleHint.value, md5Hex) != f.key
    ensures |ks| <= 2 && (|ks| == 2 ==> ks[1] == YearlessKey(f.titleHint.value, md5Hex))
    ensures forall k :: k in ks <==> k == f.key || (f.titleHint.Some? && k == YearlessKey(f.titleHint.value, md5Hex))
  {
    if f.titleHint.Some? && YearlessKey(f.titleHint.value, md5Hex) != f.key
    then [f.key, YearlessKey(f.titleHint.value, md5Hex)]
    else [f.key]
  }

  function Accumulated(s: Fs.OwnedSets, f: FileSnapshot, md5Hex: string -> string): Fs.OwnedSets
  {
    Fs.InsertKeys(s, EntryKeys(f, md5Hex), f.hd, f.modified)
  }

  /** The keys a file entry is owned under: its stored key and the
      year-less key of its title hint. */
  function OwnedUnder(f: FileSnapshot, md5Hex: string -> string): set<string>
  {
    {f.key} + (if f.titleHint.Some? then {YearlessKey(f.titleHint.value, md5Hex)} else {})
  }

  /** `accumulate_owned_entry` as the source writes it: the stored key,
      then the year-less key of the title hint when it differs. */
  method AccumulateOwnedEntry(file: FileSnapshot, sets0: Fs.OwnedSets, md5Hex: string -> string) returns (sets: Fs.OwnedSets)
    ensures sets == Accumulated(sets0, file, md5Hex)
  {
    ghost var ks := EntryKeys(file, md5Hex);
    var owned := sets0.owned + {file.key};
    var hdKeys := if file.hd then sets0.hdKeys + {file.key} else sets0.hdKeys;
    var dates := sets0.dates[file.key := file.modified];
    assert ks[..1][..0] == [];
    assert Fs.OwnedSets(owned, hdKeys, dates) == Fs.InsertKeys(sets0, ks[..1], file.hd, file.modified);
    if file.titleHint.Some? {
      var alt := YearlessKey(file.titleHint.value, md5Hex);
      if alt != file.key {
        owned := owned + {alt};
        if file.hd {
          hdKeys := hdKeys + {alt};
        }
        dates := dates[alt := file.modified];
        assert ks == ks[..1] + [alt];
      }
    }
    sets := Fs.OwnedSets(owned, hdKeys, dates);
  }

  /** What one file entry does: the stored key is always owned, the
      year-less key of the title hint too; an HD file adds them to the HD
      keys; both are dated with the file's modification time; nothing else
      changes, and consistent sets stay consistent. */
  lemma AccumulatedEffect(sets0: Fs.OwnedSets, file: FileSnapshot, md5Hex: string -> string)
    ensures var sets := Accumulated(sets0, file, md5Hex);
            && sets.owned == sets0.owned + OwnedUnder(file, md5Hex)
            && sets.hdKeys == (if file.hd then sets0.hdKeys + OwnedUnder(file, md5Hex) else sets0.hdKeys)
            && sets.dates.Keys == sets0.dates.Keys + OwnedUnder(file, md5Hex)
            && (forall k :: k in OwnedUnder(file, md5Hex) ==> sets.dates[k] == file.modified)
            && (forall k :: k in sets0.dates && k !in OwnedUnder(file, md5Hex) ==> sets.dates[k] == sets0.dates[k])
            && (Fs.Consistent(sets0) ==> Fs.Consistent(sets))
  {
    var ks := EntryKeys(file, md5Hex);
    Fs.InsertKeysEffect(sets0, ks, file.hd, file.modified);
    assert Fs.KeySet(ks) == OwnedUnder(file, md5Hex);
  }

  /** Accumulating a sequence of file entries in order. */
  function AccumulateFiles(s: Fs.OwnedSets, fs: seq<FileSnapshot>, md5Hex: string -> string): Fs.OwnedSets
  {
    if fs == [] then s else Accumulated(AccumulateFiles(s, fs[..|fs| - 1], md5Hex), fs[|fs| - 1], md5Hex)
  }

  /** Accumulating file entries keeps what was owned, owns every stored
      key, adds every HD file's stored key to the HD keys, and keeps the
      sets consistent. */
  lemma AccumulateFilesEffect(s: Fs.OwnedSets, fs: seq<FileSnapshot>, md5Hex: string -> string)
    ensures s.owned <= AccumulateFiles(s, fs, md5Hex).owned && s.hdKeys <= AccumulateFiles(s, fs, md5Hex).hdKeys
    ensures forall f :: f in fs ==> f.key in AccumulateFiles(s, fs, md5Hex).owned
    ensures forall f :: f in fs && f.hd ==> f.key in AccumulateFiles(s, fs, md5Hex).hdKeys
    ensures Fs.Consistent(s) ==> Fs.Consistent(AccumulateFiles(s, fs, md5Hex))
  {
    AccumulateFilesGrows(s, fs, md5Hex);
    AccumulateFilesOwns(s, fs, md5Hex);
  }

  lemma {:induction false} AccumulateFilesGrows(s: Fs.OwnedSets, fs: seq<FileSnapshot>, md5Hex: string -> string)
    ensures s.owned <= AccumulateFiles(s, fs, md5Hex).owned && s.hdKeys <= AccumulateFiles(s, fs, md5Hex).hdKeys
    ensures Fs.Consistent(s) ==> Fs.Consistent(AccumulateFiles(s, fs, md5Hex))
  {
    if fs != [] {
      var fs' := fs[..|fs| - 1];
      AccumulateFilesGrows(s, fs', md5Hex);
      AccumulatedGrows(AccumulateFiles(s, fs', md5Hex), fs[|fs| - 1], md5Hex);
    }
  }

  lemma {:induction false} AccumulateFilesOwns(s: Fs.OwnedSets, fs: seq<FileSnapshot>, md5Hex: string -> string)
    ensures forall f :: f in fs ==> f.key in AccumulateFiles(s, fs, md5Hex).owned
    ensures forall f :: f in fs && f.hd ==> f.key in AccumulateFiles(s, fs, md5Hex).hdKeys
  {
    if fs != [] {
      var fs' := fs[..|fs| - 1];
      var f := fs[|fs| - 1];
      AccumulateFilesOwns(s, fs', md5Hex);
      var s' := AccumulateFiles(s, fs', md5Hex);
      var r := AccumulateFiles(s, fs, md5Hex);
      assert r == Accumulated(s', f, md5Hex);
      AccumulatedGrows(s', f, md5Hex);
      assert fs == fs' + [f];
      forall g | g in fs ensures g.key in r.owned && (g.hd ==> g.key in r.hdKeys) {
        if g != f {
          assert g in fs';
        }
      }
    }
  }

  /** One file entry keeps what was owned, owns its stored key, adds it to
      the HD keys when the file is HD, and keeps the sets consistent. */
  lemma AccumulatedGrows(s: Fs.OwnedSets, f: FileSnapshot, md5Hex: string -> string)
    ensures var r := Accumulated(s, f, md5Hex);
            && s.owned <= r.owned && s.hdKeys <= r.hdKeys
            && f.key in r.owned && (f.hd ==> f.key in r.hdKeys)
            && (Fs.Consistent(s) ==> Fs.Consistent(r))
  {
    Fs.InsertKeysEffect(s, EntryKeys(f, md5Hex), f.hd, f.modified);
  }

  /** Accumulates each file entry in turn. */
  method AccumulateAll(files: seq<FileSnapshot>, sets0: Fs.OwnedSets, md5Hex: string -> string) returns (sets: Fs.OwnedSets)
    ensures sets == AccumulateFiles(sets0, files, md5Hex)
  {
    sets := sets0;
    var i := 0;
    while i < |files|
      invariant 0 <= i <= |files|
      invariant sets == AccumulateFiles(sets0, files[..i], md5Hex)
    {
      assert files[..i + 1][..i] == files[..i];
      sets := AccumulateOwnedEntry(files[i], sets, md5Hex);
      i := i + 1;
    }
    assert files[..i] == files;
  }

  // ---------------------------------------------------------------------
  // reuse_directory

  datatype ScanState = ScanState(dirs: map<string, DirSnapshot>, sets: Fs.OwnedSets)

  /** `reuse_directory`: copies the stored snapshot of `dir` into the new
      manifest and accumulates its files, then does the same for each stored
      subdirectory in turn. `fuel` bounds the depth of stored subdirectories
      followed. */
  function Reuse(dir: string, stored: map<string, DirSnapshot>, st: ScanState, md5Hex: string -> string, fuel: nat): ScanState
    decreases fuel, 0, 0
  {
    if fuel == 0 || dir !in stored then st
    else
      var snap := stored[dir];
      var st1 := ScanState(st.dirs[dir := snap], AccumulateFiles(st.sets, snap.files, md5Hex));
      ReuseSubdirs(snap.subdirs, 0, stored, st1, md5Hex, fuel - 1)
  }

  function ReuseSubdirs(subs: seq<string>, i: nat, stored: map<string, DirSnapshot>, st: ScanState,
                        md5Hex: string -> string, fuel: nat): ScanState
    requires i <= |subs|
    decreases fuel, 1, |subs| - i
  {
    if i == |subs| then st
    else ReuseSubdirs(subs, i + 1, stored, Reuse(subs[i], stored, st, md5Hex, fuel), md5Hex, fuel)
  }

  /** `reuse_directory` as written. */
  method ReuseDirectory(dir: string, stored: map<string, DirSnapshot>, newManifest: OwnedManifest, sets0: Fs.OwnedSets,
                        md5Hex: string -> string, fuel: nat) returns (sets: Fs.OwnedSets)
    modifies newManifest
    ensures ScanState(newManifest.dirs, sets) == Reuse(dir, stored, ScanState(old(newManifest.dirs), sets0), md5Hex, fuel)
    ensures newManifest.version == old(newManifest.version)
    decreases fuel
  {
    if fuel == 0 || dir !in stored {
      return sets0;
    }
    ghost var target := Reuse(dir, stored, ScanState(newManifest.dirs, sets0), md5Hex, fuel);
    var snapshot := stored[dir];
    sets := AccumulateAll(snapshot.files, sets0, md5Hex);
    newManifest.InsertSnapshot(dir, snapshot);
    var i := 0;
    while i < |snapshot.subdirs|
      invariant 0 <= i <= |snapshot.subdirs|
      invariant ReuseSubdirs(snapshot.subdirs, i, stored, ScanState(newManifest.dirs, sets), md5Hex, fuel - 1) == target
      invariant newManifest.version == old(newManifest.version)
    {
      sets := ReuseDirectory(snapshot.subdirs[i], stored, newManifest, sets, md5Hex, fuel - 1);
      i := i + 1;
    }
  }

  /** What a reuse keeps: earlier owned and HD keys stay, every directory
      it records holds its stored snapshot verbatim, every directory
      recorded before stays recorded, and consistent sets stay
      consistent. */
  ghost predicate Keeps(stored: map<string, DirSnapshot>, st: ScanState, after: ScanState)
  {
    && st.sets.owned <= after.sets.owned && st.sets.hdKeys <= after.sets.hdKeys
    && st.dirs.Keys <= after.dirs.Keys
    && (forall d :: d in after.dirs ==> (d in stored && after.dirs[d] == stored[d]) || (d in st.dirs && after.dirs[d] == st.dirs[d]))
    && (Fs.Consistent(st.sets) ==> Fs.Consistent(after.sets))
  }

  lemma KeepsTrans(stored: map<string, DirSnapshot>, a: ScanState, b: ScanState, c: ScanState)
    requires Keeps(stored, a, b) && Keeps(stored, b, c)
    ensures Keeps(stored, a, c)
  {
  }

  lemma {:induction false} ReuseKeeps(dir: string, stored: map<string, DirSnapshot>, st: ScanState, md5Hex: string -> string, fuel: nat)
    ensures Keeps(stored, st, Reuse(dir, stored, st, md5Hex, fuel))
    ensures fuel > 0 && dir in stored ==>
              dir in Reuse(dir, stored, st, md5Hex, fuel).dirs
              && forall f :: f in stored[dir].files ==> f.key in Reuse(dir, stored, st, md5Hex, fuel).sets.owned
    decreases fuel, 0, 0
  {
    if fuel > 0 && dir in stored {
      var snap := stored[dir];
      AccumulateFilesEffect(st.sets, snap.files, md5Hex);
      var st1 := ScanState(st.dirs[dir := snap], AccumulateFiles(st.sets, snap.files, md5Hex));
      assert Keeps(stored, st, st1);
      ReuseSubdirsKeeps(snap.subdirs, 0, stored, st1, md5Hex, fuel - 1);
      KeepsTrans(stored, st, st1, Reuse(dir, stored, st, md5Hex, fuel));
    }
  }

  lemma {:induction false} ReuseSubdirsKeeps(subs: seq<string>, i: nat, stored: map<string, DirSnapshot>, st: ScanState,
                                            md5Hex: string -> string, fuel: nat)
    requires i <= |subs|
    ensures Keeps(stored, st, ReuseSubdirs(subs, i, stored, st, md5Hex, fuel))
    decreases fuel, 1, |subs| - i
  {
    if i < |subs| {
      var st1 := Reuse(subs[i], stored, st, md5Hex, fuel);
      ReuseKeeps(subs[i], stored, st, md5Hex, fuel);
      ReuseSubdirsKeeps(subs, i + 1, stored, st1, md5Hex, fuel);
      KeepsTrans(stored, st, st1, ReuseSubdirs(subs, i, stored, st, md5Hex, fuel));
    }
  }

  // ---------------------------------------------------------------------
  // snapshot_matches

  /** A version-1 entry read as a current one: the same fields and no year
      hint. */
  function AsCurrent(f: FileSnapshot): (g: Fs.FileSnapshot)
    ensures g.path == f.path && g.modified == f.modified && g.size == f.size
  {
    Fs.FileSnapshot(f.key, f.hd, f.modified, f.titleHint, f.path, f.size, None)
  }

  function AsCurrentDir(d: DirSnapshot): (c: Fs.DirSnapshot)
    ensures c.mtime == d.mtime && c.subdirs == d.subdirs && |c.files| == |d.files|
    ensures forall i :: 0 <= i < |d.files| ==> c.files[i] == AsCurrent(d.files[i])
  {
    Fs.DirSnapshot(d.mtime, seq(|d.files|, i requires 0 <= i < |d.files| => AsCurrent(d.files[i])), d.subdirs)
  }

  /** `snapshot_matches` of the version-1 code, which is the current one
      letter for letter: the stored subdirectories are distinct and are
      exactly the listed ones, and the stored files have distinct paths,
      are exactly the listed video files, and each has the listed
      modification time and size. */
  method SnapshotMatches(snapshot: DirSnapshot, entries: seq<Fs.DirEntryInfo>) returns (b: bool)
    ensures b <==> Distinct(snapshot.subdirs) && Fs.KeySet(snapshot.subdirs) == Fs.ListedDirs(entries)
                   && Fs.FilesMatch(AsCurrentDir(snapshot).files, Fs.ListedFiles(entries))
  {
    b := Fs.SnapshotMatches(AsCurrentDir(snapshot), entries);
  }

  /** Matching reads only the paths, times and sizes of the stored files:
      two snapshots that agree on those match the same listings. */
  lemma MatchReadsOnlyStats(a: DirSnapshot, b: DirSnapshot, es: seq<Fs.DirEntryInfo>)
    requires a.subdirs == b.subdirs && |a.files| == |b.files|
    requires forall i :: 0 <= i < |a.files| ==>
               a.files[i].path == b.files[i].path && a.files[i].modified == b.files[i].modified
               && a.files[i].size == b.files[i].size
    ensures Fs.SnapshotMatchesSpec(AsCurrentDir(a), es) <==> Fs.SnapshotMatchesSpec(AsCurrentDir(b), es)
  {
    var fa := AsCurrentDir(a).files;
    var fb := AsCurrentDir(b).files;
    var actual := Fs.ListedFiles(es);
    assert SameStats(fa, fb);
    if Fs.FilesMatch(fa, actual) {
      SameStatsMatch(fa, fb, actual);
    }
    if Fs.FilesMatch(fb, actual) {
      SameStatsMatch(fb, fa, actual);
    }
  }

  /** Two file lists that agree, entry by entry, on path, time and size. */
  ghost predicate SameStats(fa: seq<Fs.FileSnapshot>, fb: seq<Fs.FileSnapshot>)
  {
    |fa| == |fb| && forall i :: 0 <= i < |fa| ==>
      fa[i].path == fb[i].path && fa[i].modified == fb[i].modified && fa[i].size == fb[i].size
  }

  lemma SameStatsMatch(fa: seq<Fs.FileSnapshot>, fb: seq<Fs.FileSnapshot>, actual: map<string, (Option<nat>, Option<nat>)>)
    requires SameStats(fa, fb) && Fs.FilesMatch(fa, actual)
    ensures Fs.FilesMatch(fb, actual)
  {
    assert Fs.FilePaths(fa) == Fs.FilePaths(fb);
    forall f | f in fb ensures f.path in actual && actual[f.path] == (f.modified, f.size) {
      var i :| 0 <= i < |fb| && fb[i] == f;
      assert fa[i] in fa;
    }
  }

  // ---------------------------------------------------------------------
  // apply_owned_flags

  /** The date recorded for a key, when there is a date map and the key is
      dated. */
  function DateOf(modified: Option<map<string, Option<nat>>>, key: string): Option<nat>
  {
    if modified.Some? && key in modified.value then modified.value[key] else None
  }

  /** One row flagged by the version-1 `apply_owned_flags`: owned exactly
      when its own key is in the set. */
  function FlagExact(row: PosterRow, keys: set<string>, modified: Option<map<string, Option<nat>>>): PosterRow
  {
    row.(owned := row.ownedKey in keys, ownedModified := DateOf(modified, row.ownedKey))
  }

  function ExactFlagged(rows: seq<PosterRow>, keys: set<string>, modified: Option<map<string, Option<nat>>>): (r: seq<PosterRow>)
    ensures |r| == |rows|
  {
    seq(|rows|, i requires 0 <= i < |rows| => FlagExact(rows[i], keys, modified))
  }

  /** The row loop of the version-1 `apply_owned_flags`: each row is owned
      exactly when its own key is in the set and is dated from the map
      under that key; every other field, the row count and the order are
      kept. */
  method FlagRowsExact(rows: seq<PosterRow>, keys: set<string>, modified: Option<map<string, Option<nat>>>)
    returns (rs: seq<PosterRow>)
    ensures |rs| == |rows|
    ensures forall i :: 0 <= i < |rows| ==>
              (rs[i].owned <==> rows[i].ownedKey in keys)
              && rs[i].ownedModified == DateOf(modified, rows[i].ownedKey)
              && rs[i] == rows[i].(owned := rs[i].owned, ownedModified := rs[i].ownedModified)
    ensures rs == ExactFlagged(rows, keys, modified)
  {
    rs := [];
    var i := 0;
    while i < |rows|
      invariant 0 <= i <= |rows|
      invariant rs == ExactFlagged(rows[..i], keys, modified)
    {
      var row := rows[i];
      var key := row.ownedKey;
      var dated := if modified.Some? && key in modified.value then modified.value[key] else None;
      rs := rs + [row.(owned := key in keys, ownedModified := dated)];
      i := i + 1;
    }
    assert rows[..i] == rows;
  }

  /** Flagging twice against the same keys is flagging once. */
  lemma ExactFlaggedIdempotent(rows: seq<PosterRow>, keys: set<string>, modified: Option<map<string, Option<nat>>>)
    ensures ExactFlagged(ExactFlagged(rows, keys, modified), keys, modified) == ExactFlagged(rows, keys, modified)
  {
    var once := ExactFlagged(rows, keys, modified);
    forall i | 0 <= i < |rows|
      ensures ExactFlagged(once, keys, modified)[i] == once[i]
    {
      assert once[i].ownedKey == rows[i].ownedKey;
    }
  }

  /** The version-1 `apply_owned_flags`: nothing without a key set;
      otherwise every row is flagged against it by its own key. */
  method ApplyOwnedFlags(app: PexApp)
    modifies app`rows
    ensures app.ownedKeys.None? ==> app.rows == old(app.rows)
    ensures app.ownedKeys.Some? ==> app.rows == ExactFlagged(old(app.rows), app.ownedKeys.value, app.ownedModified)
    ensures app.ownedKeys == old(app.ownedKeys) && app.ownedModified == old(app.ownedModified)
    ensures app.ownedHdKeys == old(app.ownedHdKeys) && app.ownedScanInProgress == old(app.ownedScanInProgress)
  {
    if app.ownedKeys.None? {
      return;
    }
    var rs := FlagRowsExact(app.rows, app.ownedKeys.value, app.ownedModified);
    app.rows := rs;
  }
}
