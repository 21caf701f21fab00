/** The Plex-library source of owned titles (`owned_scan_plex.rs`): the
    rows of the library database's movie query are reduced to one entry per
    film, and every entry is owned under the key variants of its title and
    original title. The database, its query and the clock are inputs. */
module OwnedScanPlex {
  import opened Text
  import opened Types
  import opened Owned
  import opened Paths
  import Fs = OwnedScanFs

  // ---------------------------------------------------------------------
  // Rows and entries

  /** One row of the movie query: a film, one of its media items and one
      of that item's parts. */
  datatype PlexRow = PlexRow(
    metadataId: int,
    guid: Option<string>,
    title: string,
    originalTitle: Option<string>,
    year: Option<int>,
    width: Option<int>,
    height: Option<int>,
    partUpdatedAt: Option<int>,
    mediaUpdatedAt: Option<int>,
    metaUpdatedAt: Option<int>,
    metaAddedAt: Option<int>,
    file: string,
    size: Option<int>)

  /** `PlexOwnedEntry`. */
  datatype PlexOwnedEntry = PlexOwnedEntry(
    metadataId: int,
    guid: Option<string>,
    title: string,
    originalTitle: Option<string>,
    year: Option<int>,
    width: Option<nat>,
    height: Option<nat>,
    updatedAt: Option<nat>)

  const U32_MODULUS: nat := 0x1_0000_0000

  /** `v.max(0) as u32`: a negative value becomes 0 and a larger one keeps
      its low 32 bits. */
  function ClampU32(v: int): (r: nat)
    ensures r < U32_MODULUS
    ensures v <= 0 ==> r == 0
    ensures 0 <= v < U32_MODULUS ==> r == v
    ensures r % U32_MODULUS == (if v < 0 then 0 else v) % U32_MODULUS
  {
    if v < 0 then 0 else v % U32_MODULUS
  }

  /** `ts.max(0) as u64`: every value that is not negative fits. */
  function ClampU64(v: int): nat
  {
    if v < 0 then 0 else v
  }

  /** `Option::or`. */
  function Or<T>(a: Option<T>, b: Option<T>): Option<T>
  {
    if a.Some? then a else b
  }

  /** The entry's date: the first present of the part's, the media item's
      and the film's update time and the film's added time, with a negative
      time read as 0; none when all four are missing. */
  function UpdatedAt(row: PlexRow): (r: Option<nat>)
    ensures r.None? <==> row.partUpdatedAt.None? && row.mediaUpdatedAt.None? && row.metaUpdatedAt.None? && row.metaAddedAt.None?
    ensures row.partUpdatedAt.Some? ==> r == Some(ClampU64(row.partUpdatedAt.value))
    ensures row.partUpdatedAt.None? && row.mediaUpdatedAt.Some? ==> r == Some(ClampU64(row.mediaUpdatedAt.value))
    ensures row.partUpdatedAt.None? && row.mediaUpdatedAt.None? && row.metaUpdatedAt.Some?
            ==> r == Some(ClampU64(row.metaUpdatedAt.value))
    ensures row.partUpdatedAt.None? && row.mediaUpdatedAt.None? && row.metaUpdatedAt.None? && row.metaAddedAt.Some?
            ==> r == Some(ClampU64(row.metaAddedAt.value))
  {
    var ts := Or(Or(Or(row.partUpdatedAt, row.mediaUpdatedAt), row.metaUpdatedAt), row.metaAddedAt);
    if ts.Some? then Some(ClampU64(ts.value)) else None
  }

  function ClampDim(v: Option<int>): Option<nat>
  {
    if v.Some? then Some(ClampU32(v.value)) else None
  }

  /** The entry a kept row becomes. */
  function Entry(row: PlexRow): PlexOwnedEntry
  {
    PlexOwnedEntry(row.metadataId, row.guid, row.title, row.originalTitle, row.year,
                   ClampDim(row.width), ClampDim(row.height), UpdatedAt(row))
  }

  /** `is_hd`: at least 1280 pixels wide or at least 720 high; a missing
      dimension counts as not reaching its bound. */
  predicate IsHd(width: Option<nat>, height: Option<nat>)
  {
    (if width.Some? then width.value >= 1280 else false) || (if height.Some? then height.value >= 720 else false)
  }

  // ---------------------------------------------------------------------
  // Library roots

  /** The configured roots that are not empty, in order. */
  function NormalizedRoots(roots: seq<string>): (r: seq<string>)
    ensures forall p :: p in r <==> p in roots && p != []
    ensures |r| <= |roots|
  {
    if roots == [] then []
    else
      var rest := NormalizedRoots(roots[..|roots| - 1]);
      assert roots == roots[..|roots| - 1] + [roots[|roots| - 1]];
      if roots[|roots| - 1] == [] then rest else rest + [roots[|roots| - 1]]
  }

  /** `path_matches_any_root`: some root's components begin the path's. */
  predicate PathMatchesAnyRoot(path: string, roots: seq<string>)
  {
    exists k :: 0 <= k < |roots| && PathStartsWith(path, roots[k])
  }

  // ---------------------------------------------------------------------
  // collect_plex_owned_entries

  /** What reading one row gave. */
  datatype RowRead = RowOk(row: PlexRow) | RowFailed(err: string)

  /** What preparing and running the query gave. */
  datatype Query = PrepareFailed(err: string) | IterateFailed(err: string) | Rows(rowsRead: seq<RowRead>)

  function PrepareError(err: string): string { "Failed to prepare Plex library query: " + err }
  function IterateError(err: string): string { "Failed to iterate Plex library rows: " + err }
  function RowError(err: string): string { "Failed to read Plex library row: " + err }

  /** The loop's state: the film ids seen, the entries kept and whether a
      kept row's file lies under a root. */
  datatype Collecting = Collecting(seen: set<int>, results: seq<PlexOwnedEntry>, anyRootMatch: bool)

  /** One row of the loop: a film seen before is skipped; a film seen for
      the first time is marked seen and, unless its title is blank, kept. */
  function Step(c: Collecting, row: PlexRow, norm: seq<string>): Collecting
  {
    if row.metadataId in c.seen then c
    else if IsBlank(row.title) then c.(seen := c.seen + {row.metadataId})
    else Collecting(c.seen + {row.metadataId}, c.results + [Entry(row)],
                    c.anyRootMatch || (norm != [] && PathMatchesAnyRoot(row.file, norm)))
  }

  /** The loop over the rows read, stopping at the first row that fails. */
  function CollectRows(rowsRead: seq<RowRead>, norm: seq<string>): Result<Collecting>
  {
    if rowsRead == [] then Ok(Collecting({}, [], false))
    else
      match CollectRows(rowsRead[..|rowsRead| - 1], norm)
      case Err(e) => Err(e)
      case Ok(c) =>
        match rowsRead[|rowsRead| - 1]
        case RowFailed(e) => Err(RowError(e))
        case RowOk(row) => Ok(Step(c, row, norm))
  }

  /** `collect_plex_owned_entries`. */
  function Collected(q: Query, roots: seq<string>): Result<(seq<PlexOwnedEntry>, bool)>
  {
    match q
    case PrepareFailed(e) => Err(PrepareError(e))
    case IterateFailed(e) => Err(IterateError(e))
    case Rows(rowsRead) =>
      match CollectRows(rowsRead, NormalizedRoots(roots))
      case Err(e) => Err(e)
      case Ok(c) => Ok((c.results, c.anyRootMatch))
  }

  /** `collect_plex_owned_entries` as the source writes it, with the loop
      over the rows and its working set of seen ids. */
  method CollectPlexOwnedEntries(q: Query, roots: seq<string>) returns (r: Result<(seq<PlexOwnedEntry>, bool)>)
    ensures r == Collected(q, roots)
  {
    if q.PrepareFailed? {
      return Err(PrepareError(q.err));
    }
    if q.IterateFailed? {
      return Err(IterateError(q.err));
    }
    var rowsRead := q.rowsRead;
    var norm := NormalizedRoots(roots);
    var seenIds: set<int> := {};
    var results: seq<PlexOwnedEntry> := [];
    var anyRootMatch := false;
    var i := 0;
    while i < |rowsRead|
      invariant 0 <= i <= |rowsRead|
      invariant CollectRows(rowsRead[..i], norm) == Ok(Collecting(seenIds, results, anyRootMatch))
    {
      assert rowsRead[..i + 1][..i] == rowsRead[..i];
      if rowsRead[i].RowFailed? {
        assert CollectRows(rowsRead[..i + 1], norm) == Err(RowError(rowsRead[i].err));
        RowsFailFrom(rowsRead, norm, i + 1);
        assert rowsRead[..|rowsRead|] == rowsRead;
        return Err(RowError(rowsRead[i].err));
      }
      var row := rowsRead[i].row;
      i := i + 1;
      if row.metadataId in seenIds {
        continue;
      }
      seenIds := seenIds + {row.metadataId};
      if IsBlank(row.title) {
        continue;
      }
      if norm != [] && PathMatchesAnyRoot(row.file, norm) {
        anyRootMatch := true;
      }
      results := results + [Entry(row)];
    }
    assert rowsRead[..i] == rowsRead;
    r := Ok((results, anyRootMatch));
  }

  /** Once the loop has failed it stays failed with the same error. */
  lemma {:induction false} RowsFailFrom(rowsRead: seq<RowRead>, norm: seq<string>, n: nat)
    requires n <= |rowsRead| && CollectRows(rowsRead[..n], norm).Err?
    ensures CollectRows(rowsRead[..|rowsRead|], norm) == CollectRows(rowsRead[..n], norm)
    decreases |rowsRead| - n
  {
    if n < |rowsRead| {
      assert rowsRead[..n + 1][..n] == rowsRead[..n];
      RowsFailFrom(rowsRead, norm, n + 1);
    }
  }

  /** The loop fails exactly when some row fails to read, with the error of
      the first such row. */
  lemma {:induction false} CollectRowsFails(rowsRead: seq<RowRead>, norm: seq<string>)
    ensures CollectRows(rowsRead, norm).Err? <==> exists i :: 0 <= i < |rowsRead| && rowsRead[i].RowFailed?
    ensures CollectRows(rowsRead, norm).Err? ==>
              exists i :: 0 <= i < |rowsRead| && rowsRead[i].RowFailed? && CollectRows(rowsRead, norm).error == RowError(rowsRead[i].err)
                          && forall j :: 0 <= j < i ==> rowsRead[j].RowOk?
  {
    if rowsRead != [] {
      var pre := rowsRead[..|rowsRead| - 1];
      CollectRowsFails(pre, norm);
      assert forall j :: 0 <= j < |pre| ==> pre[j] == rowsRead[j];
    }
  }

  /** Row `i` is the first row of its film. */
  ghost predicate FirstOfFilm(rowsRead: seq<RowRead>, i: int)
  {
    0 <= i < |rowsRead| && rowsRead[i].RowOk?
    && forall j :: 0 <= j < i && rowsRead[j].RowOk? ==> rowsRead[j].row.metadataId != rowsRead[i].row.metadataId
  }

  /** Row `i` is kept: the first row of its film, with a title that is not
      blank. */
  ghost predicate Kept(rowsRead: seq<RowRead>, i: int)
  {
    FirstOfFilm(rowsRead, i) && !IsBlank(rowsRead[i].row.title)
  }

  /** The ids of the films of the rows read. */
  ghost predicate SeenAre(rowsRead: seq<RowRead>, seen: set<int>)
  {
    forall id :: id in seen <==> exists i :: 0 <= i < |rowsRead| && rowsRead[i].RowOk? && rowsRead[i].row.metadataId == id
  }

  /** The entries are those of the kept rows. */
  ghost predicate ResultsAre(rowsRead: seq<RowRead>, results: seq<PlexOwnedEntry>)
  {
    ResultsSound(rowsRead, results) && ResultsComplete(rowsRead, results)
  }

  /** Every entry is that of a kept row. */
  ghost predicate ResultsSound(rowsRead: seq<RowRead>, results: seq<PlexOwnedEntry>)
  {
    forall e :: e in results ==> KeptEntry(rowsRead, e)
  }

  /** Every kept row has its entry. */
  ghost predicate ResultsComplete(rowsRead: seq<RowRead>, results: seq<PlexOwnedEntry>)
  {
    forall i :: Kept(rowsRead, i) ==> Entry(rowsRead[i].row) in results
  }

  ghost predicate KeptEntry(rowsRead: seq<RowRead>, e: PlexOwnedEntry)
  {
    exists i :: Kept(rowsRead, i) && e == Entry(rowsRead[i].row)
  }

  /** No two entries are of the same film. */
  predicate OnePerFilm(results: seq<PlexOwnedEntry>)
  {
    forall a, b :: 0 <= a < b < |results| ==> results[a].metadataId != results[b].metadataId
  }

  /** The root flag says whether some kept row's file lies under a
      non-empty root. */
  ghost predicate MatchIs(rowsRead: seq<RowRead>, norm: seq<string>, any: bool)
  {
    any <==> norm != [] && exists i :: Kept(rowsRead, i) && PathMatchesAnyRoot(rowsRead[i].row.file, norm)
  }

  ghost predicate Summary(rowsRead: seq<RowRead>, norm: seq<string>, c: Collecting)
  {
    SeenAre(rowsRead, c.seen) && ResultsAre(rowsRead, c.results) && OnePerFilm(c.results)
    && (forall e :: e in c.results ==> e.metadataId in c.seen) && MatchIs(rowsRead, norm, c.anyRootMatch)
  }

  /** Appending a row keeps which earlier rows are first of their film. */
  lemma FirstOfFilmPrefix(rowsRead: seq<RowRead>, i: int)
    requires rowsRead != [] && 0 <= i < |rowsRead| - 1
    ensures FirstOfFilm(rowsRead, i) <==> FirstOfFilm(rowsRead[..|rowsRead| - 1], i)
    ensures Kept(rowsRead, i) <==> Kept(rowsRead[..|rowsRead| - 1], i)
  {
    var pre := rowsRead[..|rowsRead| - 1];
    assert forall j :: 0 <= j <= i ==> pre[j] == rowsRead[j];
  }

  /** The last row is the first of its film exactly when its film was not
      seen before. */
  lemma FirstOfFilmLast(rowsRead: seq<RowRead>, seen: set<int>)
    requires rowsRead != [] && rowsRead[|rowsRead| - 1].RowOk? && SeenAre(rowsRead[..|rowsRead| - 1], seen)
    ensures FirstOfFilm(rowsRead, |rowsRead| - 1) <==> rowsRead[|rowsRead| - 1].row.metadataId !in seen
  {
    var n := |rowsRead| - 1;
    var pre := rowsRead[..n];
    var id := rowsRead[n].row.metadataId;
    if id in seen {
      var j :| 0 <= j < |pre| && pre[j].RowOk? && pre[j].row.metadataId == id;
      assert rowsRead[j] == pre[j];
    } else {
      forall j | 0 <= j < n && rowsRead[j].RowOk? ensures rowsRead[j].row.metadataId != id {
        assert pre[j] == rowsRead[j];
      }
    }
  }

  lemma SeenStep(rowsRead: seq<RowRead>, seen: set<int>)
    requires rowsRead != [] && rowsRead[|rowsRead| - 1].RowOk? && SeenAre(rowsRead[..|rowsRead| - 1], seen)
    ensures SeenAre(rowsRead, seen + {rowsRead[|rowsRead| - 1].row.metadataId})
  {
    var n := |rowsRead| - 1;
    var pre := rowsRead[..n];
    forall id | id in seen ensures exists i :: 0 <= i < |rowsRead| && rowsRead[i].RowOk? && rowsRead[i].row.metadataId == id {
      var j :| 0 <= j < |pre| && pre[j].RowOk? && pre[j].row.metadataId == id;
      assert rowsRead[j] == pre[j];
    }
    forall i | 0 <= i < n && rowsRead[i].RowOk? ensures rowsRead[i].row.metadataId in seen {
      assert pre[i] == rowsRead[i];
    }
  }

  /** Appending a row keeps which earlier rows are kept. */
  lemma KeptPrefix(rowsRead: seq<RowRead>)
    requires rowsRead != []
    ensures forall i :: 0 <= i < |rowsRead| - 1 ==> (Kept(rowsRead, i) <==> Kept(rowsRead[..|rowsRead| - 1], i))
  {
    forall i | 0 <= i < |rowsRead| - 1 ensures Kept(rowsRead, i) <==> Kept(rowsRead[..|rowsRead| - 1], i) {
      FirstOfFilmPrefix(rowsRead, i);
    }
  }

  /** An entry of a kept row stays one when a row is read after it. */
  lemma KeptEntryGrows(rowsRead: seq<RowRead>, e: PlexOwnedEntry)
    requires rowsRead != [] && KeptEntry(rowsRead[..|rowsRead| - 1], e)
    ensures KeptEntry(rowsRead, e)
  {
    var pre := rowsRead[..|rowsRead| - 1];
    var i :| Kept(pre, i) && e == Entry(pre[i].row);
    FirstOfFilmPrefix(rowsRead, i);
    assert rowsRead[i] == pre[i];
  }

  lemma SoundGrows(rowsRead: seq<RowRead>, results: seq<PlexOwnedEntry>)
    requires rowsRead != [] && ResultsSound(rowsRead[..|rowsRead| - 1], results)
    ensures ResultsSound(rowsRead, results)
  {
    forall e | e in results ensures KeptEntry(rowsRead, e) {
      KeptEntryGrows(rowsRead, e);
    }
  }

  /** A row kept before the last is kept in the prefix. */
  lemma KeptBefore(rowsRead: seq<RowRead>, results: seq<PlexOwnedEntry>, i: int)
    requires rowsRead != [] && ResultsComplete(rowsRead[..|rowsRead| - 1], results)
    requires Kept(rowsRead, i) && i < |rowsRead| - 1
    ensures Entry(rowsRead[i].row) in results
  {
    var pre := rowsRead[..|rowsRead| - 1];
    FirstOfFilmPrefix(rowsRead, i);
    assert rowsRead[i] == pre[i];
    assert Kept(pre, i);
  }

  /** A last row that is not kept adds no entry. */
  lemma ResultsSame(rowsRead: seq<RowRead>, results: seq<PlexOwnedEntry>)
    requires rowsRead != [] && !Kept(rowsRead, |rowsRead| - 1) && ResultsAre(rowsRead[..|rowsRead| - 1], results)
    ensures ResultsAre(rowsRead, results)
  {
    SoundGrows(rowsRead, results);
    forall i | Kept(rowsRead, i) ensures Entry(rowsRead[i].row) in results {
      KeptBefore(rowsRead, results, i);
    }
  }

  /** A kept last row adds its entry. */
  lemma ResultsAppend(rowsRead: seq<RowRead>, results: seq<PlexOwnedEntry>)
    requires rowsRead != [] && Kept(rowsRead, |rowsRead| - 1) && ResultsAre(rowsRead[..|rowsRead| - 1], results)
    ensures ResultsAre(rowsRead, results + [Entry(rowsRead[|rowsRead| - 1].row)])
  {
    SoundAppend(rowsRead, results);
    CompleteAppend(rowsRead, results);
  }

  lemma SoundAppend(rowsRead: seq<RowRead>, results: seq<PlexOwnedEntry>)
    requires rowsRead != [] && Kept(rowsRead, |rowsRead| - 1) && ResultsSound(rowsRead[..|rowsRead| - 1], results)
    ensures ResultsSound(rowsRead, results + [Entry(rowsRead[|rowsRead| - 1].row)])
  {
    var n := |rowsRead| - 1;
    SoundGrows(rowsRead, results);
    forall e | e in results + [Entry(rowsRead[n].row)] ensures KeptEntry(rowsRead, e) {
      if e !in results {
        assert Kept(rowsRead, n) && e == Entry(rowsRead[n].row);
      }
    }
  }

  lemma CompleteAppend(rowsRead: seq<RowRead>, results: seq<PlexOwnedEntry>)
    requires rowsRead != [] && rowsRead[|rowsRead| - 1].RowOk? && ResultsComplete(rowsRead[..|rowsRead| - 1], results)
    ensures ResultsComplete(rowsRead, results + [Entry(rowsRead[|rowsRead| - 1].row)])
  {
    var n := |rowsRead| - 1;
    var r := results + [Entry(rowsRead[n].row)];
    forall i | Kept(rowsRead, i) ensures Entry(rowsRead[i].row) in r {
      if i < n {
        KeptBefore(rowsRead, results, i);
      } else {
        assert r[|results|] == Entry(rowsRead[i].row);
      }
    }
  }

  /** A last row that is not kept leaves the root flag's meaning. */
  lemma MatchSame(rowsRead: seq<RowRead>, norm: seq<string>, any: bool)
    requires rowsRead != [] && !Kept(rowsRead, |rowsRead| - 1) && MatchIs(rowsRead[..|rowsRead| - 1], norm, any)
    ensures MatchIs(rowsRead, norm, any)
  {
    var pre := rowsRead[..|rowsRead| - 1];
    KeptPrefix(rowsRead);
    if any {
      var i :| Kept(pre, i) && PathMatchesAnyRoot(pre[i].row.file, norm);
      assert rowsRead[i] == pre[i];
    }
    if norm != [] && exists i :: Kept(rowsRead, i) && PathMatchesAnyRoot(rowsRead[i].row.file, norm) {
      var i :| Kept(rowsRead, i) && PathMatchesAnyRoot(rowsRead[i].row.file, norm);
      assert i < |rowsRead| - 1;
      assert rowsRead[i] == pre[i];
    }
  }

  /** A kept last row sets the root flag when its file lies under a root. */
  lemma MatchAppend(rowsRead: seq<RowRead>, norm: seq<string>, any: bool)
    requires rowsRead != [] && Kept(rowsRead, |rowsRead| - 1) && MatchIs(rowsRead[..|rowsRead| - 1], norm, any)
    ensures MatchIs(rowsRead, norm, any || (norm != [] && PathMatchesAnyRoot(rowsRead[|rowsRead| - 1].row.file, norm)))
  {
    var n := |rowsRead| - 1;
    var pre := rowsRead[..n];
    KeptPrefix(rowsRead);
    if any {
      var i :| Kept(pre, i) && PathMatchesAnyRoot(pre[i].row.file, norm);
      assert rowsRead[i] == pre[i];
    }
    if norm != [] && exists i :: Kept(rowsRead, i) && PathMatchesAnyRoot(rowsRead[i].row.file, norm) {
      var i :| Kept(rowsRead, i) && PathMatchesAnyRoot(rowsRead[i].row.file, norm);
      if i < n {
        assert rowsRead[i] == pre[i];
      }
    }
  }

  /** One step of the loop keeps the summary. */
  lemma SummaryStep(rowsRead: seq<RowRead>, norm: seq<string>, c: Collecting)
    requires rowsRead != [] && rowsRead[|rowsRead| - 1].RowOk? && Summary(rowsRead[..|rowsRead| - 1], norm, c)
    ensures Summary(rowsRead, norm, Step(c, rowsRead[|rowsRead| - 1].row, norm))
  {
    var n := |rowsRead| - 1;
    var row := rowsRead[n].row;
    FirstOfFilmLast(rowsRead, c.seen);
    SeenStep(rowsRead, c.seen);
    if row.metadataId in c.seen {
      assert c.seen + {row.metadataId} == c.seen;
      ResultsSame(rowsRead, c.results);
      MatchSame(rowsRead, norm, c.anyRootMatch);
    } else if IsBlank(row.title) {
      ResultsSame(rowsRead, c.results);
      MatchSame(rowsRead, norm, c.anyRootMatch);
    } else {
      ResultsAppend(rowsRead, c.results);
      MatchAppend(rowsRead, norm, c.anyRootMatch);
    }
  }

  lemma {:induction false} CollectRowsSummary(rowsRead: seq<RowRead>, norm: seq<string>)
    requires CollectRows(rowsRead, norm).Ok?
    ensures Summary(rowsRead, norm, CollectRows(rowsRead, norm).value)
  {
    if rowsRead != [] {
      var pre := rowsRead[..|rowsRead| - 1];
      CollectRowsSummary(pre, norm);
      SummaryStep(rowsRead, norm, CollectRows(pre, norm).value);
    }
  }

  /** What the collection promises, when no read fails: every entry is the
      first row of its film, with a title that is not blank; every such row
      gives an entry; no film has two entries; and the root flag says
      whether some kept row's file lies under a non-empty root. */
  lemma CollectedEntries(q: Query, roots: seq<string>)
    requires Collected(q, roots).Ok?
    ensures q.Rows?
    ensures forall e :: e in Collected(q, roots).value.0 <==> exists i :: Kept(q.rowsRead, i) && e == Entry(q.rowsRead[i].row)
    ensures forall e :: e in Collected(q, roots).value.0 ==> !IsBlank(e.title)
    ensures OnePerFilm(Collected(q, roots).value.0)
    ensures Collected(q, roots).value.1 <==>
              NormalizedRoots(roots) != [] && exists i :: Kept(q.rowsRead, i) && PathMatchesAnyRoot(q.rowsRead[i].row.file, NormalizedRoots(roots))
  {
    CollectRowsSummary(q.rowsRead, NormalizedRoots(roots));
  }

  /** The query fails exactly when it cannot be prepared or run or some row
      cannot be read. */
  lemma CollectedFails(q: Query, roots: seq<string>)
    ensures Collected(q, roots).Err? <==> !q.Rows? || exists i :: 0 <= i < |q.rowsRead| && q.rowsRead[i].RowFailed?
  {
    if q.Rows? {
      CollectRowsFails(q.rowsRead, NormalizedRoots(roots));
    }
  }

  /** The order the query asks for, as far as widths go: within a film,
      rows come widest first, a missing width counting as 0. */
  ghost predicate WidestFirst(rowsRead: seq<RowRead>)
  {
    forall i, j :: 0 <= i < j < |rowsRead| && rowsRead[i].RowOk? && rowsRead[j].RowOk?
                   && rowsRead[i].row.metadataId == rowsRead[j].row.metadataId
                   ==> Coalesce(rowsRead[j].row.width) <= Coalesce(rowsRead[i].row.width)
  }

  function Coalesce(v: Option<int>): int { if v.Some? then v.value else 0 }

  /** Because rows come widest first, a film is kept with its widest row:
      when any row of a film is at least 1280 wide, its entry is HD. */
  lemma KeptWidestIsHd(rowsRead: seq<RowRead>, i: nat, j: nat)
    requires WidestFirst(rowsRead) && Kept(rowsRead, i)
    requires 0 <= j < |rowsRead| && rowsRead[j].RowOk? && rowsRead[j].row.metadataId == rowsRead[i].row.metadataId
    requires Coalesce(rowsRead[j].row.width) >= 1280
    requires Coalesce(rowsRead[i].row.width) < U32_MODULUS
    ensures IsHd(Entry(rowsRead[i].row).width, Entry(rowsRead[i].row).height)
  {
    assert i <= j;
  }

  // ---------------------------------------------------------------------
  // accumulate_owned_entry

  /** The keys `push_keys_for` inserts for one title: none for a blank
      title, else the key variants of the trimmed title with the entry's
      year. */
  function TitleKeys(t: string, year: Option<int>, variantsOf: VariantsOf): seq<string>
  {
    if IsBlank(t) then [] else variantsOf(Trim(t), year)
  }

  /** The keys of an entry, in insertion order: those of its title, then
      those of its original title. */
  function EntryKeys(e: PlexOwnedEntry, variantsOf: VariantsOf): seq<string>
  {
    TitleKeys(e.title, e.year, variantsOf)
    + (if e.originalTitle.Some? then TitleKeys(e.originalTitle.value, e.year, variantsOf) else [])
  }

  function Accumulated(s: Fs.OwnedSets, e: PlexOwnedEntry, variantsOf: VariantsOf): Fs.OwnedSets
  {
    Fs.InsertKeys(s, EntryKeys(e, variantsOf), IsHd(e.width, e.height), e.updatedAt)
  }

  /** Inserting a key again changes nothing. */
  lemma InsertKnownKey(s: Fs.OwnedSets, ks: seq<string>, k: string, hd: bool, modified: Option<nat>)
    requires k in ks
    ensures Fs.InsertKeys(s, ks + [k], hd, modified) == Fs.InsertKeys(s, ks, hd, modified)
  {
    Fs.InsertKeysEffect(s, ks, hd, modified);
    assert (ks + [k])[..|ks|] == ks;
    var t := Fs.InsertKeys(s, ks, hd, modified);
    assert t.dates[k := modified] == t.dates;
  }

  /** The `insert_key` closure over a sequence of keys, skipping the keys
      already inserted for this entry. */
  method InsertEach(ks: seq<string>, ghost done: seq<string>, ghost s0: Fs.OwnedSets, inserted0: set<string>,
                    sets0: Fs.OwnedSets, hd: bool, modified: Option<nat>)
    returns (inserted: set<string>, sets: Fs.OwnedSets)
    requires inserted0 == Fs.KeySet(done) && sets0 == Fs.InsertKeys(s0, done, hd, modified)
    ensures inserted == Fs.KeySet(done + ks) && sets == Fs.InsertKeys(s0, done + ks, hd, modified)
  {
    inserted, sets := inserted0, sets0;
    var i := 0;
    assert done + ks[..0] == done;
    while i < |ks|
      invariant 0 <= i <= |ks|
      invariant inserted == Fs.KeySet(done + ks[..i]) && sets == Fs.InsertKeys(s0, done + ks[..i], hd, modified)
    {
      var key := ks[i];
      assert done + ks[..i + 1] == (done + ks[..i]) + [key];
      if key !in inserted {
        inserted := inserted + {key};
        var owned := sets.owned + {key};
        var hdKeys := if hd then sets.hdKeys + {key} else sets.hdKeys;
        sets := Fs.OwnedSets(owned, hdKeys, sets.dates[key := modified]);
      } else {
        InsertKnownKey(s0, done + ks[..i], key, hd, modified);
        assert inserted + {key} == inserted;
      }
      i := i + 1;
    }
    assert ks[..i] == ks;
  }

  /** `accumulate_owned_entry` as the source writes it: the key variants of
      the title and then of the original title are inserted, each once. */
  method AccumulateOwnedEntry(entry: PlexOwnedEntry, sets0: Fs.OwnedSets, variantsOf: VariantsOf) returns (sets: Fs.OwnedSets)
    ensures sets == Accumulated(sets0, entry, variantsOf)
  {
    var hd := IsHd(entry.width, entry.height);
    var inserted: set<string> := {};
    sets := sets0;
    var titleKeys: seq<string> := [];
    var trimmed := Trim(entry.title);
    if trimmed != [] {
      titleKeys := variantsOf(trimmed, entry.year);
    }
    assert [] + titleKeys == titleKeys;
    inserted, sets := InsertEach(titleKeys, [], sets0, inserted, sets, hd, entry.updatedAt);
    if entry.originalTitle.Some? {
      var original := Trim(entry.originalTitle.value);
      var originalKeys: seq<string> := [];
      if original != [] {
        originalKeys := variantsOf(original, entry.year);
      }
      inserted, sets := InsertEach(originalKeys, titleKeys, sets0, inserted, sets, hd, entry.updatedAt);
    } else {
      assert titleKeys + [] == titleKeys;
    }
  }

  /** The keys an entry is owned under: the key variants of its title and
      of its original title, when not blank. */
  function OwnedUnder(e: PlexOwnedEntry, variantsOf: VariantsOf): (ks: set<string>)
    ensures forall k :: k in ks <==> k in EntryKeys(e, variantsOf)
  {
    Fs.KeySet(EntryKeys(e, variantsOf))
  }

  /** After accumulating an entry, the variants of its title and of its
      original title are owned, HD when the entry is HD, and dated with the
      entry's date; earlier keys keep their dates unless re-inserted, and
      consistent sets stay consistent (every HD key owned, exactly the owned
      keys dated). */
  lemma AccumulatedEffect(s: Fs.OwnedSets, e: PlexOwnedEntry, variantsOf: VariantsOf)
    ensures Accumulated(s, e, variantsOf).owned == s.owned + OwnedUnder(e, variantsOf)
    ensures Accumulated(s, e, variantsOf).hdKeys
            == if IsHd(e.width, e.height) then s.hdKeys + OwnedUnder(e, variantsOf) else s.hdKeys
    ensures Accumulated(s, e, variantsOf).dates.Keys == s.dates.Keys + OwnedUnder(e, variantsOf)
    ensures forall k :: k in OwnedUnder(e, variantsOf) ==> Accumulated(s, e, variantsOf).dates[k] == e.updatedAt
    ensures forall k :: k in s.dates && k !in OwnedUnder(e, variantsOf) ==> Accumulated(s, e, variantsOf).dates[k] == s.dates[k]
    ensures Fs.Consistent(s) ==> Fs.Consistent(Accumulated(s, e, variantsOf))
  {
    Fs.InsertKeysEffect(s, EntryKeys(e, variantsOf), IsHd(e.width, e.height), e.updatedAt);
  }

  /** A non-blank title's keys are the key variants of the trimmed title,
      which are never empty: every kept entry is owned under some key. */
  lemma EntryOwned(e: PlexOwnedEntry, md5Hex: string -> string)
    requires !IsBlank(e.title)
    ensures Trim(e.title) != [] && KeyVariants(Trim(e.title), e.year, md5Hex) != []
    ensures forall k :: k in KeyVariants(Trim(e.title), e.year, md5Hex) ==> k in OwnedUnder(e, OwnedVariantsOf(md5Hex))
  {
    KeyVariantsShape(Trim(e.title), e.year, md5Hex);
  }

  /** Accumulating the entries in order. */
  function AccumulateEntries(s: Fs.OwnedSets, es: seq<PlexOwnedEntry>, variantsOf: VariantsOf): Fs.OwnedSets
  {
    if es == [] then s else Accumulated(AccumulateEntries(s, es[..|es| - 1], variantsOf), es[|es| - 1], variantsOf)
  }

  /** The keys of a sequence of entries; of its HD entries only when
      `hdOnly`. */
  function EntriesKeys(es: seq<PlexOwnedEntry>, variantsOf: VariantsOf, hdOnly: bool): set<string>
  {
    if es == [] then {}
    else
      var e := es[|es| - 1];
      EntriesKeys(es[..|es| - 1], variantsOf, hdOnly) + (if !hdOnly || IsHd(e.width, e.height) then OwnedUnder(e, variantsOf) else {})
  }

  /** Accumulating entries owns exactly their keys, HD exactly the keys of
      the HD entries, and keeps the sets consistent. */
  lemma {:induction false} AccumulateEntriesEffect(s: Fs.OwnedSets, es: seq<PlexOwnedEntry>, variantsOf: VariantsOf)
    ensures AccumulateEntries(s, es, variantsOf).owned == s.owned + EntriesKeys(es, variantsOf, false)
    ensures AccumulateEntries(s, es, variantsOf).hdKeys == s.hdKeys + EntriesKeys(es, variantsOf, true)
    ensures Fs.Consistent(s) ==> Fs.Consistent(AccumulateEntries(s, es, variantsOf))
  {
    if es != [] {
      var es' := es[..|es| - 1];
      AccumulateEntriesEffect(s, es', variantsOf);
      AccumulatedEffect(AccumulateEntries(s, es', variantsOf), es[|es| - 1], variantsOf);
    }
  }

  /** The loop of the scan thread over the collected entries. */
  method AccumulateAll(es: seq<PlexOwnedEntry>, sets0: Fs.OwnedSets, variantsOf: VariantsOf) returns (sets: Fs.OwnedSets)
    ensures sets == AccumulateEntries(sets0, es, variantsOf)
  {
    sets := sets0;
    var i := 0;
    while i < |es|
      invariant 0 <= i <= |es|
      invariant sets == AccumulateEntries(sets0, es[..i], variantsOf)
    {
      assert es[..i + 1][..i] == es[..i];
      sets := AccumulateOwnedEntry(es[i], sets, variantsOf);
      i := i + 1;
    }
    assert es[..i] == es;
  }

  // ---------------------------------------------------------------------
  // spawn_scan

  const LOADING: string := "Stage 3/4 - Loading owned titles from Plex library database."
  const ROOTS_UNMATCHED: string := "Configured library_roots did not match any Plex library files; returning all movies."

  function WaitingFor(dbPath: string): string
  {
    "Waiting for Plex library DB to become available at " + dbPath + "..."
  }

  function OpenFailedText(dbPath: string, err: string): string
  {
    "Failed to open Plex library DB " + dbPath + ": " + err
  }

  function NotFoundText(dbPath: string): string
  {
    "Plex library DB not found at " + dbPath + " after waiting 60s. Run a sync or configure `plex_library_db_source`."
  }

  function CompleteText(count: nat): string
  {
    "Stage 3/4 - Plex library owned scan complete (" + NatToString(count) + " keys)."
  }

  /** How waiting for the database ended: opened, on the first attempt or
      after waiting, with what its query gives; or, once the 60-second
      timeout has passed, an open error or a file still missing. */
  datatype DbWait = Opened(waited: bool, query: Query) | OpenFailed(err: string) | NotFound

  /** What the scan thread reports: the messages sent, in order, and the
      key sets handed to the sidecar files. */
  datatype PlexOutcome = PlexOutcome(msgs: seq<OwnedMsg>, sidecars: Option<(set<string>, set<string>)>)

  /** The messages sent before the database is open: the loading message,
      and a waiting message unless it opened at once. */
  function Opening(db: DbWait, dbPath: string): (msgs: seq<OwnedMsg>)
  {
    if db.Opened? && !db.waited then [OwnedInfo(LOADING)] else [OwnedInfo(LOADING), OwnedInfo(WaitingFor(dbPath))]
  }

  /** The end of a scan whose query succeeded: the unmatched-roots note
      when roots are configured and none matched, the count of owned keys,
      and the keys with their dates; the owned and HD keys go to the
      sidecar files. */
  function Reported(start: seq<OwnedMsg>, sets: Fs.OwnedSets, roots: seq<string>, anyRootMatch: bool): PlexOutcome
  {
    var note := if roots != [] && !anyRootMatch then [OwnedInfo(ROOTS_UNMATCHED)] else [];
    PlexOutcome(start + note + [OwnedInfo(CompleteText(|sets.owned|)), OwnedDone(sets.owned, sets.dates)],
                Some((sets.owned, sets.hdKeys)))
  }

  /** `spawn_scan`'s thread, given how waiting for the database ended. */
  function PlexScanned(db: DbWait, dbPath: string, roots: seq<string>, variantsOf: VariantsOf): PlexOutcome
  {
    var start := Opening(db, dbPath);
    if db.OpenFailed? then PlexOutcome(start + [OwnedError(OpenFailedText(dbPath, db.err))], None)
    else if db.NotFound? then PlexOutcome(start + [OwnedError(NotFoundText(dbPath))], None)
    else
      var collected := Collected(db.query, roots);
      if collected.Err? then PlexOutcome(start + [OwnedError(collected.error)], None)
      else Reported(start, AccumulateEntries(Fs.NO_OWNED, collected.value.0, variantsOf), roots, collected.value.1)
  }

  /** `spawn_scan`'s thread as the source writes it. */
  method SpawnScan(db: DbWait, dbPath: string, roots: seq<string>, variantsOf: VariantsOf) returns (out: PlexOutcome)
    ensures out == PlexScanned(db, dbPath, roots, variantsOf)
  {
    var msgs := [OwnedInfo(LOADING)];
    if !(db.Opened? && !db.waited) {
      msgs := msgs + [OwnedInfo(WaitingFor(dbPath))];
    }
    assert msgs == Opening(db, dbPath);
    if db.OpenFailed? {
      return PlexOutcome(msgs + [OwnedError(OpenFailedText(dbPath, db.err))], None);
    }
    if db.NotFound? {
      return PlexOutcome(msgs + [OwnedError(NotFoundText(dbPath))], None);
    }
    var collected := CollectPlexOwnedEntries(db.query, roots);
    if collected.Err? {
      return PlexOutcome(msgs + [OwnedError(collected.error)], None);
    }
    var sets := AccumulateAll(collected.value.0, Fs.NO_OWNED, variantsOf);
    out := Reported(msgs, sets, roots, collected.value.1);
  }

  function LastOf(msgs: seq<OwnedMsg>): OwnedMsg
    requires msgs != []
  {
    msgs[|msgs| - 1]
  }

  /** The unmatched-roots note differs from every other message text the
      scan sends (they differ in their last-but-one character). */
  lemma NoteIsDistinct(dbPath: string, count: nat)
    ensures ROOTS_UNMATCHED != LOADING
    ensures ROOTS_UNMATCHED != WaitingFor(dbPath)
    ensures ROOTS_UNMATCHED != CompleteText(count)
  {
    assert ROOTS_UNMATCHED[|ROOTS_UNMATCHED| - 2] == 's';
    assert WaitingFor(dbPath)[|WaitingFor(dbPath)| - 2] == '.';
    assert CompleteText(count)[|CompleteText(count)| - 2] == ')';
  }

  /** Before the database is open the scan sends information only,
      starting with the loading message, and never the unmatched-roots
      note. */
  lemma OpeningShape(db: DbWait, dbPath: string)
    ensures OpeningLike(Opening(db, dbPath))
  {
    NoteIsDistinct(dbPath, 0);
  }

  /** What is sent before the database is open, as `Opening` sends it. */
  ghost predicate OpeningLike(start: seq<OwnedMsg>)
  {
    && start != [] && start[0] == OwnedInfo(LOADING)
    && (forall k :: 0 <= k < |start| ==> start[k].OwnedInfo?)
    && OwnedInfo(ROOTS_UNMATCHED) !in start
  }

  /** The end of a successful scan keeps what was sent before, adds only
      information and then the keys with their dates, hands the owned and
      HD keys to the sidecars, and adds the unmatched-roots note exactly
      when roots are configured and none matched. */
  lemma ReportedShape(start: seq<OwnedMsg>, sets: Fs.OwnedSets, roots: seq<string>, anyRootMatch: bool)
    requires OpeningLike(start)
    ensures ScanShape(Reported(start, sets, roots, anyRootMatch), true, roots != [] && !anyRootMatch)
    ensures LastOf(Reported(start, sets, roots, anyRootMatch).msgs) == OwnedDone(sets.owned, sets.dates)
    ensures Reported(start, sets, roots, anyRootMatch).sidecars == Some((sets.owned, sets.hdKeys))
  {
    NoteIsDistinct([], |sets.owned|);
    var note: seq<OwnedMsg> := if roots != [] && !anyRootMatch then [OwnedInfo(ROOTS_UNMATCHED)] else [];
    var tail := note + [OwnedInfo(CompleteText(|sets.owned|)), OwnedDone(sets.owned, sets.dates)];
    var msgs := Reported(start, sets, roots, anyRootMatch).msgs;
    assert msgs == start + tail;
    assert OwnedInfo(ROOTS_UNMATCHED) in tail <==> roots != [] && !anyRootMatch;
  }

  /** A scan that ends on an error: what was sent before, then the error. */
  lemma FailedShape(start: seq<OwnedMsg>, err: string)
    requires OpeningLike(start)
    ensures ScanShape(PlexOutcome(start + [OwnedError(err)], None), false, false)
  {
  }

  /** `spawn_scan`'s thread on a query that succeeded, in terms of the end
      of a scan. */
  lemma ScannedReported(db: DbWait, dbPath: string, roots: seq<string>, variantsOf: VariantsOf)
    requires db.Opened? && Collected(db.query, roots).Ok?
    ensures PlexScanned(db, dbPath, roots, variantsOf)
            == Reported(Opening(db, dbPath),
                        AccumulateEntries(Fs.NO_OWNED, Collected(db.query, roots).value.0, variantsOf),
                        roots, Collected(db.query, roots).value.1)
  {
  }

  /** What a scan sends: the loading message first, then information
      only, until one final message that carries the keys exactly when
      `ok` (it is an error otherwise); the sidecar files are written exactly
      when `ok`, and the unmatched-roots note is among the messages exactly
      when `note`. */
  ghost predicate ScanShape(out: PlexOutcome, ok: bool, note: bool)
  {
    && out.msgs != [] && out.msgs[0] == OwnedInfo(LOADING)
    && (forall k :: 0 <= k < |out.msgs| - 1 ==> out.msgs[k].OwnedInfo?)
    && (LastOf(out.msgs).OwnedDone? || LastOf(out.msgs).OwnedError?)
    && (LastOf(out.msgs).OwnedDone? <==> ok)
    && (out.sidecars.Some? <==> ok)
    && (OwnedInfo(ROOTS_UNMATCHED) in out.msgs <==> note)
  }

  /** The scan has that shape, with the keys sent exactly when the database
      opened and the query succeeded, and the unmatched-roots note exactly
      when, in addition, roots are configured and no kept row lies under a
      non-empty one. */
  lemma PlexScanShape(db: DbWait, dbPath: string, roots: seq<string>, variantsOf: VariantsOf)
    ensures ScanShape(PlexScanned(db, dbPath, roots, variantsOf),
                      db.Opened? && Collected(db.query, roots).Ok?,
                      db.Opened? && Collected(db.query, roots).Ok? && roots != [] && !Collected(db.query, roots).value.1)
  {
    var start := Opening(db, dbPath);
    OpeningShape(db, dbPath);
    if db.Opened? && Collected(db.query, roots).Ok? {
      var c := Collected(db.query, roots).value;
      ScannedReported(db, dbPath, roots, variantsOf);
      ReportedShape(start, AccumulateEntries(Fs.NO_OWNED, c.0, variantsOf), roots, c.1);
    } else {
      ScannedFailed(db, dbPath, roots, variantsOf);
      var err :| PlexScanned(db, dbPath, roots, variantsOf) == PlexOutcome(start + [OwnedError(err)], None);
      FailedShape(start, err);
    }
  }

  /** `spawn_scan`'s thread when the database did not open or the query
      failed: what was sent before, then an error. */
  lemma ScannedFailed(db: DbWait, dbPath: string, roots: seq<string>, variantsOf: VariantsOf)
    requires !(db.Opened? && Collected(db.query, roots).Ok?)
    ensures exists err :: PlexScanned(db, dbPath, roots, variantsOf) == PlexOutcome(Opening(db, dbPath) + [OwnedError(err)], None)
  {
    if db.OpenFailed? {
      assert PlexScanned(db, dbPath, roots, variantsOf).msgs == Opening(db, dbPath) + [OwnedError(OpenFailedText(dbPath, db.err))];
    } else if db.NotFound? {
      assert PlexScanned(db, dbPath, roots, variantsOf).msgs == Opening(db, dbPath) + [OwnedError(NotFoundText(dbPath))];
    } else {
      assert PlexScanned(db, dbPath, roots, variantsOf).msgs == Opening(db, dbPath) + [OwnedError(Collected(db.query, roots).error)];
    }
  }

  /** A scan whose query succeeded reports the keys of the collected
      entries, every one dated; the HD sidecar holds the keys of the HD
      entries, all of them owned. */
  lemma PlexScanKeys(db: DbWait, dbPath: string, roots: seq<string>, variantsOf: VariantsOf)
    requires db.Opened? && Collected(db.query, roots).Ok?
    ensures var out := PlexScanned(db, dbPath, roots, variantsOf);
            var entries := Collected(db.query, roots).value.0;
            && out.msgs != [] && LastOf(out.msgs).OwnedDone?
            && LastOf(out.msgs).keys == EntriesKeys(entries, variantsOf, false)
            && LastOf(out.msgs).modified.Keys == LastOf(out.msgs).keys
            && out.sidecars == Some((LastOf(out.msgs).keys, EntriesKeys(entries, variantsOf, true)))
            && EntriesKeys(entries, variantsOf, true) <= LastOf(out.msgs).keys
  {
    var c := Collected(db.query, roots).value;
    OpeningShape(db, dbPath);
    ScannedReported(db, dbPath, roots, variantsOf);
    ReportedShape(Opening(db, dbPath), AccumulateEntries(Fs.NO_OWNED, c.0, variantsOf), roots, c.1);
    AccumulateEntriesEffect(Fs.NO_OWNED, c.0, variantsOf);
  }
}
