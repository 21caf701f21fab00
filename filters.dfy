/** The grid's filter, grouping and ordering (`filters.rs`): which rows are
    shown, grouped by the day they air, and in which order within a day;
    and the decades offered by the decade filter. */
module Filters {
  import opened Text
  import opened Types
  import opened Utils
  import opened Sorting
  import opened App

  /** What `build_grouped_indices` reads from the application: the
      lower-cased search query, the channel, genre and decade selections,
      the HD-only, hide-owned and owned-cutoff toggles, the HD keys of the
      owned library and the sort settings. */
  datatype GridFilter = GridFilter(
    query: string,
    channels: seq<string>,
    genres: seq<string>,
    decades: set<int>,
    hdOnly: bool,
    hideOwned: bool,
    ownedHdKeys: Option<set<string>>,
    cutoffActive: bool,
    cutoffTs: nat,
    sortKey: SortKey,
    sortDesc: bool)

  function FilterOf(app: PexApp): GridFilter
    reads app
  {
    GridFilter(ToAsciiLower(app.searchQuery), app.selectedChannels, app.selectedGenres, app.selectedDecades,
               app.filterHdOnly, app.hideOwned, app.ownedHdKeys, app.filterOwnedBeforeCutoff,
               app.ownedBeforeCutoffTs, app.sortKey, app.sortDesc)
  }

  // ------------------------------------------------------------ filter

  /** `(y / 10) * 10` on an `i32`, whose division truncates toward zero. */
  function Decade(y: int): (d: int)
    ensures d % 10 == 0
    ensures 0 <= y ==> d <= y < d + 10
    ensures y < 0 ==> d - 10 < y <= d
  {
    if y >= 0 then (y / 10) * 10 else -(((-y) / 10) * 10)
  }

  /** The raw channel a row is filtered on; "" when it has none. */
  function ChannelRawOf(row: PosterRow): string
  {
    if row.channelRaw.Some? then row.channelRaw.value else ""
  }

  predicate AnyGenreSelected(genres: seq<string>, selected: seq<string>)
  {
    exists g :: g in genres && g in selected
  }

  /** `row_owned_is_hd`: the owned copy of the row is known to be HD. */
  predicate OwnedIsHd(f: GridFilter, row: PosterRow)
  {
    f.ownedHdKeys.Some? && row.ownedKey in f.ownedHdKeys.value
  }

  /** The filter step of `build_grouped_indices`: the day bucket of a row
      that is kept, `None` for a row that is dropped. */
  function RowBucket(f: GridFilter, row: PosterRow, nowBucket: int, maxBucket: Option<int>): Option<int>
  {
    if row.airing.None? then None
    else
      var b := DayBucket(row.airing.value);
      if b < nowBucket then None
      else if maxBucket.Some? && b >= maxBucket.value then None
      else if f.query != [] && !Contains(ToAsciiLower(row.title), f.query) then None
      else if f.channels != [] && ChannelRawOf(row) !in f.channels then None
      else if f.genres != [] && !AnyGenreSelected(row.genres, f.genres) then None
      else if f.hdOnly && !row.broadcastHd then None
      else if f.hideOwned && row.owned && !(row.broadcastHd && !OwnedIsHd(f, row)) then None
      else if f.decades != {} && !(row.year.Some? && Decade(row.year.value) in f.decades) then None
      else if f.cutoffActive && !(row.owned && row.ownedModified.Some? && row.ownedModified.value < f.cutoffTs) then None
      else Some(b)
  }

  /** The row airs on a day of the window. */
  predicate InWindow(row: PosterRow, nowBucket: int, maxBucket: Option<int>)
  {
    row.airing.Some? && nowBucket <= DayBucket(row.airing.value) &&
    (maxBucket.Some? ==> DayBucket(row.airing.value) < maxBucket.value)
  }

  /** Each active filter, on its own. */
  predicate PassesQuery(f: GridFilter, row: PosterRow) { f.query == [] || Contains(ToAsciiLower(row.title), f.query) }
  predicate PassesChannel(f: GridFilter, row: PosterRow) { f.channels == [] || ChannelRawOf(row) in f.channels }
  predicate PassesGenre(f: GridFilter, row: PosterRow) { f.genres == [] || AnyGenreSelected(row.genres, f.genres) }
  predicate PassesHd(f: GridFilter, row: PosterRow) { f.hdOnly ==> row.broadcastHd }
  /** Hiding owned rows keeps the HD upgrades: an HD airing of a title
      owned only in SD. */
  predicate PassesHideOwned(f: GridFilter, row: PosterRow) { f.hideOwned && row.owned ==> row.broadcastHd && !OwnedIsHd(f, row) }
  predicate PassesDecade(f: GridFilter, row: PosterRow)
  {
    f.decades == {} || (row.year.Some? && Decade(row.year.value) in f.decades)
  }
  /** The owned-cutoff filter keeps owned rows bought before the cutoff. */
  predicate PassesCutoff(f: GridFilter, row: PosterRow)
  {
    f.cutoffActive ==> row.owned && row.ownedModified.Some? && row.ownedModified.value < f.cutoffTs
  }

  /** A row is kept exactly when it airs in the window and passes every
      filter, and it is then kept under the day bucket of its airing. */
  lemma RowBucketKeeps(f: GridFilter, row: PosterRow, nowBucket: int, maxBucket: Option<int>)
    ensures RowBucket(f, row, nowBucket, maxBucket).Some? <==>
              InWindow(row, nowBucket, maxBucket) && PassesQuery(f, row) && PassesChannel(f, row) &&
              PassesGenre(f, row) && PassesHd(f, row) && PassesHideOwned(f, row) && PassesDecade(f, row) &&
              PassesCutoff(f, row)
    ensures RowBucket(f, row, nowBucket, maxBucket).Some? ==>
              RowBucket(f, row, nowBucket, maxBucket).value == DayBucket(row.airing.value)
  {
  }

  /** An empty channel or genre selection filters nothing. */
  lemma EmptySelectionsFilterNothing(f: GridFilter, row: PosterRow, nowBucket: int, maxBucket: Option<int>,
                                     raw: Option<string>, genres: seq<string>)
    requires f.channels == [] && f.genres == []
    ensures RowBucket(f, row, nowBucket, maxBucket) == RowBucket(f, row.(channelRaw := raw, genres := genres), nowBucket, maxBucket)
  {
  }

  /** `selected_genres` holds one of the genres, by a search over them. */
  method MatchGenre(genres: seq<string>, selected: seq<string>) returns (found: bool)
    ensures found == AnyGenreSelected(genres, selected)
  {
    found := false;
    var i := 0;
    while i < |genres|
      invariant 0 <= i <= |genres|
      invariant !found <==> forall k :: 0 <= k < i ==> genres[k] !in selected
    {
      if genres[i] in selected {
        found := true;
        return;
      }
      i := i + 1;
    }
  }

  /** The filter closure of `build_grouped_indices` for one row. */
  method KeepRow(f: GridFilter, row: PosterRow, nowBucket: int, maxBucket: Option<int>) returns (r: Option<int>)
    ensures r == RowBucket(f, row, nowBucket, maxBucket)
  {
    if row.airing.None? {
      return None;
    }
    var b := DayBucket(row.airing.value);
    if b < nowBucket {
      return None;
    }
    if maxBucket.Some? && b >= maxBucket.value {
      return None;
    }
    if f.query != [] && !Contains(ToAsciiLower(row.title), f.query) {
      return None;
    }
    if f.channels != [] && ChannelRawOf(row) !in f.channels {
      return None;
    }
    if f.genres != [] {
      var matchGenre := MatchGenre(row.genres, f.genres);
      if !matchGenre {
        return None;
      }
    }
    if f.hdOnly && !row.broadcastHd {
      return None;
    }
    if f.hideOwned && row.owned {
      var ownedIsHd := OwnedIsHd(f, row);
      var isUpgrade := row.broadcastHd && !ownedIsHd;
      if !isUpgrade {
        return None;
      }
    }
    if f.decades != {} {
      if !(row.year.Some? && Decade(row.year.value) in f.decades) {
        return None;
      }
    }
    if f.cutoffActive {
      if !(row.owned && row.ownedModified.Some? && row.ownedModified.value < f.cutoffTs) {
        return None;
      }
    }
    return Some(b);
  }

  /** The kept positions of `xs` with their buckets, in ascending order. */
  function Filtered<T>(xs: seq<T>, keep: T -> Option<int>): (r: seq<(nat, int)>)
    ensures |r| <= |xs|
  {
    if xs == [] then []
    else
      var n := |xs| - 1;
      Filtered(xs[..n], keep) + (if keep(xs[n]).Some? then [(n, keep(xs[n]).value)] else [])
  }

  /** Every entry of `r` is a position of `xs` kept under its bucket. */
  ghost predicate KeptEntries<T>(xs: seq<T>, keep: T -> Option<int>, r: seq<(nat, int)>)
  {
    forall k :: 0 <= k < |r| ==> r[k].0 < |xs| && keep(xs[r[k].0]) == Some(r[k].1)
  }

  ghost predicate PositionsAscend(r: seq<(nat, int)>)
  {
    forall k, l :: 0 <= k < l < |r| ==> r[k].0 < r[l].0
  }

  ghost predicate BucketsNonDecreasing(r: seq<(nat, int)>)
  {
    forall k, l :: 0 <= k < l < |r| ==> r[k].1 <= r[l].1
  }

  /** Every entry is a kept position under its bucket. */
  lemma {:induction false} FilteredSound<T>(xs: seq<T>, keep: T -> Option<int>)
    ensures KeptEntries(xs, keep, Filtered(xs, keep))
  {
    if xs != [] {
      var n := |xs| - 1;
      var init := Filtered(xs[..n], keep);
      var r := Filtered(xs, keep);
      FilteredSound(xs[..n], keep);
      assert r == init + (if keep(xs[n]).Some? then [(n, keep(xs[n]).value)] else []);
      forall k | 0 <= k < |r| ensures r[k].0 < |xs| && keep(xs[r[k].0]) == Some(r[k].1) {
        if k < |init| {
          assert r[k] == init[k];
          assert xs[..n][init[k].0] == xs[init[k].0];
        }
      }
    }
  }

  /** The positions ascend. */
  lemma {:induction false} FilteredAscending<T>(xs: seq<T>, keep: T -> Option<int>)
    ensures PositionsAscend(Filtered(xs, keep))
  {
    if xs != [] {
      var n := |xs| - 1;
      var init := Filtered(xs[..n], keep);
      var r := Filtered(xs, keep);
      FilteredAscending(xs[..n], keep);
      FilteredSound(xs[..n], keep);
      assert r == init + (if keep(xs[n]).Some? then [(n, keep(xs[n]).value)] else []);
      assert forall k :: 0 <= k < |init| ==> r[k] == init[k] && init[k].0 < n;
    }
  }

  /** Every kept position is there. */
  lemma {:induction false} FilteredComplete<T>(xs: seq<T>, keep: T -> Option<int>, i: nat)
    requires i < |xs| && keep(xs[i]).Some?
    ensures (i, keep(xs[i]).value) in Filtered(xs, keep)
  {
    var n := |xs| - 1;
    if i < n {
      FilteredComplete(xs[..n], keep, i);
      assert xs[..n][i] == xs[i];
    }
  }

  /** The row filter of `build_grouped_indices` for fixed settings. */
  function KeepOf(f: GridFilter, nowBucket: int, maxBucket: Option<int>): PosterRow -> Option<int>
  {
    (row: PosterRow) => RowBucket(f, row, nowBucket, maxBucket)
  }

  /** The `filter_map` over the enumerated rows. */
  method FilterRows(f: GridFilter, rows: seq<PosterRow>, nowBucket: int, maxBucket: Option<int>)
    returns (filtered: seq<(nat, int)>)
    ensures filtered == Filtered(rows, KeepOf(f, nowBucket, maxBucket))
  {
    filtered := [];
    var i := 0;
    while i < |rows|
      invariant 0 <= i <= |rows|
      invariant filtered == Filtered(rows[..i], KeepOf(f, nowBucket, maxBucket))
    {
      var b := KeepRow(f, rows[i], nowBucket, maxBucket);
      assert rows[..i + 1][..i] == rows[..i];
      if b.Some? {
        filtered := filtered + [(i, b.value)];
      }
      i := i + 1;
    }
    assert rows[..i] == rows;
  }

  // ---------------------------------------------------------- grouping

  function TitleAt(rows: seq<PosterRow>, i: nat): string
  {
    if i < |rows| then rows[i].title else ""
  }

  /** The order of step 2: by day bucket, then by title. */
  function BucketTitleKey(rows: seq<PosterRow>): ((nat, int)) -> SortVal
  {
    (p: (nat, int)) => SortVal(p.1, TitleAt(rows, p.0), "")
  }

  /** Step 3: a new group whenever the bucket differs from the previous
      one; otherwise the index joins the last group. */
  function Grouped(s: seq<(nat, int)>): (r: seq<(int, seq<nat>)>)
    ensures s == [] <==> r == []
    ensures r != [] ==> r[|r| - 1].0 == s[|s| - 1].1
    ensures |r| <= |s|
  {
    if s == [] then []
    else
      var g := Grouped(s[..|s| - 1]);
      var p := s[|s| - 1];
      if g != [] && g[|g| - 1].0 == p.1 then g[..|g| - 1] + [(p.1, g[|g| - 1].1 + [p.0])]
      else g + [(p.1, [p.0])]
  }

  /** The indices of the groups, one group after another. */
  function Flatten(groups: seq<(int, seq<nat>)>): seq<nat>
  {
    if groups == [] then [] else Flatten(groups[..|groups| - 1]) + groups[|groups| - 1].1
  }

  function Indices(s: seq<(nat, int)>): (r: seq<nat>)
    ensures |r| == |s|
  {
    if s == [] then [] else Indices(s[..|s| - 1]) + [s[|s| - 1].0]
  }

  lemma {:induction false} IndicesAt(s: seq<(nat, int)>, k: nat)
    requires k < |s|
    ensures Indices(s)[k] == s[k].0
  {
    if k < |s| - 1 {
      IndicesAt(s[..|s| - 1], k);
    }
  }

  lemma FlattenSnoc(groups: seq<(int, seq<nat>)>, g: (int, seq<nat>))
    ensures Flatten(groups + [g]) == Flatten(groups) + g.1
  {
    assert (groups + [g])[..|groups|] == groups;
  }

  /** Grouping keeps the indices and their order. */
  lemma {:induction false} GroupedFlatten(s: seq<(nat, int)>)
    ensures Flatten(Grouped(s)) == Indices(s)
  {
    if s != [] {
      var g := Grouped(s[..|s| - 1]);
      var p := s[|s| - 1];
      GroupedFlatten(s[..|s| - 1]);
      if g != [] && g[|g| - 1].0 == p.1 {
        var init := g[..|g| - 1];
        assert g == init + [g[|g| - 1]];
        FlattenSnoc(init, g[|g| - 1]);
        FlattenSnoc(init, (p.1, g[|g| - 1].1 + [p.0]));
      } else {
        FlattenSnoc(g, (p.1, [p.0]));
      }
    }
  }

  /** Every group is non-empty and holds only indices filtered under its
      bucket. */
  ghost predicate GroupsFrom(r: seq<(int, seq<nat>)>, s: seq<(nat, int)>)
  {
    forall g :: 0 <= g < |r| ==> (r[g].1 != [] && forall j :: 0 <= j < |r[g].1| ==> (r[g].1[j], r[g].0) in s)
  }

  lemma {:induction false} GroupedMembers(s: seq<(nat, int)>)
    ensures GroupsFrom(Grouped(s), s)
  {
    if s != [] {
      var init := s[..|s| - 1];
      var g := Grouped(init);
      var p := s[|s| - 1];
      var r := Grouped(s);
      GroupedMembers(init);
      assert forall q :: q in init ==> q in s;
      if g != [] && g[|g| - 1].0 == p.1 {
        var last := g[|g| - 1];
        assert r == g[..|g| - 1] + [(p.1, last.1 + [p.0])];
        forall h | 0 <= h < |r|
          ensures r[h].1 != [] && forall j :: 0 <= j < |r[h].1| ==> (r[h].1[j], r[h].0) in s
        {
          if h < |g| - 1 {
            assert r[h] == g[h];
          } else {
            assert r[h] == (p.1, last.1 + [p.0]);
            forall j | 0 <= j < |r[h].1| ensures (r[h].1[j], r[h].0) in s {
              if j < |last.1| {
                assert r[h].1[j] == last.1[j];
                assert (last.1[j], last.0) in init;
              }
            }
          }
        }
      } else {
        assert r == g + [(p.1, [p.0])];
        assert forall h :: 0 <= h < |g| ==> r[h] == g[h];
      }
    }
  }

  /** Over buckets in ascending order the groups' buckets strictly ascend. */
  ghost predicate BucketsAscend(r: seq<(int, seq<nat>)>)
  {
    forall g, h :: 0 <= g < h < |r| ==> r[g].0 < r[h].0
  }

  lemma {:induction false} GroupedAscending(s: seq<(nat, int)>)
    requires BucketsNonDecreasing(s)
    ensures BucketsAscend(Grouped(s))
  {
    if s != [] {
      var init := s[..|s| - 1];
      var g := Grouped(init);
      var p := s[|s| - 1];
      var r := Grouped(s);
      GroupedAscending(init);
      if g != [] && g[|g| - 1].0 == p.1 {
        assert r == g[..|g| - 1] + [(p.1, g[|g| - 1].1 + [p.0])];
        assert forall h :: 0 <= h < |g| ==> r[h].0 == g[h].0;
      } else {
        assert r == g + [(p.1, [p.0])];
        assert forall h :: 0 <= h < |g| ==> r[h] == g[h];
        if g != [] {
          assert g[|g| - 1].0 == init[|init| - 1].1;
          assert init[|init| - 1] == s[|s| - 2];
        }
      }
    }
  }

  /** The grouping loop of `build_grouped_indices`. */
  method GroupContiguous(s: seq<(nat, int)>) returns (groups: seq<(int, seq<nat>)>)
    ensures groups == Grouped(s)
  {
    groups := [];
    var curKey: Option<int> := None;
    var k := 0;
    while k < |s|
      invariant 0 <= k <= |s|
      invariant groups == Grouped(s[..k])
      invariant curKey == if groups == [] then None else Some(groups[|groups| - 1].0)
    {
      var (idx, bucket) := s[k];
      assert s[..k + 1][..k] == s[..k];
      ghost var g0 := groups;
      ghost var pushed := curKey != Some(bucket);
      if curKey != Some(bucket) {
        groups := groups + [(bucket, [])];
        curKey := Some(bucket);
        assert groups[..|groups| - 1] == g0;
      }
      assert pushed ==> groups[..|groups| - 1] == g0 && groups[|groups| - 1].1 == [];
      assert pushed <==> !(g0 != [] && g0[|g0| - 1].0 == bucket);
      var last := groups[|groups| - 1];
      assert last.0 == bucket;
      groups := groups[..|groups| - 1] + [(last.0, last.1 + [idx])];
      assert s[..k + 1][k] == (idx, bucket);
      if g0 != [] && g0[|g0| - 1].0 == bucket {
        assert groups == g0[..|g0| - 1] + [(bucket, g0[|g0| - 1].1 + [idx])];
      } else {
        assert [] + [idx] == [idx];
        assert groups == g0 + [(bucket, [idx])];
      }
      k := k + 1;
    }
    assert s[..k] == s;
  }

  // ------------------------------------------------- intra-day ordering

  /** The key `sort_intra_day` orders an index by: its airing second (no
      airing sorts as `u64::MAX`), its title, its channel then title, or
      its first genre then title. */
  function IntraKey(rows: seq<PosterRow>, k: SortKey): nat -> SortVal
  {
    (i: nat) =>
      if i >= |rows| then SortVal(0, "", "")
      else
        var row := rows[i];
        match k
        case Time => SortVal(if row.airing.Some? then row.airing.value else U64_MAX, "", "")
        case Title => SortVal(0, row.title, "")
        case Channel => SortVal(0, if row.channel.Some? then row.channel.value else "", row.title)
        case Genre => SortVal(0, if row.genres != [] then row.genres[0] else "", row.title)
  }

  /** `sort_intra_day`, a stable sort by `IntraKey`. */
  function SortIntraDay(idxs: seq<nat>, rows: seq<PosterRow>, k: SortKey): seq<nat>
  {
    SortByKey(idxs, IntraKey(rows, k))
  }

  /** Sorting by time puts the rows without an airing after every row with
      one. */
  lemma TimeSortsUnairedLast(idxs: seq<nat>, rows: seq<PosterRow>, a: nat, b: nat)
    requires forall k :: 0 <= k < |idxs| ==> idxs[k] < |rows|
    requires forall k :: 0 <= k < |rows| && rows[k].airing.Some? ==> rows[k].airing.value < U64_MAX
    requires a < b < |idxs|
    ensures var s := SortIntraDay(idxs, rows, Time);
            s[a] < |rows| && s[b] < |rows| && (rows[s[a]].airing.None? ==> rows[s[b]].airing.None?)
  {
    var s := SortIntraDay(idxs, rows, Time);
    SortByKeySorted(idxs, IntraKey(rows, Time));
    SortByKeyPerm(idxs, IntraKey(rows, Time));
    assert s[a] in multiset(idxs) && s[b] in multiset(idxs);
  }

  /** One day after step 4: sorted, then reversed when descending. */
  function DayOrder(idxs: seq<nat>, rows: seq<PosterRow>, k: SortKey, desc: bool): seq<nat>
  {
    var s := SortIntraDay(idxs, rows, k);
    if desc then Reverse(s) else s
  }

  /** A day is a permutation of its indices, in ascending key order, or in
      descending order when sorting descending. */
  lemma DayOrderSorted(idxs: seq<nat>, rows: seq<PosterRow>, k: SortKey, desc: bool)
    ensures multiset(DayOrder(idxs, rows, k, desc)) == multiset(idxs)
    ensures !desc ==> SortedByKey(DayOrder(idxs, rows, k, desc), IntraKey(rows, k))
    ensures desc ==> forall i, j :: 0 <= i < j < |idxs| ==>
              KeyLe(IntraKey(rows, k)(DayOrder(idxs, rows, k, desc)[j]), IntraKey(rows, k)(DayOrder(idxs, rows, k, desc)[i]))
  {
    var s := SortIntraDay(idxs, rows, k);
    SortByKeyPerm(idxs, IntraKey(rows, k));
    SortByKeySorted(idxs, IntraKey(rows, k));
    if desc {
      ReversePerm(s);
      ReverseSorted(s, IntraKey(rows, k));
    }
  }

  /** Step 4 over every group. */
  function DaysOrdered(groups: seq<(int, seq<nat>)>, rows: seq<PosterRow>, k: SortKey, desc: bool): (r: seq<(int, seq<nat>)>)
    ensures |r| == |groups|
  {
    if groups == [] then []
    else
      var n := |groups| - 1;
      DaysOrdered(groups[..n], rows, k, desc) + [(groups[n].0, DayOrder(groups[n].1, rows, k, desc))]
  }

  lemma {:induction false} DaysOrderedAt(groups: seq<(int, seq<nat>)>, rows: seq<PosterRow>, k: SortKey, desc: bool, g: nat)
    requires g < |groups|
    ensures DaysOrdered(groups, rows, k, desc)[g] == (groups[g].0, DayOrder(groups[g].1, rows, k, desc))
  {
    if g < |groups| - 1 {
      DaysOrderedAt(groups[..|groups| - 1], rows, k, desc, g);
    }
  }

  /** Ordering the days permutes the indices of all groups together. */
  lemma {:induction false} DaysOrderedPerm(groups: seq<(int, seq<nat>)>, rows: seq<PosterRow>, k: SortKey, desc: bool)
    ensures multiset(Flatten(DaysOrdered(groups, rows, k, desc))) == multiset(Flatten(groups))
  {
    if groups != [] {
      var n := |groups| - 1;
      DaysOrderedPerm(groups[..n], rows, k, desc);
      DayOrderSorted(groups[n].1, rows, k, desc);
      FlattenSnoc(DaysOrdered(groups[..n], rows, k, desc), (groups[n].0, DayOrder(groups[n].1, rows, k, desc)));
    }
  }

  /** The body of step 4: `sort_intra_day`, then `reverse` when
      descending. */
  method OrderDay(idxs0: seq<nat>, rows: seq<PosterRow>, k: SortKey, desc: bool) returns (idxs: seq<nat>)
    ensures idxs == DayOrder(idxs0, rows, k, desc)
  {
    idxs := SortIntraDay(idxs0, rows, k);
    if desc {
      idxs := Reverse(idxs);
    }
  }

  /** Step 4 of `build_grouped_indices`. */
  method OrderDays(groups: seq<(int, seq<nat>)>, rows: seq<PosterRow>, k: SortKey, desc: bool)
    returns (r: seq<(int, seq<nat>)>)
    ensures r == DaysOrdered(groups, rows, k, desc)
  {
    r := [];
    var g := 0;
    while g < |groups|
      invariant 0 <= g <= |groups|
      invariant r == DaysOrdered(groups[..g], rows, k, desc)
    {
      var idxs := OrderDay(groups[g].1, rows, k, desc);
      assert groups[..g + 1][..g] == groups[..g];
      r := r + [(groups[g].0, idxs)];
      g := g + 1;
    }
    assert groups[..g] == groups;
  }

  // ----------------------------------------------------- the whole grid

  /** The steps of `build_grouped_indices` for any row filter and any
      sort key of step 2. */
  function Pipeline<T>(xs: seq<T>, keep: T -> Option<int>, key: ((nat, int)) -> SortVal,
                       rows: seq<PosterRow>, k: SortKey, desc: bool): seq<(int, seq<nat>)>
  {
    DaysOrdered(Grouped(SortByKey(Filtered(xs, keep), key)), rows, k, desc)
  }

  /** `build_grouped_indices`: filter, sort by bucket and title, group by
      bucket, order each day. */
  function GroupedIndices(f: GridFilter, rows: seq<PosterRow>, nowBucket: int, maxBucket: Option<int>): seq<(int, seq<nat>)>
  {
    Pipeline(rows, KeepOf(f, nowBucket, maxBucket), BucketTitleKey(rows), rows, f.sortKey, f.sortDesc)
  }

  /** `build_grouped_indices`, with today's bucket and the end of the day
      range as inputs. */
  method BuildGroupedIndices(app: PexApp, nowBucket: int, maxBucket: Option<int>) returns (groups: seq<(int, seq<nat>)>)
    ensures groups == GroupedIndices(FilterOf(app), app.rows, nowBucket, maxBucket)
  {
    var f := FilterOf(app);
    var filtered := FilterRows(f, app.rows, nowBucket, maxBucket);
    filtered := SortByKey(filtered, BucketTitleKey(app.rows));
    groups := GroupContiguous(filtered);
    groups := OrderDays(groups, app.rows, f.sortKey, f.sortDesc);
  }

  /** A sort key that orders by bucket first. */
  ghost predicate BucketFirst(key: ((nat, int)) -> SortVal)
  {
    forall p: (nat, int) :: key(p).n == p.1
  }

  /** The sorted filtered entries: a permutation of the filtered entries,
      by ascending bucket, with no position twice. */
  lemma SortedFiltered<T>(xs: seq<T>, keep: T -> Option<int>, key: ((nat, int)) -> SortVal)
    requires BucketFirst(key)
    ensures multiset(SortByKey(Filtered(xs, keep), key)) == multiset(Filtered(xs, keep))
    ensures BucketsNonDecreasing(SortByKey(Filtered(xs, keep), key))
    ensures NoDup(Indices(SortByKey(Filtered(xs, keep), key)))
  {
    var filtered := Filtered(xs, keep);
    var s := SortByKey(filtered, key);
    SortByKeyPerm(filtered, key);
    SortByKeySorted(filtered, key);
    FilteredAscending(xs, keep);
    forall k, l | 0 <= k < l < |s| ensures s[k].1 <= s[l].1 {
      assert KeyLe(key(s[k]), key(s[l]));
    }
    forall k, l | 0 <= k < l < |s| ensures Indices(s)[k] != Indices(s)[l] {
      IndicesAt(s, k);
      IndicesAt(s, l);
      SameIndexSameEntry(filtered, s[k], s[l]);
      CountOfEqual(s, k, l);
      NoDupCount(filtered, s[k]);
    }
  }

  /** Among entries with ascending positions, an entry is determined by its
      position and occurs once. */
  lemma SameIndexSameEntry(filtered: seq<(nat, int)>, p: (nat, int), q: (nat, int))
    requires PositionsAscend(filtered)
    requires p in multiset(filtered) && q in multiset(filtered)
    ensures NoDup(filtered)
    ensures p.0 == q.0 ==> p == q
  {
    var i :| 0 <= i < |filtered| && filtered[i] == p;
    var j :| 0 <= j < |filtered| && filtered[j] == q;
    assert i < j ==> p.0 < q.0;
    assert j < i ==> q.0 < p.0;
  }

  /** Non-empty groups, strictly ascending buckets, no position twice. */
  ghost predicate GroupsShape(gs: seq<(int, seq<nat>)>)
  {
    (forall g :: 0 <= g < |gs| ==> gs[g].1 != []) && BucketsAscend(gs) && NoDup(Flatten(gs))
  }

  /** Every position in the groups is kept under its group's bucket. */
  ghost predicate GroupsKept<T>(xs: seq<T>, keep: T -> Option<int>, gs: seq<(int, seq<nat>)>)
  {
    forall g, j :: 0 <= g < |gs| && 0 <= j < |gs[g].1| ==>
      gs[g].1[j] < |xs| && keep(xs[gs[g].1[j]]) == Some(gs[g].0)
  }

  /** For any filter and any bucket-first key the groups have that shape. */
  lemma PipelineShape<T>(xs: seq<T>, keep: T -> Option<int>, key: ((nat, int)) -> SortVal,
                         rows: seq<PosterRow>, k: SortKey, desc: bool)
    requires BucketFirst(key)
    ensures GroupsShape(Pipeline(xs, keep, key, rows, k, desc))
  {
    var s := SortByKey(Filtered(xs, keep), key);
    var grouped := Grouped(s);
    var gs := DaysOrdered(grouped, rows, k, desc);
    SortedFiltered(xs, keep, key);
    GroupedFlatten(s);
    GroupedMembers(s);
    GroupedAscending(s);
    DaysOrderedPerm(grouped, rows, k, desc);
    NoDupPerm(Flatten(grouped), Flatten(gs));
    forall g | 0 <= g < |gs| ensures gs[g].0 == grouped[g].0 && |gs[g].1| == |grouped[g].1| {
      DaysOrderedAt(grouped, rows, k, desc, g);
    }
  }

  /** For any filter every position shown is kept under its group's
      bucket. */
  lemma PipelineSound<T>(xs: seq<T>, keep: T -> Option<int>, key: ((nat, int)) -> SortVal,
                         rows: seq<PosterRow>, k: SortKey, desc: bool)
    ensures GroupsKept(xs, keep, Pipeline(xs, keep, key, rows, k, desc))
  {
    var filtered := Filtered(xs, keep);
    var s := SortByKey(filtered, key);
    var grouped := Grouped(s);
    var gs := DaysOrdered(grouped, rows, k, desc);
    FilteredSound(xs, keep);
    SortByKeyPerm(filtered, key);
    GroupedMembers(s);
    forall g, j | 0 <= g < |gs| && 0 <= j < |gs[g].1|
      ensures gs[g].1[j] < |xs| && keep(xs[gs[g].1[j]]) == Some(gs[g].0)
    {
      DaysOrderedAt(grouped, rows, k, desc, g);
      DayOrderSorted(grouped[g].1, rows, k, desc);
      var i := gs[g].1[j];
      assert i in multiset(grouped[g].1);
      var j' :| 0 <= j' < |grouped[g].1| && grouped[g].1[j'] == i;
      assert (i, grouped[g].0) in s;
      assert (i, grouped[g].0) in multiset(filtered);
    }
  }

  /** For any filter every kept position is shown. */
  lemma PipelineComplete<T>(xs: seq<T>, keep: T -> Option<int>, key: ((nat, int)) -> SortVal,
                            rows: seq<PosterRow>, k: SortKey, desc: bool, i: nat)
    requires i < |xs| && keep(xs[i]).Some?
    ensures i in Flatten(Pipeline(xs, keep, key, rows, k, desc))
  {
    var filtered := Filtered(xs, keep);
    var s := SortByKey(filtered, key);
    var grouped := Grouped(s);
    FilteredComplete(xs, keep, i);
    SortByKeyPerm(filtered, key);
    GroupedFlatten(s);
    DaysOrderedPerm(grouped, rows, k, desc);
    var p := (i, keep(xs[i]).value);
    assert p in multiset(s);
    IndexInIndices(s, p);
    assert i in multiset(Flatten(grouped));
  }

  lemma IndexInIndices(s: seq<(nat, int)>, p: (nat, int))
    requires p in s
    ensures p.0 in Indices(s)
  {
    var n :| 0 <= n < |s| && s[n] == p;
    IndicesAt(s, n);
  }

  /** The groups are non-empty, their buckets strictly ascend and no index
      appears twice. */
  lemma GroupedIndicesShape(f: GridFilter, rows: seq<PosterRow>, nowBucket: int, maxBucket: Option<int>)
    ensures forall g :: 0 <= g < |GroupedIndices(f, rows, nowBucket, maxBucket)| ==>
              GroupedIndices(f, rows, nowBucket, maxBucket)[g].1 != []
    ensures forall g, h :: 0 <= g < h < |GroupedIndices(f, rows, nowBucket, maxBucket)| ==>
              GroupedIndices(f, rows, nowBucket, maxBucket)[g].0 < GroupedIndices(f, rows, nowBucket, maxBucket)[h].0
    ensures NoDup(Flatten(GroupedIndices(f, rows, nowBucket, maxBucket)))
  {
    PipelineShape(rows, KeepOf(f, nowBucket, maxBucket), BucketTitleKey(rows), rows, f.sortKey, f.sortDesc);
  }

  /** Every shown index is a row kept under its group's bucket, so it airs
      that day inside the window and passes every filter; and every row
      kept is shown. */
  lemma GroupedIndicesExact(f: GridFilter, rows: seq<PosterRow>, nowBucket: int, maxBucket: Option<int>)
    ensures forall g, j :: 0 <= g < |GroupedIndices(f, rows, nowBucket, maxBucket)| &&
                           0 <= j < |GroupedIndices(f, rows, nowBucket, maxBucket)[g].1| ==>
              GroupedIndices(f, rows, nowBucket, maxBucket)[g].1[j] < |rows| &&
              RowBucket(f, rows[GroupedIndices(f, rows, nowBucket, maxBucket)[g].1[j]], nowBucket, maxBucket)
                == Some(GroupedIndices(f, rows, nowBucket, maxBucket)[g].0)
    ensures forall i :: 0 <= i < |rows| && RowBucket(f, rows[i], nowBucket, maxBucket).Some? ==>
              i in Flatten(GroupedIndices(f, rows, nowBucket, maxBucket))
  {
    var keep := KeepOf(f, nowBucket, maxBucket);
    PipelineSound(rows, keep, BucketTitleKey(rows), rows, f.sortKey, f.sortDesc);
    forall i | 0 <= i < |rows| && RowBucket(f, rows[i], nowBucket, maxBucket).Some?
      ensures i in Flatten(GroupedIndices(f, rows, nowBucket, maxBucket))
    {
      PipelineComplete(rows, keep, BucketTitleKey(rows), rows, f.sortKey, f.sortDesc, i);
    }
  }

  /** The indices of a day in key order, reversed when descending. */
  ghost predicate DayInOrder(day: seq<nat>, key: nat -> SortVal, desc: bool)
  {
    forall i, j :: 0 <= i < j < |day| ==>
      if desc then KeyLe(key(day[j]), key(day[i])) else KeyLe(key(day[i]), key(day[j]))
  }

  /** Within a day the indices follow the sort key, descending when
      `sort_desc` is set. */
  lemma GroupedIndicesOrder(f: GridFilter, rows: seq<PosterRow>, nowBucket: int, maxBucket: Option<int>, g: nat)
    requires g < |GroupedIndices(f, rows, nowBucket, maxBucket)|
    ensures DayInOrder(GroupedIndices(f, rows, nowBucket, maxBucket)[g].1, IntraKey(rows, f.sortKey), f.sortDesc)
  {
    var s := SortByKey(Filtered(rows, KeepOf(f, nowBucket, maxBucket)), BucketTitleKey(rows));
    var grouped := Grouped(s);
    DaysOrderedAt(grouped, rows, f.sortKey, f.sortDesc, g);
    DayOrderSorted(grouped[g].1, rows, f.sortKey, f.sortDesc);
  }

  // ---------------------------------------------------------- decades

  predicate Ascending(v: seq<int>)
  {
    forall i, j :: 0 <= i < j < |v| ==> v[i] < v[j]
  }

  /** `BTreeSet::insert` on the ascending sequence of a set of integers. */
  function InsertInt(v: seq<int>, x: int): (r: seq<int>)
    requires Ascending(v)
    ensures Ascending(r)
    ensures forall y :: y in r <==> y in v || y == x
  {
    if v == [] then [x]
    else if x == v[0] then v
    else if x < v[0] then [x] + v
    else
      var rest := InsertInt(v[1..], x);
      assert forall y :: y in rest ==> v[0] < y;
      [v[0]] + rest
  }

  /** The decades of the rows' years, ascending and without repeats. */
  function DecadesOf(rows: seq<PosterRow>): (r: seq<int>)
    ensures Ascending(r)
  {
    if rows == [] then []
    else
      var init := DecadesOf(rows[..|rows| - 1]);
      var row := rows[|rows| - 1];
      if row.year.Some? then InsertInt(init, Decade(row.year.value)) else init
  }

  /** `available_decades` holds exactly the decades of the rows' years. */
  lemma {:induction false} DecadesOfExactly(rows: seq<PosterRow>, d: int)
    ensures d in DecadesOf(rows) <==> exists k :: 0 <= k < |rows| && rows[k].year.Some? && d == Decade(rows[k].year.value)
  {
    if rows != [] {
      var init := rows[..|rows| - 1];
      DecadesOfExactly(init, d);
      assert forall k :: 0 <= k < |init| ==> init[k] == rows[k];
      if d in DecadesOf(rows) && d !in DecadesOf(init) {
        assert rows[|rows| - 1].year.Some? && d == Decade(rows[|rows| - 1].year.value);
      }
    }
  }

  /** `available_decades`. */
  method AvailableDecades(app: PexApp) returns (decades: seq<int>)
    ensures decades == DecadesOf(app.rows)
  {
    decades := [];
    var rows := app.rows;
    var i := 0;
    while i < |rows|
      invariant 0 <= i <= |rows|
      invariant decades == DecadesOf(rows[..i])
    {
      assert rows[..i + 1][..i] == rows[..i];
      if rows[i].year.Some? {
        decades := InsertInt(decades, Decade(rows[i].year.value));
      }
      i := i + 1;
    }
    assert rows[..i] == rows;
  }
}
