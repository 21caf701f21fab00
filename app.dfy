// The application state of src/app/mod.rs (`PexApp`) and the helpers
// defined there: owned and cache keys, grid navigation, keeping the
// selection valid, the owned-scan message log, progress accounting, the
// owned-date cutoff, scheduled flags, channel-icon request dedup and the
// IMDb / TMDb helpers. Widgets, textures, threads and channels are left out;
// what they deliver arrives as parameters.

module App {
  import opened Text
  import opened Types
  import opened Utils
  import opened Scheduled

  const MAX_DONE_PER_FRAME: nat := 12
  const MAX_MESSAGES: nat := 8
  const OWNED_BEFORE_CUTOFF_DEFAULT_STR: string := "2022-12-25"
  const OWNED_BEFORE_CUTOFF_DEFAULT_TS: nat := 1671926400

  // ---------------------------------------------------------------- keys

  /** `small_key`: the cache key of the small poster variant. */
  function SmallKey(base: string): (r: string)
    ensures |r| == |base| + 3 && r[..|base|] == base && r[|base|..] == "__s"
  {
    base + "__s"
  }

  /** Distinct base keys have distinct small keys. */
  lemma SmallKeyInjective(a: string, b: string)
    requires SmallKey(a) == SmallKey(b)
    ensures a == b
  {
    assert a == SmallKey(a)[..|a|];
  }

  /** At most the first eight characters of a hex digest. */
  function ShortDigest(hex: string): (r: string)
    ensures |r| <= 8 && |r| <= |hex| && r == hex[..|r|]
    ensures |hex| >= 8 ==> |r| == 8
  {
    if |hex| <= 8 then hex else hex[..8]
  }

  /** `make_owned_key`: the normalised title and the year (given, or else
      found in the title); without a year, `0` and a short md5 digest of the
      normalised title. `md5Hex` stands for `format!("{:x}", md5::compute(..))`. */
  function MakeOwnedKey(title: string, year: Option<int>, md5Hex: string -> string): (r: string)
    ensures var n := NormalizedTitle(title);
            |r| > |n| + 1 && r[..|n|] == n && r[|n|] == ':'
    ensures var n := NormalizedTitle(title);
            KeyYear(title, year).Some? ==> r[|n| + 1..] == IntToString(KeyYear(title, year).value)
    ensures var n := NormalizedTitle(title);
            KeyYear(title, year).None? ==> r[|n| + 1..] == "0" + [':'] + ShortDigest(md5Hex(n))
  {
    var normalized := NormalizedTitle(title);
    var y := if year.Some? then year else YearInStr(title);
    match y
    case Some(v) => normalized + [':'] + IntToString(v)
    case None => normalized + [':'] + "0" + [':'] + ShortDigest(md5Hex(normalized))
  }

  /** The year a key is made with: the given one, else the first one in
      the title. */
  function KeyYear(title: string, year: Option<int>): (r: Option<int>)
    ensures year.Some? ==> r == year
    ensures year.None? ==> r == YearInStr(title)
  {
    if year.Some? then year else YearInStr(title)
  }

  /** A normalised title holds no ':'. */
  lemma NormalizedHasNoColon(title: string)
    ensures ':' !in NormalizedTitle(title)
  {
    var n := NormalizedTitle(title);
    NormalizedTitleShape(title);
    forall i | 0 <= i < |n| ensures n[i] != ':' {
      assert LowerOrSpace(n[i]);
    }
  }

  /** With a year, an owned key has two ':'-separated fields: the
      normalised title and the year. */
  lemma OwnedKeyFieldsYear(title: string, year: Option<int>, md5Hex: string -> string)
    requires KeyYear(title, year).Some?
    ensures Split(MakeOwnedKey(title, year, md5Hex), ':')
            == [NormalizedTitle(title), IntToString(KeyYear(title, year).value)]
  {
    var n := NormalizedTitle(title);
    var v := KeyYear(title, year).value;
    NormalizedHasNoColon(title);
    IntToStringHasNoColon(v);
    assert MakeOwnedKey(title, year, md5Hex) == n + [':'] + IntToString(v);
    SplitConcat(n, ':', IntToString(v));
  }

  /** Without a year, an owned key has three fields: the normalised title,
      `0` and the short digest (for a digest without ':', as hex is). */
  lemma OwnedKeyFieldsDigest(title: string, year: Option<int>, md5Hex: string -> string)
    requires KeyYear(title, year).None? && ':' !in md5Hex(NormalizedTitle(title))
    ensures Split(MakeOwnedKey(title, year, md5Hex), ':')
            == [NormalizedTitle(title), "0", ShortDigest(md5Hex(NormalizedTitle(title)))]
  {
    var n := NormalizedTitle(title);
    var h := md5Hex(n);
    var d := ShortDigest(h);
    NormalizedHasNoColon(title);
    assert ':' !in d by {
      forall i | 0 <= i < |d| ensures d[i] != ':' {
        assert d[i] == h[i];
      }
    }
    assert MakeOwnedKey(title, year, md5Hex) == n + [':'] + ("0" + [':'] + d);
    SplitConcat(n, ':', "0" + [':'] + d);
    SplitConcat("0", ':', d);
  }

  lemma IntToStringHasNoColon(v: int)
    ensures ':' !in IntToString(v)
  {
    var s := IntToString(v);
    if v < 0 {
      var t := NatToString(-v);
      assert s == "-" + t;
      forall i | 0 <= i < |s| ensures s[i] != ':' {
        if i > 0 { assert s[i] == t[i - 1]; }
      }
    } else {
      forall i | 0 <= i < |s| ensures s[i] != ':' {
        assert IsAsciiDigit(s[i]);
      }
    }
  }

  /** Titles that normalise alike get the same key for the same given year. */
  lemma OwnedKeyOfNormalized(a: string, b: string, y: int, md5Hex: string -> string)
    requires NormalizedTitle(a) == NormalizedTitle(b)
    ensures MakeOwnedKey(a, Some(y), md5Hex) == MakeOwnedKey(b, Some(y), md5Hex)
  {
  }

  // ------------------------------------------------------------ sidecars

  /** The keys of some lines of a sidecar file: each line trimmed, the
      empty ones skipped. */
  function LineKeys(ls: seq<string>): (r: set<string>)
    ensures forall k :: k in r ==> k != []
  {
    if ls == [] then {}
    else
      var line := Trim(ls[|ls| - 1]);
      LineKeys(ls[..|ls| - 1]) + (if line != [] then {line} else {})
  }

  /** `load_sidecar_file`, given the text read from the file (None when it
      cannot be read): the set of its trimmed, non-empty lines. */
  function SidecarSet(text: Option<string>): (r: Option<set<string>>)
    ensures r.Some? <==> text.Some?
  {
    if text.None? then None else Some(LineKeys(Lines(text.value)))
  }

  /** The loop of `load_sidecar_file`. */
  method LoadSidecarFile(text: Option<string>) returns (r: Option<set<string>>)
    ensures r == SidecarSet(text)
  {
    if text.None? {
      return None;
    }
    var ls := Lines(text.value);
    var keys: set<string> := {};
    var i := 0;
    while i < |ls|
      invariant 0 <= i <= |ls|
      invariant keys == LineKeys(ls[..i])
    {
      LineKeysStep(ls, i);
      var line := Trim(ls[i]);
      if line != [] {
        keys := keys + {line};
      }
      i := i + 1;
    }
    assert ls[..i] == ls;
    return Some(keys);
  }

  lemma LineKeysStep(ls: seq<string>, i: nat)
    requires i < |ls|
    ensures LineKeys(ls[..i + 1]) == LineKeys(ls[..i]) + (if Trim(ls[i]) != [] then {Trim(ls[i])} else {})
  {
    assert ls[..i + 1][..i] == ls[..i];
    assert ls[..i + 1][i] == ls[i];
  }

  /** A key is read back from a line of its own when it is non-empty, has
      no surrounding whitespace and no line break. */
  predicate SidecarKey(k: string)
  {
    k != [] && Trim(k) == k && '\n' !in k
  }

  /** A text is in `LineKeys(ls)` exactly when some line trims to it. */
  lemma {:induction false} LineKeysMember(ls: seq<string>, k: string)
    ensures k in LineKeys(ls) <==> k != [] && exists i :: 0 <= i < |ls| && Trim(ls[i]) == k
  {
    if ls != [] {
      var init := ls[..|ls| - 1];
      LineKeysMember(init, k);
      if exists i :: 0 <= i < |init| && Trim(init[i]) == k {
        var i :| 0 <= i < |init| && Trim(init[i]) == k;
        assert Trim(ls[i]) == k;
      }
      if exists i :: 0 <= i < |ls| && Trim(ls[i]) == k {
        var i :| 0 <= i < |ls| && Trim(ls[i]) == k;
        if i < |init| {
          assert Trim(init[i]) == k;
        }
      }
    }
  }

  /** Lines that are keys already read back as exactly those keys. */
  lemma LineKeysOfKeys(ls: seq<string>, k: string)
    requires forall i :: 0 <= i < |ls| ==> SidecarKey(ls[i])
    ensures k in LineKeys(ls) <==> k in ls
  {
    LineKeysMember(ls, k);
    if k in ls {
      var i :| 0 <= i < |ls| && ls[i] == k;
      assert Trim(ls[i]) == k;
    }
  }

  // ---------------------------------------------------------- navigation

  datatype NavDirection = Left | Right | Up | Down

  /** `idx` is somewhere in the grid. */
  predicate IsIdxInGrid(grid: seq<seq<nat>>, idx: nat): (r: bool)
    ensures r <==> exists i, j :: 0 <= i < |grid| && 0 <= j < |grid[i]| && grid[i][j] == idx
  {
    exists i :: 0 <= i < |grid| && idx in grid[i]
  }

  /** The first position of `x` in `row`. */
  function IndexIn(row: seq<nat>, x: nat): (j: nat)
    requires x in row
    ensures j < |row| && row[j] == x && x !in row[..j]
  {
    if row[0] == x then 0
    else
      var j := IndexIn(row[1..], x);
      assert row[1..][..j] == row[1..j + 1];
      1 + j
  }

  /** `find_grid_position`, scanning from row `from`. */
  function FindGridPositionFrom(grid: seq<seq<nat>>, idx: nat, from: nat): (r: Option<(nat, nat)>)
    requires from <= |grid|
    ensures r.Some? ==> from <= r.value.0 < |grid| && r.value.1 < |grid[r.value.0]|
                        && grid[r.value.0][r.value.1] == idx && idx !in grid[r.value.0][..r.value.1]
                        && forall i :: from <= i < r.value.0 ==> idx !in grid[i]
    ensures r.None? ==> forall i :: from <= i < |grid| ==> idx !in grid[i]
    decreases |grid| - from
  {
    if from == |grid| then None
    else if idx in grid[from] then Some((from, IndexIn(grid[from], idx)))
    else FindGridPositionFrom(grid, idx, from + 1)
  }

  /** `find_grid_position`: the first row holding `idx`, and its first
      column there. */
  function FindGridPosition(grid: seq<seq<nat>>, idx: nat): (r: Option<(nat, nat)>)
    ensures r.Some? ==> r.value.0 < |grid| && r.value.1 < |grid[r.value.0]|
                        && grid[r.value.0][r.value.1] == idx && idx !in grid[r.value.0][..r.value.1]
                        && forall i :: 0 <= i < r.value.0 ==> idx !in grid[i]
    ensures r.None? <==> !IsIdxInGrid(grid, idx)
  {
    FindGridPositionFrom(grid, idx, 0)
  }

  /** `compute_nav_target`: the neighbour of `current` in direction `dir`;
      nothing when `current` is not in the grid. */
  function ComputeNavTarget(grid: seq<seq<nat>>, current: nat, dir: NavDirection): (r: Option<nat>)
    ensures r.None? <==> !IsIdxInGrid(grid, current)
  {
    match FindGridPosition(grid, current)
    case None => None
    case Some(pos) =>
      var (ri, ci) := pos;
      var row := grid[ri];
      match dir
      case Left =>
        if ci > 0 then Some(row[ci - 1])
        else if ri > 0 && grid[ri - 1] != [] then Some(grid[ri - 1][|grid[ri - 1]| - 1])
        else Some(current)
      case Right =>
        if ci + 1 < |row| then Some(row[ci + 1])
        else if ri + 1 < |grid| && grid[ri + 1] != [] then Some(grid[ri + 1][0])
        else Some(current)
      case Up =>
        if ri == 0 || grid[ri - 1] == [] then Some(current)
        else Some(grid[ri - 1][Min(ci, |grid[ri - 1]| - 1)])
      case Down =>
        if ri + 1 >= |grid| || grid[ri + 1] == [] then Some(current)
        else Some(grid[ri + 1][Min(ci, |grid[ri + 1]| - 1)])
  }

  function Min(a: nat, b: nat): nat { if a < b then a else b }

  /** Navigation never leaves the grid: from a cell it reaches a cell. */
  lemma NavStaysInGrid(grid: seq<seq<nat>>, current: nat, dir: NavDirection)
    requires IsIdxInGrid(grid, current)
    ensures ComputeNavTarget(grid, current, dir).Some?
    ensures IsIdxInGrid(grid, ComputeNavTarget(grid, current, dir).value)
  {
    var pos := FindGridPosition(grid, current).value;
    var (ri, ci) := pos;
    var t := ComputeNavTarget(grid, current, dir).value;
    var i, j := ri, ci;
    match dir
    case Left =>
      if ci > 0 { j := ci - 1; }
      else if ri > 0 && grid[ri - 1] != [] { i, j := ri - 1, |grid[ri - 1]| - 1; }
    case Right =>
      if ci + 1 < |grid[ri]| { j := ci + 1; }
      else if ri + 1 < |grid| && grid[ri + 1] != [] { i, j := ri + 1, 0; }
    case Up =>
      if !(ri == 0 || grid[ri - 1] == []) { i, j := ri - 1, Min(ci, |grid[ri - 1]| - 1); }
    case Down =>
      if !(ri + 1 >= |grid| || grid[ri + 1] == []) { i, j := ri + 1, Min(ci, |grid[ri + 1]| - 1); }
    assert grid[i][j] == t;
    assert t in grid[i];
  }

  /** Every index appears at most once in the grid. */
  predicate GridDistinct(grid: seq<seq<nat>>)
  {
    forall i, j, k, l :: (0 <= i < |grid| && 0 <= j < |grid[i]| && 0 <= k < |grid| && 0 <= l < |grid[k]|
                          && grid[i][j] == grid[k][l]) ==> i == k && j == l
  }

  /** In a grid without repeats, a cell's index is found at that cell. */
  lemma PositionOfCell(grid: seq<seq<nat>>, i: nat, j: nat)
    requires GridDistinct(grid) && i < |grid| && j < |grid[i]|
    ensures FindGridPosition(grid, grid[i][j]) == Some((i, j))
  {
    var x := grid[i][j];
    assert x in grid[i];
    var p := FindGridPosition(grid, x).value;
    assert grid[p.0][p.1] == grid[i][j];
  }

  /** Without repeats, Left undoes Right: moving right and back returns to
      the start, across row ends too, unless Right had nowhere to go. */
  lemma NavLeftUndoesRight(grid: seq<seq<nat>>, i: nat, j: nat)
    requires GridDistinct(grid) && i < |grid| && j < |grid[i]|
    requires j + 1 < |grid[i]| || (i + 1 < |grid| && grid[i + 1] != [])
    ensures var r := ComputeNavTarget(grid, grid[i][j], Right).value;
            ComputeNavTarget(grid, r, Left) == Some(grid[i][j])
  {
    PositionOfCell(grid, i, j);
    if j + 1 < |grid[i]| {
      PositionOfCell(grid, i, j + 1);
    } else {
      PositionOfCell(grid, i + 1, 0);
    }
  }

  /** At the left end of the first row Left stays put, and so does Right at
      the right end of the last row. */
  lemma NavEdges(grid: seq<seq<nat>>, current: nat)
    requires FindGridPosition(grid, current).Some?
    ensures FindGridPosition(grid, current).value == (0, 0) ==> ComputeNavTarget(grid, current, Left) == Some(current)
    ensures FindGridPosition(grid, current).value.0 == 0 ==> ComputeNavTarget(grid, current, Up) == Some(current)
    ensures var p := FindGridPosition(grid, current).value;
            p.0 == |grid| - 1 && p.1 == |grid[p.0]| - 1 ==> ComputeNavTarget(grid, current, Right) == Some(current)
    ensures FindGridPosition(grid, current).value.0 == |grid| - 1 ==> ComputeNavTarget(grid, current, Down) == Some(current)
  {
  }

  /** Up and Down keep the column when the target row is long enough, and
      clamp it to that row's last cell otherwise. */
  lemma NavVerticalColumn(grid: seq<seq<nat>>, current: nat)
    requires FindGridPosition(grid, current).Some?
    ensures var (ri, ci) := FindGridPosition(grid, current).value;
            ri > 0 && grid[ri - 1] != [] ==>
              ComputeNavTarget(grid, current, Up)
              == Some(if ci < |grid[ri - 1]| then grid[ri - 1][ci] else grid[ri - 1][|grid[ri - 1]| - 1])
    ensures var (ri, ci) := FindGridPosition(grid, current).value;
            ri + 1 < |grid| && grid[ri + 1] != [] ==>
              ComputeNavTarget(grid, current, Down)
              == Some(if ci < |grid[ri + 1]| then grid[ri + 1][ci] else grid[ri + 1][|grid[ri + 1]| - 1])
  {
  }

  // ----------------------------------------------------------- selection

  /** Some group lists `idx`. */
  predicate InGroups(groups: seq<(int, seq<nat>)>, idx: nat)
  {
    exists k :: 0 <= k < |groups| && idx in groups[k].1
  }

  /** The first index of the first non-empty group. */
  function FirstInGroups(groups: seq<(int, seq<nat>)>): (r: Option<nat>)
    ensures r.Some? ==> InGroups(groups, r.value)
    ensures r.None? <==> forall k :: 0 <= k < |groups| ==> groups[k].1 == []
  {
    if groups == [] then None
    else if groups[0].1 != [] then
      assert groups[0].1[0] in groups[0].1;
      Some(groups[0].1[0])
    else
      var r := FirstInGroups(groups[1..]);
      InGroupsTail(groups, r);
      assert forall k :: 1 <= k < |groups| ==> groups[k] == groups[1..][k - 1];
      r
  }

  lemma InGroupsTail(groups: seq<(int, seq<nat>)>, r: Option<nat>)
    requires groups != []
    requires r.Some? ==> InGroups(groups[1..], r.value)
    ensures r.Some? ==> InGroups(groups, r.value)
  {
    if r.Some? {
      var k :| 0 <= k < |groups[1..]| && r.value in groups[1..][k].1;
      assert r.value in groups[k + 1].1;
    }
  }

  /** A message from the owned scan: the newest first, at most eight kept. */
  function PushMessage(log: seq<string>, msg: string): (r: seq<string>)
    ensures |r| == if |log| + 1 <= MAX_MESSAGES then |log| + 1 else MAX_MESSAGES
    ensures r[0] == msg
    ensures forall k :: 1 <= k < |r| ==> r[k] == log[k - 1]
  {
    var all := [msg] + log;
    if |all| <= MAX_MESSAGES then all else all[..MAX_MESSAGES]
  }

  /** The text of `tmdb_release_year`'s input up to the first '-', as a
      year. */
  function TmdbReleaseYear(date: Option<string>): (r: Option<int>)
    ensures r.Some? ==> date.Some? && I32_MIN <= r.value <= I32_MAX
  {
    match date
    case None => None
    case Some(d) => ParseI32(Split(d, '-')[0])
  }

  /** A "YYYY-MM-DD" release date gives back its year. */
  lemma TmdbReleaseYearOfDate(y: nat, rest: string)
    requires y <= I32_MAX
    ensures TmdbReleaseYear(Some(IntToString(y) + ['-'] + rest)) == Some(y)
  {
    var s := IntToString(y);
    assert '-' !in s by {
      forall i | 0 <= i < |s| ensures s[i] != '-' { assert IsAsciiDigit(s[i]); }
    }
    SplitConcat(s, '-', rest);
    ParseIntToString(y, I32_MIN, I32_MAX);
  }

  /** One TMDb search result; `voteAverage` is the JSON float. */
  datatype TmdbMovie = TmdbMovie(voteAverage: real, voteCount: nat, releaseDate: Option<string>)

  predicate UsableRating(m: TmdbMovie) { m.voteAverage > 0.0 && m.voteCount != 0 }

  /** What `extract_tmdb_rating` picks: the first usable result released in
      the target year, or else the first usable result. */
  function ChosenRating(movies: seq<TmdbMovie>, target: Option<int>): (r: Option<TmdbMovie>)
    ensures r.Some? ==> r.value in movies && UsableRating(r.value)
  {
    match FirstUsableInYear(movies, target)
    case Some(m) => Some(m)
    case None => FirstUsable(movies)
  }

  function FirstUsable(movies: seq<TmdbMovie>): (r: Option<TmdbMovie>)
    ensures r.Some? ==> r.value in movies && UsableRating(r.value)
    ensures r.None? <==> forall k :: 0 <= k < |movies| ==> !UsableRating(movies[k])
  {
    if movies == [] then None
    else if UsableRating(movies[0]) then Some(movies[0])
    else
      assert forall k :: 1 <= k < |movies| ==> movies[k] == movies[1..][k - 1];
      FirstUsable(movies[1..])
  }

  predicate InTargetYear(m: TmdbMovie, target: Option<int>)
  {
    target.Some? && TmdbReleaseYear(m.releaseDate) == target
  }

  function FirstUsableInYear(movies: seq<TmdbMovie>, target: Option<int>): (r: Option<TmdbMovie>)
    ensures r.Some? ==> r.value in movies && UsableRating(r.value) && InTargetYear(r.value, target)
    ensures r.None? <==> forall k :: 0 <= k < |movies| ==> !(UsableRating(movies[k]) && InTargetYear(movies[k], target))
  {
    if movies == [] then None
    else if UsableRating(movies[0]) && InTargetYear(movies[0], target) then Some(movies[0])
    else
      assert forall k :: 1 <= k < |movies| ==> movies[k] == movies[1..][k - 1];
      FirstUsableInYear(movies[1..], target)
  }

  /** `extract_tmdb_rating` up to the formatting of the chosen average and
      vote count. */
  method ExtractTmdbRating(movies: seq<TmdbMovie>, target: Option<int>) returns (r: Option<(real, nat)>)
    ensures r == RatingOf(ChosenRating(movies, target))
  {
    var fallback: Option<(real, nat)> := None;
    var i := 0;
    while i < |movies|
      invariant 0 <= i <= |movies|
      invariant FirstUsableInYear(movies[..i], target).None?
      invariant fallback == RatingOf(FirstUsable(movies[..i]))
    {
      var m := movies[i];
      FirstsExtend(movies, i, target);
      if !UsableRating(m) {
        i := i + 1;
        continue;
      }
      if InTargetYear(m, target) {
        FirstFound(movies, i, target);
        return Some((m.voteAverage, m.voteCount));
      }
      if fallback.None? {
        fallback := Some((m.voteAverage, m.voteCount));
      }
      i := i + 1;
    }
    assert movies[..|movies|] == movies;
    return fallback;
  }

  /** The average and vote count that get formatted. */
  function RatingOf(m: Option<TmdbMovie>): (r: Option<(real, nat)>)
    ensures r.Some? <==> m.Some?
  {
    if m.None? then None else Some((m.value.voteAverage, m.value.voteCount))
  }

  lemma {:induction false} FirstsExtend(movies: seq<TmdbMovie>, i: nat, target: Option<int>)
    requires i < |movies|
    requires FirstUsableInYear(movies[..i], target).None?
    ensures !(UsableRating(movies[i]) && InTargetYear(movies[i], target)) ==> FirstUsableInYear(movies[..i + 1], target).None?
    ensures FirstUsable(movies[..i]).Some? ==> FirstUsable(movies[..i + 1]) == FirstUsable(movies[..i])
    ensures FirstUsable(movies[..i]).None? && UsableRating(movies[i]) ==> FirstUsable(movies[..i + 1]) == Some(movies[i])
    ensures FirstUsable(movies[..i]).None? && !UsableRating(movies[i]) ==> FirstUsable(movies[..i + 1]).None?
  {
    var p := movies[..i + 1];
    assert p[..i] == movies[..i];
    PrefixFirsts(p, i, target);
  }

  /** The first-match functions over `s` and its prefix `s[..i]` agree when
      the prefix already has a match, and otherwise look at `s[i]`. */
  lemma {:induction false} PrefixFirsts(s: seq<TmdbMovie>, i: nat, target: Option<int>)
    requires i + 1 == |s|
    ensures FirstUsable(s[..i]).Some? ==> FirstUsable(s) == FirstUsable(s[..i])
    ensures FirstUsable(s[..i]).None? ==> FirstUsable(s) == (if UsableRating(s[i]) then Some(s[i]) else None)
    ensures FirstUsableInYear(s[..i], target).None? ==>
              FirstUsableInYear(s, target) == (if UsableRating(s[i]) && InTargetYear(s[i], target) then Some(s[i]) else None)
    decreases i
  {
    if i > 0 {
      assert s[1..][..i - 1] == s[..i][1..];
      PrefixFirsts(s[1..], i - 1, target);
    }
  }

  lemma FirstFound(movies: seq<TmdbMovie>, i: nat, target: Option<int>)
    requires i < |movies| && UsableRating(movies[i]) && InTargetYear(movies[i], target)
    requires FirstUsableInYear(movies[..i], target).None?
    ensures ChosenRating(movies, target) == Some(movies[i])
  {
    assert movies == movies[..i] + movies[i..];
    FirstYearConcat(movies[..i], movies[i..], target);
  }

  lemma {:induction false} FirstYearConcat(a: seq<TmdbMovie>, b: seq<TmdbMovie>, target: Option<int>)
    requires FirstUsableInYear(a, target).None?
    ensures FirstUsableInYear(a + b, target) == FirstUsableInYear(b, target)
    decreases |a|
  {
    if a != [] {
      assert (a + b)[0] == a[0];
      assert !(UsableRating(a[0]) && InTargetYear(a[0], target));
      assert FirstUsableInYear(a[1..], target).None?;
      assert (a + b)[1..] == a[1..] + b;
      assert FirstUsableInYear(a + b, target) == FirstUsableInYear((a + b)[1..], target);
      FirstYearConcat(a[1..], b, target);
    } else {
      assert a + b == b;
    }
  }

  /** `format_tmdb_rating`'s vote count wording. */
  function VotesLabel(count: nat): (r: string)
    ensures count == 1 <==> r == "1 vote"
  {
    if count == 0 then "0 votes"
    else if count == 1 then "1 vote"
    else NatToString(count) + " votes"
  }

  // ------------------------------------------------------------ IMDb ids

  /** The leading ASCII digits of `s`. */
  function DigitRun(s: string): (r: string)
    ensures AllDigits(r) && |r| <= |s| && r == s[..|r|]
    ensures |r| < |s| ==> !IsAsciiDigit(s[|r|])
  {
    if s == [] || !IsAsciiDigit(s[0]) then []
    else
      var t := DigitRun(s[1..]);
      assert s[1..][..|t|] == s[1..|t| + 1];
      [s[0]] + t
  }

  /** What `imdb_id_from_guid` returns: "tt" and the digits that follow
      the first "tt" (in any case), when there is at least one. */
  function ImdbIdOf(guid: string): (r: Option<string>)
    ensures r.Some? ==> |r.value| > 2 && r.value[..2] == "tt" && AllDigits(r.value[2..])
  {
    match Find(ToAsciiLower(guid), "tt")
    case None => None
    case Some(pos) =>
      var run := DigitRun(guid[pos + 2..]);
      if run == [] then None else Some("tt" + run)
  }

  /** `imdb_id_from_guid`. */
  method ImdbIdFromGuid(guid: string) returns (r: Option<string>)
    ensures r == ImdbIdOf(guid)
  {
    var lower := ToAsciiLower(guid);
    var found := Find(lower, "tt");
    if found.None? {
      return None;
    }
    var rest := guid[found.value + 2..];
    var id := PushDigits("tt", rest);
    if |id| > 2 {
      return Some(id);
    }
    return None;
  }

  /** The `for ch in ..` loop of `imdb_id_from_guid`: append characters
      while they are ASCII digits. */
  method PushDigits(id0: string, rest: string) returns (id: string)
    ensures id == id0 + DigitRun(rest)
  {
    id := id0;
    var i := 0;
    while i < |rest| && IsAsciiDigit(rest[i])
      invariant 0 <= i <= |DigitRun(rest)|
      invariant id == id0 + rest[..i]
    {
      assert DigitRun(rest)[..i] == rest[..i];
      DigitRunCovers(rest, i);
      assert rest[..i + 1] == rest[..i] + [rest[i]];
      id := id + [rest[i]];
      i := i + 1;
    }
    DigitRunStops(rest, i);
    assert rest[..i] == DigitRun(rest);
  }

  lemma DigitRunStops(s: string, i: nat)
    requires i <= |DigitRun(s)| && (i == |s| || !IsAsciiDigit(s[i]))
    ensures i == |DigitRun(s)|
  {
    var d := DigitRun(s);
    assert forall k :: 0 <= k < |d| ==> s[k] == d[k] && IsAsciiDigit(d[k]);
  }

  lemma {:induction false} DigitRunCovers(s: string, i: nat)
    requires i < |s| && IsAsciiDigit(s[i]) && i <= |DigitRun(s)|
    ensures i + 1 <= |DigitRun(s)|
    decreases i
  {
    if i > 0 {
      assert s[1..][i - 1] == s[i];
      DigitRunCovers(s[1..], i - 1);
    }
  }

  /** A guid carrying "tt" and digits up to a non-digit gives that id. */
  lemma ImdbIdOfPrefixed(prefix: string, digits: string, rest: string)
    requires Find(ToAsciiLower(prefix + "tt" + digits + rest), "tt") == Some(|prefix|)
    requires digits != [] && AllDigits(digits)
    requires rest == [] || !IsAsciiDigit(rest[0])
    ensures ImdbIdOf(prefix + "tt" + digits + rest) == Some("tt" + digits)
  {
    var g := prefix + "tt" + digits + rest;
    assert g[|prefix| + 2..] == digits + rest;
    DigitRunOf(digits, rest);
  }

  lemma {:induction false} DigitRunOf(digits: string, rest: string)
    requires AllDigits(digits)
    requires rest == [] || !IsAsciiDigit(rest[0])
    ensures DigitRun(digits + rest) == digits
    decreases |digits|
  {
    if digits != [] {
      assert (digits + rest)[1..] == digits[1..] + rest;
      DigitRunOf(digits[1..], rest);
    } else {
      assert digits + rest == rest;
    }
  }

  // --------------------------------------------------------------- state

  /** The fields of `PexApp` that the modelled logic reads and writes. */
  class PexApp {
    var rows: seq<PosterRow>
    var currentRange: DayRange

    var bootPhase: BootPhase
    var prepStarted: bool
    /** Whether `prep_rx` holds a receiver. */
    var hasPrepRx: bool
    /** The hotset manifest read at start-up: row key to cached file path. */
    var lastHotset: Option<map<string, string>>

    var prefetchStarted: bool
    var totalTargets: nat
    var completed: nat
    var failed: nat
    var loadingProgress: real
    var stage4CompleteMessage: Option<string>
    var lastItemMsg: string
    /** Whether `done_rx` holds a receiver. */
    var hasDoneRx: bool

    var hideOwned: bool
    var dimOwned: bool

    var ownedKeys: Option<set<string>>
    var ownedHdKeys: Option<set<string>>
    var ownedModified: Option<map<string, Option<nat>>>
    var ownedScanInProgress: bool
    var ownedScanMessages: seq<string>

    var scheduledIndex: Option<ScheduledIndex>

    var searchQuery: string
    var filterHdOnly: bool
    var filterOwnedBeforeCutoff: bool
    var ownedBeforeCutoffTs: nat
    var ownedBeforeCutoffInput: string
    var ownedBeforeCutoffValid: bool

    /** The `BTreeSet`s of selected channels and genres, in order. */
    var selectedChannels: seq<string>
    var selectedGenres: seq<string>
    var selectedDecades: set<int>

    var channelIconTextures: set<string>
    var channelIconPending: set<string>

    var sortKey: SortKey
    var sortDesc: bool
    var workerCountUi: nat
    var prefsDirty: bool

    var selectedIdx: Option<nat>
    var gridRows: seq<seq<nat>>
    var scrollToIdx: Option<nat>

    /** `PexApp::new`, for the fields modelled here, given the hotset
        manifest that start-up reads and the texts of the two owned sidecar
        files (each None when it cannot be read). */
    constructor (hotset: Option<map<string, string>>, keysTxt: Option<string>, hdTxt: Option<string>)
      ensures rows == [] && currentRange == Two && bootPhase == Starting && !prepStarted
      ensures !hasPrepRx && lastHotset == hotset
      ensures !prefetchStarted && totalTargets == 0 && completed == 0 && failed == 0
      ensures lastItemMsg == "" && !hasDoneRx
      ensures ownedKeys == SidecarSet(keysTxt) && ownedHdKeys == SidecarSet(hdTxt)
      ensures ownedModified.None? && !ownedScanInProgress
      ensures ownedScanMessages == [] && scheduledIndex.None?
      ensures ownedBeforeCutoffTs == OWNED_BEFORE_CUTOFF_DEFAULT_TS && ownedBeforeCutoffInput == OWNED_BEFORE_CUTOFF_DEFAULT_STR
      ensures ownedBeforeCutoffValid
      ensures selectedChannels == [] && selectedGenres == [] && selectedDecades == {}
      ensures channelIconPending == {} && selectedIdx.None? && gridRows == [] && scrollToIdx.None?
    {
      rows := [];
      currentRange := Two;
      bootPhase := Starting;
      prepStarted := false;
      hasPrepRx := false;
      lastHotset := hotset;
      prefetchStarted := false;
      totalTargets := 0;
      completed := 0;
      failed := 0;
      loadingProgress := 0.0;
      stage4CompleteMessage := None;
      lastItemMsg := "";
      hasDoneRx := false;
      hideOwned := false;
      dimOwned := false;
      var keys := LoadSidecarFile(keysTxt);
      var hdKeys := LoadSidecarFile(hdTxt);
      ownedKeys := keys;
      ownedHdKeys := hdKeys;
      ownedModified := None;
      ownedScanInProgress := false;
      ownedScanMessages := [];
      scheduledIndex := None;
      searchQuery := "";
      filterHdOnly := false;
      filterOwnedBeforeCutoff := false;
      ownedBeforeCutoffTs := OWNED_BEFORE_CUTOFF_DEFAULT_TS;
      ownedBeforeCutoffInput := OWNED_BEFORE_CUTOFF_DEFAULT_STR;
      ownedBeforeCutoffValid := true;
      selectedChannels := [];
      selectedGenres := [];
      selectedDecades := {};
      channelIconTextures := {};
      channelIconPending := {};
      sortKey := Time;
      sortDesc := false;
      workerCountUi := 16;
      prefsDirty := false;
      selectedIdx := None;
      gridRows := [];
      scrollToIdx := None;
    }

    /** `in_flight`: targets not yet completed or failed, never below 0. */
    function InFlight(): (n: nat)
      reads this
      ensures n <= totalTargets
      ensures n + completed + failed >= totalTargets
      ensures n == 0 <==> completed + failed >= totalTargets
      ensures n > 0 ==> n + completed + failed == totalTargets
    {
      if completed + failed >= totalTargets then 0 else totalTargets - (completed + failed)
    }

    /** `row_owned_is_hd`: the owned HD key set holds the row's key. */
    predicate RowOwnedIsHd(row: PosterRow)
      reads this
    {
      ownedHdKeys.Some? && row.ownedKey in ownedHdKeys.value
    }

    /** `set_owned_cutoff_from_str`; `parseCutoff` stands for
        `parse_owned_cutoff` (chrono). */
    method SetOwnedCutoffFromStr(input: string, parseCutoff: string -> Option<nat>) returns (ok: bool)
      modifies this`ownedBeforeCutoffTs, this`ownedBeforeCutoffInput, this`ownedBeforeCutoffValid
      ensures ok <==> parseCutoff(input).Some?
      ensures ok ==> ownedBeforeCutoffTs == parseCutoff(input).value && ownedBeforeCutoffInput == Trim(input)
      ensures !ok ==> ownedBeforeCutoffTs == old(ownedBeforeCutoffTs) && ownedBeforeCutoffInput == input
      ensures ownedBeforeCutoffValid == ok
      ensures rows == old(rows) && filterOwnedBeforeCutoff == old(filterOwnedBeforeCutoff)
    {
      var parsed := parseCutoff(input);
      if parsed.Some? {
        ownedBeforeCutoffTs := parsed.value;
        ownedBeforeCutoffInput := Trim(input);
        ownedBeforeCutoffValid := true;
        return true;
      } else {
        ownedBeforeCutoffInput := input;
        ownedBeforeCutoffValid := false;
        return false;
      }
    }

    /** `reset_owned_cutoff_to_default`. */
    method ResetOwnedCutoffToDefault()
      modifies this`ownedBeforeCutoffTs, this`ownedBeforeCutoffInput, this`ownedBeforeCutoffValid
      ensures ownedBeforeCutoffTs == OWNED_BEFORE_CUTOFF_DEFAULT_TS
      ensures ownedBeforeCutoffInput == OWNED_BEFORE_CUTOFF_DEFAULT_STR
      ensures ownedBeforeCutoffValid
      ensures rows == old(rows)
    {
      ownedBeforeCutoffTs := OWNED_BEFORE_CUTOFF_DEFAULT_TS;
      ownedBeforeCutoffInput := OWNED_BEFORE_CUTOFF_DEFAULT_STR;
      ownedBeforeCutoffValid := true;
    }

    /** The key handling of `handle_keyboard_navigation`: `focused` is
        whether a text widget has focus, `dir` the arrow pressed. */
    method HandleKeyboardNavigation(focused: bool, dir: Option<NavDirection>)
      modifies this`selectedIdx, this`scrollToIdx
      ensures gridRows == old(gridRows) && rows == old(rows)
      ensures old(gridRows) == [] || focused || dir.None? ==> selectedIdx == old(selectedIdx) && scrollToIdx == old(scrollToIdx)
      ensures gridRows != [] && !focused && dir.Some? && !SelectionInGrid(gridRows, old(selectedIdx)) ==>
                if gridRows[0] != [] then selectedIdx == Some(gridRows[0][0]) && scrollToIdx == selectedIdx
                else selectedIdx.None? && scrollToIdx == old(scrollToIdx)
      ensures gridRows != [] && !focused && dir.Some? && SelectionInGrid(gridRows, old(selectedIdx)) ==>
                var next := ComputeNavTarget(gridRows, old(selectedIdx).value, dir.value);
                if next.Some? && next != old(selectedIdx) then selectedIdx == next && scrollToIdx == next
                else selectedIdx == old(selectedIdx) && scrollToIdx == old(scrollToIdx)
      ensures selectedIdx.Some? && selectedIdx != old(selectedIdx) ==> IsIdxInGrid(gridRows, selectedIdx.value)
      ensures selectedIdx != old(selectedIdx) && selectedIdx.Some? ==> scrollToIdx == selectedIdx
    {
      if gridRows == [] || focused || dir.None? {
        return;
      }
      if selectedIdx.Some? && !IsIdxInGrid(gridRows, selectedIdx.value) {
        selectedIdx := None;
      }
      if selectedIdx.None? {
        if gridRows[0] != [] {
          var first := gridRows[0][0];
          assert first in gridRows[0];
          selectedIdx := Some(first);
          scrollToIdx := Some(first);
        }
        return;
      }
      var current := selectedIdx.value;
      var next := ComputeNavTarget(gridRows, current, dir.value);
      if next.Some? && next.value != current {
        NavStaysInGrid(gridRows, current, dir.value);
        selectedIdx := next;
        scrollToIdx := next;
      }
    }

    /** `sync_selection_with_groups`. */
    method SyncSelectionWithGroups(groups: seq<(int, seq<nat>)>)
      modifies this`selectedIdx, this`scrollToIdx
      ensures old(selectedIdx).None? || InGroups(groups, old(selectedIdx).value) ==>
                selectedIdx == old(selectedIdx) && scrollToIdx == old(scrollToIdx)
      ensures old(selectedIdx).Some? && !InGroups(groups, old(selectedIdx).value) ==>
                selectedIdx == FirstInGroups(groups)
                && scrollToIdx == (if old(scrollToIdx).None? then FirstInGroups(groups) else old(scrollToIdx))
      ensures selectedIdx.Some? && old(selectedIdx).Some? ==> InGroups(groups, selectedIdx.value)
      ensures rows == old(rows) && gridRows == old(gridRows)
    {
      if selectedIdx.None? {
        return;
      }
      var current := selectedIdx.value;
      if InGroups(groups, current) {
        return;
      }
      var first := FirstInGroups(groups);
      if first.Some? {
        selectedIdx := first;
        if scrollToIdx.None? {
          scrollToIdx := first;
        }
      } else {
        selectedIdx := None;
      }
    }

    /** `record_owned_message`: push to the front, then drop from the back
        while more than eight remain. */
    method RecordOwnedMessage(msg: string)
      modifies this`ownedScanMessages
      ensures ownedScanMessages == PushMessage(old(ownedScanMessages), msg)
      ensures rows == old(rows) && ownedScanInProgress == old(ownedScanInProgress)
      ensures ownedKeys == old(ownedKeys) && ownedHdKeys == old(ownedHdKeys) && ownedModified == old(ownedModified)
      ensures bootPhase == old(bootPhase) && prefsDirty == old(prefsDirty)
    {
      var log := [msg] + ownedScanMessages;
      var all := log;
      while |log| > MAX_MESSAGES
        invariant |log| >= MAX_MESSAGES || log == all
        invariant |log| <= |all| && log == all[..|log|]
        invariant |all| > MAX_MESSAGES ==> |log| >= MAX_MESSAGES
      {
        log := log[..|log| - 1];
      }
      ownedScanMessages := log;
    }

    /** `apply_scheduled_flags`: clear every flag, then set it on each row
        the index reports as scheduled. */
    method ApplyScheduledFlags()
      modifies this`rows
      ensures |rows| == |old(rows)|
      ensures forall i :: 0 <= i < |rows| ==>
                rows[i] == old(rows)[i].(scheduled := RowScheduled(scheduledIndex, old(rows)[i]))
      ensures scheduledIndex.None? ==> forall i :: 0 <= i < |rows| ==> !rows[i].scheduled
      ensures scheduledIndex == old(scheduledIndex)
    {
      var i := 0;
      var rs := rows;
      while i < |rs|
        invariant 0 <= i <= |rs| && |rs| == |old(rows)|
        invariant forall k :: 0 <= k < i ==> rs[k] == old(rows)[k].(scheduled := false)
        invariant forall k :: i <= k < |rs| ==> rs[k] == old(rows)[k]
      {
        rs := rs[i := rs[i].(scheduled := false)];
        i := i + 1;
      }
      rows := rs;
      if scheduledIndex.None? {
        return;
      }
      var index := scheduledIndex.value;
      i := 0;
      while i < |rs|
        invariant 0 <= i <= |rs| && |rs| == |old(rows)|
        invariant forall k :: 0 <= k < i ==> rs[k] == old(rows)[k].(scheduled := RowScheduled(scheduledIndex, old(rows)[k]))
        invariant forall k :: i <= k < |rs| ==> rs[k] == old(rows)[k].(scheduled := false)
      {
        var row := rs[i];
        if index.IsScheduled(row.guid, row.title, row.year, row.airing) {
          rs := rs[i := row.(scheduled := true)];
        }
        i := i + 1;
      }
      rows := rs;
    }

    /** `refresh_scheduled_index` given what `load_scheduled_index`
        returned (`None` for an error): an empty index is dropped, then the
        flags are applied. */
    method RefreshScheduledIndex(loaded: Option<ScheduledIndex>)
      modifies this`scheduledIndex, this`rows
      ensures loaded.None? || loaded.value.IsEmpty() ==> scheduledIndex.None?
      ensures loaded.Some? && !loaded.value.IsEmpty() ==> scheduledIndex == loaded
      ensures |rows| == |old(rows)|
      ensures forall i :: 0 <= i < |rows| ==>
                rows[i] == old(rows)[i].(scheduled := RowScheduled(scheduledIndex, old(rows)[i]))
      ensures scheduledIndex == ChosenIndex(loaded) && rows == ScheduledRows(scheduledIndex, old(rows))
    {
      if loaded.Some? && !loaded.value.IsEmpty() {
        scheduledIndex := loaded;
      } else {
        scheduledIndex := None;
      }
      ApplyScheduledFlags();
      ScheduledRowsAt(scheduledIndex, old(rows));
    }

    /** The request bookkeeping of `channel_icon_texture`: a blank URL or
        one with a texture needs nothing; a missing file is requested once
        (`spawn` says whether a download starts); a file that decodes to a
        non-empty image becomes a texture and is no longer pending.
        `decoded` is the width, height and byte length the decoder gave. */
    method ChannelIconTexture(url: string, fileExists: bool, decoded: Option<(nat, nat, nat)>) returns (spawn: bool, texture: bool)
      modifies this`channelIconTextures, this`channelIconPending
      ensures spawn <==> !IsBlank(url) && url !in old(channelIconTextures) && !fileExists && url !in old(channelIconPending)
      ensures IsBlank(url) || url in old(channelIconTextures) ==>
                channelIconPending == old(channelIconPending) && channelIconTextures == old(channelIconTextures)
      ensures !IsBlank(url) && url !in old(channelIconTextures) && !fileExists ==>
                channelIconPending == old(channelIconPending) + {url} && channelIconTextures == old(channelIconTextures)
      ensures texture <==> !IsBlank(url) && (url in old(channelIconTextures) || (fileExists && GoodImage(decoded)))
      ensures !IsBlank(url) && url !in old(channelIconTextures) && fileExists && GoodImage(decoded) ==>
                channelIconTextures == old(channelIconTextures) + {url} && channelIconPending == old(channelIconPending) - {url}
      ensures !IsBlank(url) && url !in old(channelIconTextures) && fileExists && !GoodImage(decoded) ==>
                channelIconTextures == old(channelIconTextures) && channelIconPending == old(channelIconPending)
      ensures rows == old(rows)
    {
      if IsBlank(url) {
        return false, false;
      }
      if url in channelIconTextures {
        return false, true;
      }
      if !fileExists {
        spawn := url !in channelIconPending;
        channelIconPending := channelIconPending + {url};
        return spawn, false;
      }
      if !GoodImage(decoded) {
        return false, false;
      }
      channelIconTextures := channelIconTextures + {url};
      channelIconPending := channelIconPending - {url};
      return false, true;
    }
  }

  /** A selection that names an index of the grid. */
  predicate SelectionInGrid(grid: seq<seq<nat>>, sel: Option<nat>)
  {
    sel.Some? && IsIdxInGrid(grid, sel.value)
  }

  /** An icon that decoded to a non-empty picture. */
  predicate GoodImage(decoded: Option<(nat, nat, nat)>)
  {
    decoded.Some? && decoded.value.0 != 0 && decoded.value.1 != 0 && decoded.value.2 != 0
  }

  /** The index `refresh_scheduled_index` keeps: the loaded one unless
      loading failed or it is empty. */
  function ChosenIndex(loaded: Option<ScheduledIndex>): (r: Option<ScheduledIndex>)
    reads if loaded.Some? then {loaded.value} else {}
    ensures r.Some? ==> r == loaded && !loaded.value.IsEmpty()
  {
    if loaded.Some? && !loaded.value.IsEmpty() then loaded else None
  }

  /** The rows with their scheduled flags as `apply_scheduled_flags`
      leaves them. */
  function ScheduledRows(index: Option<ScheduledIndex>, rows: seq<PosterRow>): (r: seq<PosterRow>)
    reads if index.Some? then {index.value} else {}
    ensures |r| == |rows|
  {
    if rows == [] then []
    else
      var last := rows[|rows| - 1];
      ScheduledRows(index, rows[..|rows| - 1]) + [last.(scheduled := RowScheduled(index, last))]
  }

  /** Each row keeps everything but its scheduled flag, which says whether
      the index reports it. */
  lemma {:induction false} ScheduledRowsAt(index: Option<ScheduledIndex>, rows: seq<PosterRow>)
    ensures forall i :: 0 <= i < |rows| ==>
              ScheduledRows(index, rows)[i] == rows[i].(scheduled := RowScheduled(index, rows[i]))
  {
    if rows != [] {
      ScheduledRowsAt(index, rows[..|rows| - 1]);
    }
  }

  /** Whether `apply_scheduled_flags` marks `row`. */
  predicate RowScheduled(index: Option<ScheduledIndex>, row: PosterRow)
    reads if index.Some? then {index.value} else {}
  {
    index.Some? && index.value.IsScheduled(row.guid, row.title, row.year, row.airing)
  }
}
