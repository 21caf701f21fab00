// The UI preferences of `src/app/prefs.rs`: the `key=value` prefs file
// that `load_prefs` reads and `save_prefs` writes, the debounced save, and
// the hotset manifest of posters already uploaded as textures.
//
// The file system is left out: a read either yields the text or fails
// (`None`), and a write is the text the method returns. The three float
// preferences (poster width, detail panel width, dim strength) are left
// out; the save writes whatever text their formatting produced.

module Prefs {
  import opened Text
  import opened Types
  import opened Utils
  import opened App

  /** The preferences the prefs file persists, floats aside. */
  datatype UiPrefs = UiPrefs(
    dayRange: DayRange,
    search: string,
    sortKey: SortKey,
    sortDesc: bool,
    workers: nat,
    hideOwned: bool,
    dimOwned: bool,
    channels: seq<string>,
    genres: seq<string>,
    hdOnly: bool)

  /** The preference fields of the application. */
  function PrefsOf(app: PexApp): UiPrefs
    reads app
  {
    UiPrefs(app.currentRange, app.searchQuery, app.sortKey, app.sortDesc, app.workerCountUi,
            app.hideOwned, app.dimOwned, app.selectedChannels, app.selectedGenres, app.filterHdOnly)
  }

  /** The formatted float preferences `save_prefs` writes: `{:.1}` of the
      poster and detail widths and `{:.2}` of the dim strength. */
  datatype FloatTexts = FloatTexts(posterW: string, detailW: string, dimStrength: string)

  /** The keys of the prefs file. */
  datatype PrefKey =
    | DayRangeKey | SearchKey | SortKeyKey | SortDescKey | PosterWKey | DetailWKey | WorkersKey
    | HideOwnedKey | DimOwnedKey | DimStrengthKey | ChannelsKey | GenresKey | FilterHdOnlyKey

  function KeyName(k: PrefKey): string
  {
    match k
    case DayRangeKey => "day_range"
    case SearchKey => "search"
    case SortKeyKey => "sort_key"
    case SortDescKey => "sort_desc"
    case PosterWKey => "poster_w"
    case DetailWKey => "detail_w"
    case WorkersKey => "workers"
    case HideOwnedKey => "hide_owned"
    case DimOwnedKey => "dim_owned"
    case DimStrengthKey => "dim_strength"
    case ChannelsKey => "channels"
    case GenresKey => "genres"
    case FilterHdOnlyKey => "filter_hd_only"
  }

  /** The `match k` of `load_prefs`: the key a name spells, if any. */
  function KeyOf(s: string): (r: Option<PrefKey>)
    ensures r.Some? ==> KeyName(r.value) == s
  {
    if s == "day_range" then Some(DayRangeKey)
    else if s == "search" then Some(SearchKey)
    else if s == "sort_key" then Some(SortKeyKey)
    else if s == "sort_desc" then Some(SortDescKey)
    else if s == "poster_w" then Some(PosterWKey)
    else if s == "detail_w" then Some(DetailWKey)
    else if s == "workers" then Some(WorkersKey)
    else if s == "hide_owned" then Some(HideOwnedKey)
    else if s == "dim_owned" then Some(DimOwnedKey)
    else if s == "dim_strength" then Some(DimStrengthKey)
    else if s == "channels" then Some(ChannelsKey)
    else if s == "genres" then Some(GenresKey)
    else if s == "filter_hd_only" then Some(FilterHdOnlyKey)
    else None
  }

  /** Every key is read back as itself. */
  lemma KeyOfName(k: PrefKey)
    ensures KeyOf(KeyName(k)) == Some(k)
  {
  }

  const HEADER := "# pex ui prefs"

  const MIN_WORKERS: nat := 1
  const MAX_WORKERS: nat := 32

  /** The save is skipped until this many milliseconds have passed since
      the last write. */
  const SAVE_DEBOUNCE_MS: nat := 300

  // ---------------------------------------------------------------------
  // load_prefs

  /** `matches!(v, "1" | "true" | "yes")`. */
  predicate Truthy(v: string) { v == "1" || v == "true" || v == "yes" }

  /** `usize::clamp(n, lo, hi)`. */
  function Clamp(n: int, lo: nat, hi: nat): (r: nat)
    requires lo <= hi
    ensures lo <= r <= hi
    ensures lo <= n <= hi ==> r == n
    ensures n < lo ==> r == lo
    ensures hi < n ==> r == hi
  {
    if n < lo then lo else if hi < n then hi else n
  }

  /** A `channels` or `genres` value: the trimmed, non-empty pieces
      between the commas, as a set. */
  function ParseCsvSet(v: string): (r: seq<string>)
    ensures StrictlySorted(r)
  {
    InsertAll([], TrimmedPieces(Split(v, ',')))
  }

  /** `y` is one of the trimmed, non-empty comma pieces of `v`. */
  predicate IsCsvPiece(v: string, y: string)
  {
    var parts := Split(v, ',');
    y != [] && exists k :: 0 <= k < |parts| && Trim(parts[k]) == y
  }

  /** The set holds exactly the trimmed, non-empty comma pieces. */
  lemma CsvSetMembers(v: string)
    ensures forall y :: y in ParseCsvSet(v) <==> IsCsvPiece(v, y)
  {
    var parts := Split(v, ',');
    var r := ParseCsvSet(v);
    forall y ensures y in r <==> IsCsvPiece(v, y) {
      if y in r {
        var k := TrimmedPieceSource(parts, y);
      }
      if IsCsvPiece(v, y) {
        var k :| 0 <= k < |parts| && Trim(parts[k]) == y;
        TrimmedPieceKept(parts, k);
      }
    }
  }

  /** No name of the set has whitespace at either end. */
  lemma CsvSetTrimmed(v: string)
    ensures forall k :: 0 <= k < |ParseCsvSet(v)| ==> IsTrimmedTag(ParseCsvSet(v)[k])
  {
    GenresTrimmed(Split(v, ','), ParseCsvSet(v));
  }

  /** The key and value of one prefs line, both trimmed; `None` for a
      blank line, a `#` comment or a line without `=`. */
  function ParseLine(line: string): (r: Option<(string, string)>)
    ensures r.None? <==> Trim(line) == [] || Trim(line)[0] == '#' || '=' !in Trim(line)
    ensures r.Some? ==> '=' !in r.value.0
  {
    var t := Trim(line);
    if t == [] || t[0] == '#' then None
    else
      match SplitOnce(t, '=')
      case None => None
      case Some((k, v)) => TrimLacks(k, '='); Some((Trim(k), Trim(v)))
  }

  lemma TrimLacks(s: string, c: char)
    requires c !in s
    ensures c !in Trim(s)
  {
    var t := Trim(s);
    TrimInfix(s);
    forall j | 0 <= j < |t| ensures t[j] != c {
      assert t[j] == s[TrimOffset(s) + j];
    }
  }

  /** The effect of the value of one key. The float keys change nothing
      modelled here. */
  function ApplyField(p: UiPrefs, k: PrefKey, v: string): UiPrefs
  {
    match k
    case DayRangeKey => (match DayRangeFromStr(v) case Some(d) => p.(dayRange := d) case None => p)
    case SearchKey => p.(search := v)
    case SortKeyKey => (match SortKeyFromStr(v) case Some(s) => p.(sortKey := s) case None => p)
    case SortDescKey => p.(sortDesc := Truthy(v))
    case PosterWKey => p
    case DetailWKey => p
    case WorkersKey =>
      (match ParseU64(v) case Some(n) => p.(workers := Clamp(n, MIN_WORKERS, MAX_WORKERS)) case None => p)
    case HideOwnedKey => p.(hideOwned := Truthy(v))
    case DimOwnedKey => p.(dimOwned := Truthy(v))
    case DimStrengthKey => p
    case ChannelsKey => p.(channels := ParseCsvSet(v))
    case GenresKey => p.(genres := ParseCsvSet(v))
    case FilterHdOnlyKey => p.(hdOnly := Truthy(v))
  }

  /** The effect of one line of the prefs file; unknown keys are ignored. */
  function ApplyLine(p: UiPrefs, line: string): UiPrefs
  {
    match ParseLine(line)
    case None => p
    case Some((k, v)) => (match KeyOf(k) case None => p case Some(key) => ApplyField(p, key, v))
  }

  /** The effect of the lines, first to last. */
  function ApplyLines(p: UiPrefs, lines: seq<string>): UiPrefs
    decreases |lines|
  {
    if lines == [] then p else ApplyLines(ApplyLine(p, lines[0]), lines[1..])
  }

  lemma ApplyLinesStep(p: UiPrefs, lines: seq<string>, i: nat)
    requires i < |lines|
    ensures ApplyLines(p, lines[i..]) == ApplyLines(ApplyLine(p, lines[i]), lines[i + 1..])
  {
    assert lines[i..][1..] == lines[i + 1..];
  }

  /** Preferences as the application keeps them: a worker count in range
      and channel and genre sets of trimmed, non-empty names. */
  predicate WellFormed(p: UiPrefs)
  {
    MIN_WORKERS <= p.workers <= MAX_WORKERS
    && StrictlySorted(p.channels) && (forall k :: 0 <= k < |p.channels| ==> IsTrimmedTag(p.channels[k]))
    && StrictlySorted(p.genres) && (forall k :: 0 <= k < |p.genres| ==> IsTrimmedTag(p.genres[k]))
  }

  lemma ApplyFieldWellFormed(p: UiPrefs, k: PrefKey, v: string)
    requires WellFormed(p)
    ensures WellFormed(ApplyField(p, k, v))
  {
    if k == ChannelsKey || k == GenresKey {
      CsvSetTrimmed(v);
    }
  }

  /** Loading keeps the preferences well formed, whatever the file says. */
  lemma {:induction false} LoadKeepsWellFormed(p: UiPrefs, lines: seq<string>)
    requires WellFormed(p)
    ensures WellFormed(ApplyLines(p, lines))
    decreases |lines|
  {
    if lines != [] {
      match ParseLine(lines[0]) {
        case None =>
        case Some((k, v)) =>
          match KeyOf(k) {
            case None =>
            case Some(key) => ApplyFieldWellFormed(p, key, v);
          }
      }
      LoadKeepsWellFormed(ApplyLine(p, lines[0]), lines[1..]);
    }
  }

  /** The loop of `load_prefs` over the lines of the file. */
  method ApplyPrefsLines(p0: UiPrefs, lines: seq<string>) returns (p: UiPrefs)
    ensures p == ApplyLines(p0, lines)
  {
    p := p0;
    var i := 0;
    while i < |lines|
      invariant i <= |lines|
      invariant ApplyLines(p, lines[i..]) == ApplyLines(p0, lines)
    {
      ApplyLinesStep(p, lines, i);
      p := ApplyLine(p, lines[i]);
      i := i + 1;
    }
  }

  /** `load_prefs`: `txt` is the prefs file, `None` when it cannot be read; the
      preference fields take the values its lines give, later lines winning,
      and nothing else changes. */
  method LoadPrefs(app: PexApp, txt: Option<string>)
    modifies app`currentRange, app`searchQuery, app`sortKey, app`sortDesc, app`workerCountUi,
             app`hideOwned, app`dimOwned, app`selectedChannels, app`selectedGenres, app`filterHdOnly
    ensures PrefsOf(app) == (if txt.Some? then ApplyLines(old(PrefsOf(app)), Lines(txt.value)) else old(PrefsOf(app)))
    ensures app.rows == old(app.rows) && app.prefsDirty == old(app.prefsDirty)
    ensures app.bootPhase == old(app.bootPhase) && app.ownedKeys == old(app.ownedKeys)
  {
    if txt.None? {
      return;
    }
    var p := ApplyPrefsLines(PrefsOf(app), Lines(txt.value));
    StorePrefs(app, p);
  }

  /** Writes the preference fields of the application. */
  method StorePrefs(app: PexApp, p: UiPrefs)
    modifies app`currentRange, app`searchQuery, app`sortKey, app`sortDesc, app`workerCountUi,
             app`hideOwned, app`dimOwned, app`selectedChannels, app`selectedGenres, app`filterHdOnly
    ensures PrefsOf(app) == p
    ensures app.rows == old(app.rows) && app.prefsDirty == old(app.prefsDirty)
    ensures app.bootPhase == old(app.bootPhase) && app.ownedKeys == old(app.ownedKeys)
  {
    app.currentRange, app.searchQuery, app.sortKey, app.sortDesc, app.workerCountUi :=
      p.dayRange, p.search, p.sortKey, p.sortDesc, p.workers;
    app.hideOwned, app.dimOwned, app.selectedChannels, app.selectedGenres, app.filterHdOnly :=
      p.hideOwned, p.dimOwned, p.channels, p.genres, p.hdOnly;
  }

  // ---------------------------------------------------------------------
  // save_prefs

  function Flag(b: bool): string { if b then "1" else "0" }

  /** `s.replace(',', " ")`. */
  function ReplaceCommas(s: string): (r: string)
    ensures |r| == |s| && ',' !in r
    ensures forall i :: 0 <= i < |s| ==> r[i] == (if s[i] == ',' then ' ' else s[i])
  {
    seq(|s|, i requires 0 <= i < |s| => if s[i] == ',' then ' ' else s[i])
  }

  function ReplaceAllCommas(names: seq<string>): (r: seq<string>)
    ensures |r| == |names| && forall k :: 0 <= k < |names| ==> r[k] == ReplaceCommas(names[k])
  {
    seq(|names|, k requires 0 <= k < |names| => ReplaceCommas(names[k]))
  }

  /** The comma-separated list of a set, commas inside a name written as
      spaces. */
  function Csv(names: seq<string>): string
  {
    if names == [] then "" else Join(ReplaceAllCommas(names), ",")
  }

  /** The `key=value` pairs `save_prefs` writes after its header, in order. */
  function SavedFields(p: UiPrefs, f: FloatTexts): seq<(PrefKey, string)>
  {
    RangeFields(p) + SortFields(p, f) + OwnedFields(p, f) + SetFields(p)
  }

  function RangeFields(p: UiPrefs): seq<(PrefKey, string)>
  {
    [(DayRangeKey, DayRangeAsStr(p.dayRange)), (SearchKey, p.search), (SortKeyKey, SortKeyAsStr(p.sortKey))]
  }

  function SortFields(p: UiPrefs, f: FloatTexts): seq<(PrefKey, string)>
  {
    [(SortDescKey, Flag(p.sortDesc)), (PosterWKey, f.posterW), (DetailWKey, f.detailW)]
  }

  function OwnedFields(p: UiPrefs, f: FloatTexts): seq<(PrefKey, string)>
  {
    [(WorkersKey, NatToString(p.workers)), (HideOwnedKey, Flag(p.hideOwned)),
     (DimOwnedKey, Flag(p.dimOwned)), (DimStrengthKey, f.dimStrength)]
  }

  function SetFields(p: UiPrefs): seq<(PrefKey, string)>
  {
    [(ChannelsKey, Csv(p.channels)), (GenresKey, Csv(p.genres)), (FilterHdOnlyKey, Flag(p.hdOnly))]
  }

  function KeyValue(k: string, v: string): string { k + "=" + v }

  function FieldLines(fs: seq<(PrefKey, string)>): (ls: seq<string>)
    ensures |ls| == |fs| && forall i :: 0 <= i < |fs| ==> ls[i] == KeyValue(KeyName(fs[i].0), fs[i].1)
  {
    seq(|fs|, i requires 0 <= i < |fs| => KeyValue(KeyName(fs[i].0), fs[i].1))
  }

  /** `save_prefs`: the text of the prefs file, every line ended by '\n'. */
  function SavedPrefs(p: UiPrefs, f: FloatTexts): string
  {
    Unlines(SavedLines(p, f))
  }

  function SavedLines(p: UiPrefs, f: FloatTexts): seq<string>
  {
    [HEADER] + FieldLines(SavedFields(p, f))
  }

  /** Each name of a non-empty set is written as one comma piece, its own
      commas turned into spaces. */
  lemma CsvPieces(names: seq<string>)
    requires names != []
    ensures Split(Csv(names), ',') == ReplaceAllCommas(names)
  {
    SplitJoin(ReplaceAllCommas(names), ',');
  }

  /** `mark_dirty`. */
  method MarkDirty(app: PexApp)
    modifies app`prefsDirty
    ensures app.prefsDirty && PrefsOf(app) == old(PrefsOf(app))
  {
    app.prefsDirty := true;
  }

  /** `maybe_save_prefs`, given the milliseconds since the last write: a
      pending change is written once the debounce interval has passed. */
  method MaybeSavePrefs(app: PexApp, elapsedMs: nat, f: FloatTexts) returns (written: Option<string>)
    modifies app`prefsDirty
    ensures written == (if old(app.prefsDirty) && elapsedMs >= SAVE_DEBOUNCE_MS then Some(SavedPrefs(old(PrefsOf(app)), f)) else None)
    ensures app.prefsDirty == (old(app.prefsDirty) && elapsedMs < SAVE_DEBOUNCE_MS)
    ensures PrefsOf(app) == old(PrefsOf(app))
  {
    written := None;
    if app.prefsDirty && elapsedMs >= SAVE_DEBOUNCE_MS {
      written := Some(SavedPrefs(PrefsOf(app), f));
      app.prefsDirty := false;
    }
  }

  // ---------------------------------------------------------------------
  // Loading a saved file

  /** A key as the prefs file spells it. */
  predicate IsKeyText(k: string)
  {
    k != [] && k[0] != '#' && !IsWhitespace(k[0]) && !IsWhitespace(k[|k| - 1])
    && '=' !in k && '\n' !in k
  }

  lemma DateKeysText(k: PrefKey)
    requires k == DayRangeKey || k == SearchKey || k == SortKeyKey
    ensures IsKeyText(KeyName(k))
  {
  }

  lemma SizeKeysText(k: PrefKey)
    requires k == SortDescKey || k == PosterWKey || k == DetailWKey
    ensures IsKeyText(KeyName(k))
  {
  }

  lemma OwnedKeysText(k: PrefKey)
    requires k == WorkersKey || k == HideOwnedKey || k == DimOwnedKey
    ensures IsKeyText(KeyName(k))
  {
  }

  lemma SetKeysText(k: PrefKey)
    requires k == DimStrengthKey || k == ChannelsKey
    ensures IsKeyText(KeyName(k))
  {
  }

  lemma FilterKeysText(k: PrefKey)
    requires k == GenresKey || k == FilterHdOnlyKey
    ensures IsKeyText(KeyName(k))
  {
  }

  /** Every key spells a name that survives the trims and the split. */
  lemma KeyNameText(k: PrefKey)
    ensures IsKeyText(KeyName(k))
  {
    if k == DayRangeKey || k == SearchKey || k == SortKeyKey {
      DateKeysText(k);
    } else if k == SortDescKey || k == PosterWKey || k == DetailWKey {
      SizeKeysText(k);
    } else if k == WorkersKey || k == HideOwnedKey || k == DimOwnedKey {
      OwnedKeysText(k);
    } else if k == DimStrengthKey || k == ChannelsKey {
      SetKeysText(k);
    } else {
      FilterKeysText(k);
    }
  }

  /** A value that survives the line split and the trims unchanged. */
  predicate IsValueText(v: string)
  {
    '\n' !in v && (v == [] || (!IsWhitespace(v[0]) && !IsWhitespace(v[|v| - 1])))
  }

  /** A set that can be written and read back: trimmed names without
      commas or line breaks. */
  predicate SaveableSet(names: seq<string>)
  {
    StrictlySorted(names)
    && forall k :: 0 <= k < |names| ==> IsTrimmedTag(names[k]) && ',' !in names[k] && '\n' !in names[k]
  }

  /** Preferences that `save_prefs` writes and `load_prefs` reads back. */
  predicate Saveable(p: UiPrefs)
  {
    MIN_WORKERS <= p.workers <= MAX_WORKERS && IsValueText(p.search)
    && SaveableSet(p.channels) && SaveableSet(p.genres)
  }

  predicate FloatsAreText(f: FloatTexts)
  {
    IsValueText(f.posterW) && IsValueText(f.detailW) && IsValueText(f.dimStrength)
  }

  lemma TrimUnchanged(s: string)
    requires s == [] || (!IsWhitespace(s[0]) && !IsWhitespace(s[|s| - 1]))
    ensures Trim(s) == s
  {
    if s != [] {
      assert LeadingWs(s) == 0;
      assert TrimStart(s) == s;
      assert TrailingWs(s) == 0;
    }
  }

  /** A `key=value` line is one line that trimming leaves as it is. */
  lemma KeyValueTrimmed(k: string, v: string)
    requires IsKeyText(k) && IsValueText(v)
    ensures Trim(KeyValue(k, v)) == KeyValue(k, v) && KeyValue(k, v)[0] == k[0]
    ensures IsLine(KeyValue(k, v))
  {
    var line := KeyValue(k, v);
    assert line == k + ['='] + v;
    assert line[0] == k[0];
    assert line[|line| - 1] == if v == [] then '=' else v[|v| - 1];
    TrimUnchanged(line);
  }

  lemma KeyValueSplit(k: string, v: string)
    requires '=' !in k
    ensures SplitOnce(KeyValue(k, v), '=') == Some((k, v))
  {
    var line := KeyValue(k, v);
    assert line == k + ['='] + v;
    FirstIndexOfConcat(k, '=', v);
    assert line[..|k|] == k;
    assert line[|k| + 1..] == v;
  }

  /** A `key=value` line reads back as its key and value. */
  lemma KeyValueLine(k: string, v: string)
    requires IsKeyText(k) && IsValueText(v)
    ensures ParseLine(KeyValue(k, v)) == Some((k, v))
    ensures IsLine(KeyValue(k, v))
  {
    KeyValueTrimmed(k, v);
    KeyValueSplit(k, v);
    TrimUnchanged(k);
    TrimUnchanged(v);
  }

  /** The effect of fields, first to last. */
  function ApplyFields(p: UiPrefs, fs: seq<(PrefKey, string)>): UiPrefs
    decreases |fs|
  {
    if fs == [] then p else ApplyFields(ApplyField(p, fs[0].0, fs[0].1), fs[1..])
  }

  /** One `key=value` line applies its field. */
  lemma FieldLineRead(q: UiPrefs, k: PrefKey, v: string)
    requires IsValueText(v)
    ensures IsLine(KeyValue(KeyName(k), v))
    ensures ApplyLine(q, KeyValue(KeyName(k), v)) == ApplyField(q, k, v)
  {
    KeyNameText(k);
    KeyValueLine(KeyName(k), v);
    KeyOfName(k);
  }

  lemma FieldLinesAreLines(fs: seq<(PrefKey, string)>)
    requires forall i :: 0 <= i < |fs| ==> IsValueText(fs[i].1)
    ensures forall i :: 0 <= i < |fs| ==> IsLine(FieldLines(fs)[i])
  {
    forall i | 0 <= i < |fs| ensures IsLine(FieldLines(fs)[i]) {
      KeyNameText(fs[i].0);
      KeyValueLine(KeyName(fs[i].0), fs[i].1);
    }
  }

  /** Reading the lines of fields applies the fields. */
  lemma {:induction false} FieldLinesRead(q: UiPrefs, fs: seq<(PrefKey, string)>)
    requires forall i :: 0 <= i < |fs| ==> IsValueText(fs[i].1)
    ensures ApplyLines(q, FieldLines(fs)) == ApplyFields(q, fs)
    decreases |fs|
  {
    if fs != [] {
      var ls := FieldLines(fs);
      FieldLineRead(q, fs[0].0, fs[0].1);
      assert ls[1..] == FieldLines(fs[1..]);
      FieldLinesRead(ApplyField(q, fs[0].0, fs[0].1), fs[1..]);
    }
  }

  lemma HeaderIgnored(p: UiPrefs)
    ensures ApplyLine(p, HEADER) == p
  {
    TrimUnchanged(HEADER);
  }

  lemma HeaderIsLine()
    ensures IsLine(HEADER)
  {
  }

  lemma FlagText(b: bool)
    ensures IsValueText(Flag(b)) && Truthy(Flag(b)) == b
  {
  }

  lemma DayRangeText(d: DayRange)
    ensures IsValueText(DayRangeAsStr(d))
  {
  }

  lemma SortKeyText(s: SortKey)
    ensures IsValueText(SortKeyAsStr(s))
  {
  }

  lemma WorkersText(n: nat)
    requires n <= U64_MAX
    ensures IsValueText(NatToString(n)) && ParseU64(NatToString(n)) == Some(n)
  {
    var s := NatToString(n);
    assert forall i :: 0 <= i < |s| ==> IsAsciiDigit(s[i]);
    ParseIntToString(n, 0, U64_MAX);
  }

  lemma {:induction false} JoinLacks(parts: seq<string>, sep: string, c: char)
    requires c !in sep && forall k :: 0 <= k < |parts| ==> c !in parts[k]
    ensures c !in Join(parts, sep)
    decreases |parts|
  {
    if |parts| >= 2 {
      JoinLacks(parts[1..], sep, c);
    }
  }

  lemma {:induction false} JoinEnds(parts: seq<string>, sep: string)
    requires |parts| >= 1 && forall k :: 0 <= k < |parts| ==> parts[k] != []
    ensures var j := Join(parts, sep); j != [] && j[0] == parts[0][0] && j[|j| - 1] == parts[|parts| - 1][|parts[|parts| - 1]| - 1]
    decreases |parts|
  {
    if |parts| >= 2 {
      JoinEnds(parts[1..], sep);
    }
  }

  lemma {:induction false} NonEmptyAll(ts: seq<string>)
    requires forall k :: 0 <= k < |ts| ==> ts[k] != []
    ensures NonEmpty(ts) == ts
    decreases |ts|
  {
    if ts != [] {
      NonEmptyAll(ts[..|ts| - 1]);
    }
  }

  lemma CsvEmpty()
    ensures Csv([]) == "" && ParseCsvSet("") == []
  {
    assert Split("", ',') == [""];
    assert Trim("") == "";
    assert TrimAll([""]) == [""];
    assert NonEmpty([""]) == [];
  }

  lemma CommaFree(names: seq<string>)
    requires forall k :: 0 <= k < |names| ==> ',' !in names[k]
    ensures ReplaceAllCommas(names) == names
  {
    forall k | 0 <= k < |names| ensures ReplaceCommas(names[k]) == names[k] {
      var c := names[k];
      forall i | 0 <= i < |c| ensures c[i] != ',' {
        assert c[i] in c;
      }
    }
  }

  lemma TrimmedNames(names: seq<string>)
    requires forall k :: 0 <= k < |names| ==> IsTrimmedTag(names[k])
    ensures TrimmedPieces(names) == names
  {
    assert TrimAll(names) == names by {
      forall k | 0 <= k < |names| ensures Trim(names[k]) == names[k] {
        TrimUnchanged(names[k]);
      }
    }
    NonEmptyAll(names);
  }

  /** A saveable set is written as a value text... */
  lemma CsvText(names: seq<string>)
    requires SaveableSet(names)
    ensures IsValueText(Csv(names))
  {
    if names == [] {
      CsvEmpty();
    } else {
      CommaFree(names);
      JoinLacks(names, ",", '\n');
      JoinEnds(names, ",");
    }
  }

  /** ... and read back as itself. */
  lemma CsvRoundTrip(names: seq<string>)
    requires SaveableSet(names)
    ensures ParseCsvSet(Csv(names)) == names
  {
    if names == [] {
      CsvEmpty();
    } else {
      CommaFree(names);
      assert "," == [','];
      SplitJoin(names, ',');
      TrimmedNames(names);
      StrictlySortedUnique(InsertAll([], names), names);
    }
  }

  lemma SavedValuesText(p: UiPrefs, f: FloatTexts)
    requires Saveable(p) && FloatsAreText(f)
    ensures forall i :: 0 <= i < |SavedFields(p, f)| ==> IsValueText(SavedFields(p, f)[i].1)
  {
    var r, s, o, c := RangeFields(p), SortFields(p, f), OwnedFields(p, f), SetFields(p);
    GroupsText(p, f);
    ValuesTextConcat(r, s);
    ValuesTextConcat(r + s, o);
    ValuesTextConcat(r + s + o, c);
    assert SavedFields(p, f) == r + s + o + c;
  }

  lemma GroupsText(p: UiPrefs, f: FloatTexts)
    requires Saveable(p) && FloatsAreText(f)
    ensures ValuesText(RangeFields(p)) && ValuesText(SortFields(p, f))
    ensures ValuesText(OwnedFields(p, f)) && ValuesText(SetFields(p))
  {
    DayRangeText(p.dayRange);
    SortKeyText(p.sortKey);
    assert ValuesText(RangeFields(p));
    FlagText(p.sortDesc);
    assert ValuesText(SortFields(p, f));
    OwnedFieldsText(p, f);
    SetFieldsText(p);
  }

  lemma OwnedFieldsText(p: UiPrefs, f: FloatTexts)
    requires Saveable(p) && FloatsAreText(f)
    ensures ValuesText(OwnedFields(p, f))
  {
    FlagText(p.hideOwned);
    FlagText(p.dimOwned);
    WorkersText(p.workers);
  }

  lemma SetFieldsText(p: UiPrefs)
    requires Saveable(p)
    ensures ValuesText(SetFields(p))
  {
    FlagText(p.hdOnly);
    CsvText(p.channels);
    CsvText(p.genres);
  }

  /** Every value of the fields can be written on a line. */
  ghost predicate ValuesText(fs: seq<(PrefKey, string)>)
  {
    forall i :: 0 <= i < |fs| ==> IsValueText(fs[i].1)
  }

  lemma ValuesTextConcat(a: seq<(PrefKey, string)>, b: seq<(PrefKey, string)>)
    requires ValuesText(a) && ValuesText(b)
    ensures ValuesText(a + b)
  {
    forall i | 0 <= i < |a + b| ensures IsValueText((a + b)[i].1) {
      if i >= |a| {
        assert (a + b)[i] == b[i - |a|];
      }
    }
  }

  lemma {:induction false} ApplyFieldsConcat(q: UiPrefs, a: seq<(PrefKey, string)>, b: seq<(PrefKey, string)>)
    ensures ApplyFields(q, a + b) == ApplyFields(ApplyFields(q, a), b)
    decreases |a|
  {
    if a == [] {
      assert a + b == b;
    } else {
      assert (a + b)[1..] == a[1..] + b;
      ApplyFieldsConcat(ApplyField(q, a[0].0, a[0].1), a[1..], b);
    }
  }

  lemma ApplyOne(q: UiPrefs, x: (PrefKey, string), rest: seq<(PrefKey, string)>)
    ensures ApplyFields(q, [x] + rest) == ApplyFields(ApplyField(q, x.0, x.1), rest)
  {
    assert ([x] + rest)[1..] == rest;
  }

  lemma ApplyThree(q: UiPrefs, x: (PrefKey, string), y: (PrefKey, string), z: (PrefKey, string))
    ensures ApplyFields(q, [x, y, z]) == ApplyField(ApplyField(ApplyField(q, x.0, x.1), y.0, y.1), z.0, z.1)
  {
    var q1 := ApplyField(q, x.0, x.1);
    var q2 := ApplyField(q1, y.0, y.1);
    var q3 := ApplyField(q2, z.0, z.1);
    ApplyOne(q, x, [y, z]);
    assert [x] + [y, z] == [x, y, z];
    ApplyOne(q1, y, [z]);
    assert [y] + [z] == [y, z];
    ApplyOne(q2, z, []);
    assert [z] + [] == [z];
    assert ApplyFields(q3, []) == q3;
  }

  lemma RangeFieldsRestore(q: UiPrefs, p: UiPrefs)
    ensures ApplyFields(q, RangeFields(p)) == q.(dayRange := p.dayRange, search := p.search, sortKey := p.sortKey)
  {
    var fs := RangeFields(p);
    ApplyThree(q, fs[0], fs[1], fs[2]);
  }

  lemma SortFieldsRestore(q: UiPrefs, p: UiPrefs, f: FloatTexts)
    ensures ApplyFields(q, SortFields(p, f)) == q.(sortDesc := p.sortDesc)
  {
    var fs := SortFields(p, f);
    FlagText(p.sortDesc);
    ApplyThree(q, fs[0], fs[1], fs[2]);
  }

  lemma WorkersRestore(q: UiPrefs, p: UiPrefs)
    requires MIN_WORKERS <= p.workers <= MAX_WORKERS
    ensures ApplyField(q, WorkersKey, NatToString(p.workers)) == q.(workers := p.workers)
  {
    WorkersText(p.workers);
  }

  lemma OwnedFieldsRestore(q: UiPrefs, p: UiPrefs, f: FloatTexts)
    requires MIN_WORKERS <= p.workers <= MAX_WORKERS
    ensures ApplyFields(q, OwnedFields(p, f)) == q.(workers := p.workers, hideOwned := p.hideOwned, dimOwned := p.dimOwned)
  {
    var fs := OwnedFields(p, f);
    FlagText(p.hideOwned);
    FlagText(p.dimOwned);
    WorkersRestore(q, p);
    ApplyOne(q, fs[0], fs[1..]);
    assert [fs[0]] + fs[1..] == fs;
    assert fs[1..] == [fs[1], fs[2], fs[3]];
    ApplyThree(q.(workers := p.workers), fs[1], fs[2], fs[3]);
  }

  lemma CsvRestore(q: UiPrefs, p: UiPrefs)
    requires SaveableSet(p.channels) && SaveableSet(p.genres)
    ensures ApplyField(q, ChannelsKey, Csv(p.channels)) == q.(channels := p.channels)
    ensures ApplyField(q, GenresKey, Csv(p.genres)) == q.(genres := p.genres)
  {
    CsvFieldRestore(q, p.channels);
    CsvFieldRestore(q, p.genres);
  }

  lemma CsvFieldRestore(q: UiPrefs, names: seq<string>)
    requires SaveableSet(names)
    ensures ApplyField(q, ChannelsKey, Csv(names)) == q.(channels := names)
    ensures ApplyField(q, GenresKey, Csv(names)) == q.(genres := names)
  {
    ApplySetFields(q, Csv(names));
    CsvRoundTrip(names);
  }

  lemma ApplySetFields(q: UiPrefs, v: string)
    ensures ApplyField(q, ChannelsKey, v) == q.(channels := ParseCsvSet(v))
    ensures ApplyField(q, GenresKey, v) == q.(genres := ParseCsvSet(v))
  {
  }

  lemma SetFieldsRestore(q: UiPrefs, p: UiPrefs)
    requires SaveableSet(p.channels) && SaveableSet(p.genres)
    ensures ApplyFields(q, SetFields(p)) == q.(channels := p.channels, genres := p.genres, hdOnly := p.hdOnly)
  {
    var fs := SetFields(p);
    FlagText(p.hdOnly);
    CsvRestore(q, p);
    CsvRestore(q.(channels := p.channels), p);
    ApplyThree(q, fs[0], fs[1], fs[2]);
  }

  /** The saved fields restore every saved preference. */
  lemma SavedFieldsRestore(q: UiPrefs, p: UiPrefs, f: FloatTexts)
    requires Saveable(p)
    ensures ApplyFields(q, SavedFields(p, f)) == p
  {
    var r, s, o, c := RangeFields(p), SortFields(p, f), OwnedFields(p, f), SetFields(p);
    ApplyFieldsConcat(q, r + s + o, c);
    ApplyFieldsConcat(q, r + s, o);
    ApplyFieldsConcat(q, r, s);
    RangeFieldsRestore(q, p);
    var q1 := ApplyFields(q, r);
    SortFieldsRestore(q1, p, f);
    var q2 := ApplyFields(q1, s);
    OwnedFieldsRestore(q2, p, f);
    var q3 := ApplyFields(q2, o);
    SetFieldsRestore(q3, p);
  }

  /** Loading what `save_prefs` wrote restores every saved preference,
      whatever the preferences were before. */
  lemma LoadSaved(q: UiPrefs, p: UiPrefs, f: FloatTexts)
    requires Saveable(p) && FloatsAreText(f)
    ensures ApplyLines(q, Lines(SavedPrefs(p, f))) == p
  {
    var fs := SavedFields(p, f);
    var ls := SavedLines(p, f);
    SavedValuesText(p, f);
    SavedLinesAreLines(p, f);
    LinesUnlines(ls);
    assert ls[1..] == FieldLines(fs);
    HeaderIgnored(q);
    ApplyLinesStep(q, ls, 0);
    assert ls[0..] == ls;
    FieldLinesRead(q, fs);
    SavedFieldsRestore(q, p, f);
  }

  lemma SavedLinesAreLines(p: UiPrefs, f: FloatTexts)
    requires forall i :: 0 <= i < |SavedFields(p, f)| ==> IsValueText(SavedFields(p, f)[i].1)
    ensures forall k :: 0 <= k < |SavedLines(p, f)| ==> IsLine(SavedLines(p, f)[k])
  {
    var fs := SavedFields(p, f);
    var ls := SavedLines(p, f);
    FieldLinesAreLines(fs);
    HeaderIsLine();
    assert forall k :: 1 <= k < |ls| ==> ls[k] == FieldLines(fs)[k - 1];
  }

  // ---------------------------------------------------------------------
  // The hotset manifest

  /** One manifest line: a row key and a cached file path. */
  function HotsetLine(key: string, path: string): string { key + "\t" + path }

  /** `split_once('\t')` with both sides non-empty. */
  function ParseHotsetLine(line: string): (r: Option<(string, string)>)
    ensures r.Some? ==> (r.value.0 != [] && r.value.1 != [] && '\t' !in r.value.0
                         && line == HotsetLine(r.value.0, r.value.1))
    ensures r.None? ==> forall k, p :: k != [] && p != [] && '\t' !in k ==> line != HotsetLine(k, p)
  {
    match SplitOnce(line, '\t')
    case None => None
    case Some((k, v)) =>
      if k != [] && v != [] then Some((k, v))
      else
        HotsetLineUnique(line, k, v);
        None
  }

  lemma HotsetLineUnique(line: string, k: string, v: string)
    requires '\t' !in k && line == k + ['\t'] + v
    ensures forall k', p :: '\t' !in k' && line == HotsetLine(k', p) ==> k' == k && p == v
  {
    forall k', p | '\t' !in k' && line == HotsetLine(k', p) ensures k' == k && p == v {
      assert line == k' + ['\t'] + p;
      FirstIndexOfConcat(k, '\t', v);
      FirstIndexOfConcat(k', '\t', p);
      assert line[..|k|] == k && line[..|k'|] == k';
      assert line[|k| + 1..] == v && line[|k'| + 1..] == p;
    }
  }

  /** The entries of the manifest lines, in order. */
  function HotsetEntries(lines: seq<string>): seq<(string, string)>
  {
    if lines == [] then []
    else
      var rest := HotsetEntries(lines[..|lines| - 1]);
      match ParseHotsetLine(lines[|lines| - 1])
      case None => rest
      case Some(e) => rest + [e]
  }

  /** Inserting the entries in order: a later key overwrites an earlier one. */
  function MapOf(es: seq<(string, string)>): map<string, string>
  {
    if es == [] then map[] else MapOf(es[..|es| - 1])[es[|es| - 1].0 := es[|es| - 1].1]
  }

  /** The manifest maps exactly the keys of its entries. */
  lemma {:induction false} MapOfKeys(es: seq<(string, string)>)
    ensures forall k :: k in MapOf(es) <==> exists i :: 0 <= i < |es| && es[i].0 == k
  {
    if es != [] {
      var init := es[..|es| - 1];
      MapOfKeys(init);
      forall k ensures k in MapOf(es) <==> exists i :: 0 <= i < |es| && es[i].0 == k {
        if k in MapOf(init) {
          var i :| 0 <= i < |init| && init[i].0 == k;
          assert es[i].0 == k;
        }
        if exists i :: 0 <= i < |es| && es[i].0 == k {
          var i :| 0 <= i < |es| && es[i].0 == k;
          if i < |init| { assert init[i].0 == k; }
        }
      }
    }
  }

  /** A key maps to the path of its last entry. */
  lemma {:induction false} MapOfLast(es: seq<(string, string)>, i: nat)
    requires i < |es| && forall j :: i < j < |es| ==> es[j].0 != es[i].0
    ensures es[i].0 in MapOf(es) && MapOf(es)[es[i].0] == es[i].1
  {
    if i < |es| - 1 {
      var init := es[..|es| - 1];
      MapOfLast(init, i);
    }
  }

  /** `load_hotset_manifest`, given the text of the manifest. */
  method LoadHotsetManifest(txt: string) returns (out: map<string, string>)
    ensures out == MapOf(HotsetEntries(Lines(txt)))
  {
    var lines := Lines(txt);
    out := map[];
    var i := 0;
    while i < |lines|
      invariant i <= |lines|
      invariant out == MapOf(HotsetEntries(lines[..i]))
    {
      assert lines[..i + 1][..i] == lines[..i];
      match ParseHotsetLine(lines[i]) {
        case None =>
        case Some(e) =>
          assert HotsetEntries(lines[..i + 1]) == HotsetEntries(lines[..i]) + [e];
          out := out[e.0 := e.1];
      }
      i := i + 1;
    }
    assert lines[..i] == lines;
  }

  /** What `save_hotset_manifest` records, as its iterator chain yields it:
      rows with a texture, at most `room` of them, those with a path. */
  function HotsetKept(rows: seq<PosterRow>, room: nat): seq<(string, string)>
    decreases |rows|
  {
    if rows == [] || room == 0 then []
    else if !rows[0].hasTexture then HotsetKept(rows[1..], room)
    else
      (if rows[0].path.Some? then [(rows[0].key, rows[0].path.value)] else [])
      + HotsetKept(rows[1..], room - 1)
  }

  function Textured(rows: seq<PosterRow>): seq<PosterRow>
  {
    if rows == [] then []
    else (if rows[0].hasTexture then [rows[0]] else []) + Textured(rows[1..])
  }

  function WithPaths(rows: seq<PosterRow>): seq<(string, string)>
  {
    if rows == [] then []
    else (if rows[0].path.Some? then [(rows[0].key, rows[0].path.value)] else []) + WithPaths(rows[1..])
  }

  /** The entries are those of the first `room` textured rows that have a
      path: `take` applies before the path filter, so rows without a path
      use up room. */
  lemma {:induction false} HotsetKeptIsTakeOfTextured(rows: seq<PosterRow>, room: nat)
    ensures HotsetKept(rows, room) == WithPaths(Textured(rows)[..Min(room, |Textured(rows)|)])
    decreases |rows|
  {
    var t := Textured(rows);
    if rows == [] || room == 0 {
      assert t[..Min(room, |t|)] == [];
    } else if !rows[0].hasTexture {
      HotsetKeptIsTakeOfTextured(rows[1..], room);
      assert t == Textured(rows[1..]);
    } else {
      HotsetKeptIsTakeOfTextured(rows[1..], room - 1);
      var t1 := Textured(rows[1..]);
      assert t == [rows[0]] + t1;
      var taken := t[..Min(room, |t|)];
      assert taken == [rows[0]] + t1[..Min(room - 1, |t1|)];
      assert taken[1..] == t1[..Min(room - 1, |t1|)];
    }
  }

  function EntryLines(es: seq<(string, string)>): (ls: seq<string>)
    ensures |ls| == |es| && forall i :: 0 <= i < |es| ==> ls[i] == HotsetLine(es[i].0, es[i].1)
  {
    seq(|es|, i requires 0 <= i < |es| => HotsetLine(es[i].0, es[i].1))
  }

  /** `save_hotset_manifest`: the recorded lines joined by '\n'. */
  method SaveHotsetManifest(rows: seq<PosterRow>, maxItems: nat) returns (txt: string)
    ensures txt == Join(EntryLines(HotsetKept(rows, maxItems)), "\n")
  {
    var lines: seq<string> := [];
    ghost var entries: seq<(string, string)> := [];
    var i := 0;
    var room := maxItems;
    while i < |rows| && room > 0
      invariant i <= |rows|
      invariant lines == EntryLines(entries)
      invariant entries + HotsetKept(rows[i..], room) == HotsetKept(rows, maxItems)
    {
      assert rows[i..][1..] == rows[i + 1..];
      var row := rows[i];
      if row.hasTexture {
        if row.path.Some? {
          assert EntryLines(entries + [(row.key, row.path.value)]) == lines + [HotsetLine(row.key, row.path.value)];
          lines := lines + [HotsetLine(row.key, row.path.value)];
          entries := entries + [(row.key, row.path.value)];
        }
        room := room - 1;
      }
      i := i + 1;
    }
    assert HotsetKept(rows[i..], room) == [];
    assert entries == HotsetKept(rows, maxItems);
    txt := Join(lines, "\n");
  }

  /** An entry that can be written and read back: a non-empty key without
      tab or line break, a non-empty path that is one line. */
  predicate SaveableEntry(e: (string, string))
  {
    e.0 != [] && '\t' !in e.0 && '\n' !in e.0 && e.1 != [] && IsLine(e.1)
  }

  lemma {:induction false} LinesJoin(ls: seq<string>)
    requires forall k :: 0 <= k < |ls| ==> ls[k] != [] && IsLine(ls[k])
    ensures Lines(Join(ls, "\n")) == ls
    decreases |ls|
  {
    if |ls| == 1 {
      assert Join(ls, "\n") == ls[0];
      assert StripCr(ls[0]) == ls[0];
    } else if |ls| >= 2 {
      var rest := Join(ls[1..], "\n");
      var s := Join(ls, "\n");
      assert s == ls[0] + ['\n'] + rest;
      FirstIndexOfConcat(ls[0], '\n', rest);
      assert s[..|ls[0]|] == ls[0];
      assert s[|ls[0]| + 1..] == rest;
      LinesJoin(ls[1..]);
    }
  }

  lemma {:induction false} EntriesOfLines(es: seq<(string, string)>)
    requires forall i :: 0 <= i < |es| ==> SaveableEntry(es[i])
    ensures HotsetEntries(EntryLines(es)) == es
    decreases |es|
  {
    if es != [] {
      var init := es[..|es| - 1];
      var e := es[|es| - 1];
      var ls := EntryLines(es);
      EntriesOfLines(init);
      assert ls[..|ls| - 1] == EntryLines(init);
      EntryLineParses(e);
      assert HotsetEntries(ls) == HotsetEntries(EntryLines(init)) + [e];
      assert es == init + [e];
    }
  }

  /** The line of an entry that can be written reads back as the entry. */
  lemma EntryLineParses(e: (string, string))
    requires SaveableEntry(e)
    ensures ParseHotsetLine(HotsetLine(e.0, e.1)) == Some(e)
  {
    var line := HotsetLine(e.0, e.1);
    assert line == e.0 + ['\t'] + e.1;
    var r := SplitOnce(line, '\t');
    HotsetLineUnique(line, r.value.0, r.value.1);
  }

  /** Reading back a manifest `save_hotset_manifest` wrote gives its
      entries, so every recorded key maps to the path of its last entry. */
  lemma HotsetRoundTrip(rows: seq<PosterRow>, maxItems: nat)
    requires forall i :: 0 <= i < |HotsetKept(rows, maxItems)| ==> SaveableEntry(HotsetKept(rows, maxItems)[i])
    ensures HotsetEntries(Lines(Join(EntryLines(HotsetKept(rows, maxItems)), "\n"))) == HotsetKept(rows, maxItems)
  {
    var es := HotsetKept(rows, maxItems);
    var ls := EntryLines(es);
    forall k | 0 <= k < |ls| ensures ls[k] != [] && IsLine(ls[k]) {
      var e := es[k];
      assert ls[k] == e.0 + ['\t'] + e.1;
      assert ls[k][|ls[k]| - 1] == e.1[|e.1| - 1];
    }
    LinesJoin(ls);
    EntriesOfLines(es);
  }
}
