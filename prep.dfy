// The poster preparation of `src/app/prep.rs`: the channel metadata a row
// carries in `extra_data`, the once-a-day mirror decision for the Plex
// databases, the harvest of guide rows into preparation items with their
// de-duplication by title, and the two entry points on the application,
// `start_poster_prep` and `poll_prep`.
//
// File metadata, the clock, the SQLite rows and the results of `md5` and of
// the cache-directory probe are parameters; times are nanoseconds since
// the Unix epoch.

module Prep {
  import opened Text
  import opened Types
  import opened Utils
  import opened App
  import Owned
  import Prefetch
  import Scheduled
  import Sorting

  // ------------------------------------------------------ channel metadata

  /** The text `"key":"` that introduces a string value of `key`. */
  function Needle(key: string): string
  {
    ['"'] + key + "\":\""
  }

  /** `find_val`: the text between the first `"key":"` and the next quote;
      None when there is no such key, no closing quote, or the value is
      empty. */
  function FindVal(hay: string, key: string): (r: Option<string>)
    ensures Find(hay, Needle(key)).None? ==> r.None?
    ensures Find(hay, Needle(key)).Some? ==>
              var start := Find(hay, Needle(key)).value + |Needle(key)|;
              (r.Some? ==> r.value != [] && '"' !in r.value && OccursAt(hay, r.value + "\"", start)) &&
              (r.None? ==> '"' !in hay[start..] || (start < |hay| && hay[start] == '"'))
  {
    var needle := Needle(key);
    match Find(hay, needle)
    case None => None
    case Some(p) =>
      var rest := hay[p + |needle|..];
      match Find(rest, "\"")
      case None => NoQuote(rest); None
      case Some(e) =>
        QuoteFree(rest, e);
        assert rest[..e] + "\"" == rest[..e + 1];
        if e == 0 then None else Some(rest[..e])
  }

  lemma NoQuote(s: string)
    requires Find(s, "\"").None?
    ensures '"' !in s
  {
    forall i | 0 <= i < |s| ensures s[i] != '"' {
      assert !OccursAt(s, "\"", i);
      assert s[i..i + 1] == [s[i]];
    }
  }

  lemma QuoteFree(s: string, e: nat)
    requires Find(s, "\"") == Some(e)
    ensures e < |s| && s[e] == '"' && '"' !in s[..e]
  {
    assert s[e..e + 1] == "\"";
    forall i | 0 <= i < e ensures s[i] != '"' {
      assert !OccursAt(s, "\"", i);
      assert s[i..i + 1] == [s[i]];
    }
  }

  /** An occurrence with none before it is what `Find` returns. */
  lemma FindIsFirst(s: string, p: string, i: nat)
    requires OccursAt(s, p, i) && forall j :: 0 <= j < i ==> !OccursAt(s, p, j)
    ensures Find(s, p) == Some(i)
  {
  }

  /** The first occurrence in a prefix is the first occurrence in the
      whole string. */
  lemma FindInPrefix(s: string, t: string, p: string)
    requires Find(s, p).Some?
    ensures Find(s + t, p) == Find(s, p)
  {
    var i := Find(s, p).value;
    assert (s + t)[i..i + |p|] == s[i..i + |p|];
    forall j | 0 <= j < i ensures !OccursAt(s + t, p, j) {
      assert !OccursAt(s, p, j);
      assert (s + t)[j..j + |p|] == s[j..j + |p|];
    }
    FindIsFirst(s + t, p, i);
  }

  /** A non-empty value without quotes after the first `"key":"` is what
      `find_val` returns. */
  lemma FindValOf(pre: string, key: string, v: string, post: string)
    requires Find(pre + Needle(key), Needle(key)) == Some(|pre|)
    requires v != [] && '"' !in v
    ensures FindVal(pre + Needle(key) + v + "\"" + post, key) == Some(v)
  {
    KeyStillFirst(pre, key, v, post);
    ValueAfterKey(pre, key, v, post);
    FindValAt(pre + Needle(key) + v + "\"" + post, key, |pre|, |v|);
  }

  /** Text appended after the first occurrence of the key leaves it first. */
  lemma KeyStillFirst(pre: string, key: string, v: string, post: string)
    requires Find(pre + Needle(key), Needle(key)) == Some(|pre|)
    ensures Find(pre + Needle(key) + v + "\"" + post, Needle(key)) == Some(|pre|)
  {
    assert pre + Needle(key) + v + "\"" + post == (pre + Needle(key)) + (v + "\"" + post);
    FindInPrefix(pre + Needle(key), v + "\"" + post, Needle(key));
  }

  /** After the key come the value and the quote that ends it. */
  lemma ValueAfterKey(pre: string, key: string, v: string, post: string)
    requires '"' !in v
    ensures var hay := pre + Needle(key) + v + "\"" + post;
            && |pre| + |Needle(key)| <= |hay|
            && Find(hay[|pre| + |Needle(key)|..], "\"") == Some(|v|)
            && hay[|pre| + |Needle(key)|..][..|v|] == v
  {
    var hay := pre + Needle(key) + v + "\"" + post;
    assert hay[|pre| + |Needle(key)|..] == v + "\"" + post;
    QuoteAfter(v, post);
  }

  /** The first quote after a quote-free value is the one that ends it. */
  lemma QuoteAfter(v: string, post: string)
    requires '"' !in v
    ensures Find(v + "\"" + post, "\"") == Some(|v|)
  {
    var rest := v + "\"" + post;
    assert rest[|v|..|v| + 1] == "\"";
    forall j | 0 <= j < |v| ensures !OccursAt(rest, "\"", j) {
      assert rest[j] == v[j];
      assert rest[j..j + 1] == [v[j]];
    }
    FindIsFirst(rest, "\"", |v|);
  }

  /** `find_val` when the key is first found at `p` and a quote ends a
      non-empty value `e` characters after it. */
  lemma FindValAt(hay: string, key: string, p: nat, e: nat)
    requires Find(hay, Needle(key)) == Some(p)
    requires Find(hay[p + |Needle(key)|..], "\"") == Some(e) && e > 0
    ensures FindVal(hay, key) == Some(hay[p + |Needle(key)|..][..e])
  {
  }

  const CALL_SIGN_KEY: string := "at:channelCallSign"
  const CHANNEL_TITLE_KEY: string := "at:channelTitle"
  const CHANNEL_THUMB_KEY: string := "at:channelThumb"

  datatype ChannelMeta = ChannelMeta(callSign: Option<string>, title: Option<string>, thumb: Option<string>)

  /** A channel value read for `key`: none when the needle is missing, and
      when present a non-empty text without quotes. */
  predicate ChannelValue(extra: string, key: string, v: Option<string>)
  {
    (Find(extra, Needle(key)).None? ==> v.None?) && (v.Some? ==> v.value != [] && '"' !in v.value)
  }

  /** `parse_channel_meta`: the three channel values of `extra_data`. */
  function ParseChannelMeta(extra: string): (r: ChannelMeta)
    ensures ChannelValue(extra, CALL_SIGN_KEY, r.callSign)
    ensures ChannelValue(extra, CHANNEL_TITLE_KEY, r.title)
    ensures ChannelValue(extra, CHANNEL_THUMB_KEY, r.thumb)
  {
    ChannelMeta(FindVal(extra, CALL_SIGN_KEY), FindVal(extra, CHANNEL_TITLE_KEY), FindVal(extra, CHANNEL_THUMB_KEY))
  }

  // --------------------------------------------------------- mirror copies

  const MIN_COPY_INTERVAL_HOURS: nat := 24
  const NANOS_PER_SEC: nat := 1_000_000_000

  /** What `fs::metadata` reports: the length, and the modification time
      when the platform has one. */
  datatype FileMeta = FileMeta(len: nat, modified: Option<int>)

  /** `modified().unwrap_or(UNIX_EPOCH)`. */
  function ModifiedOrEpoch(m: FileMeta): int
  {
    if m.modified.Some? then m.modified.value else 0
  }

  /** `duration_since(..).unwrap_or_default().as_secs()`: whole seconds,
      zero for a time in the future. */
  function AgeSecs(now: int, t: int): nat
  {
    if now >= t then (now - t) / NANOS_PER_SEC else 0
  }

  /** `fresh_enough`: the marker exists and was written less than 24 hours
      ago (or claims a time in the future). */
  function FreshEnough(marker: Option<FileMeta>, now: int): (r: bool)
    ensures marker.None? ==> !r
    ensures marker.Some? ==> (r <==> now - ModifiedOrEpoch(marker.value) < MIN_COPY_INTERVAL_HOURS * 3600 * NANOS_PER_SEC)
  {
    match marker
    case None => false
    case Some(meta) => AgeSecs(now, ModifiedOrEpoch(meta)) < MIN_COPY_INTERVAL_HOURS * 3600
  }

  /** The error `needs_db_update_daily` reports for an unreadable source. */
  function SrcMetaError(e: string): string
  {
    "src meta: " + e
  }

  /** `needs_db_update_daily`, given the marker's, the source's and the
      local copy's metadata: no copy while the marker is fresh; otherwise
      an unreadable source is an error, and a copy is needed when there is
      no local copy, the sizes differ or the source is newer. */
  function NeedsDbUpdateDaily(marker: Option<FileMeta>, src: Result<FileMeta>, dst: Option<FileMeta>, now: int): (r: Result<bool>)
    ensures FreshEnough(marker, now) ==> r == Ok(false)
    ensures !FreshEnough(marker, now) && src.Err? ==> r == Err(SrcMetaError(src.error))
    ensures !FreshEnough(marker, now) && src.Ok? ==>
              r.Ok? && (r.value <==> dst.None? || dst.value.len != src.value.len ||
                                     ModifiedOrEpoch(src.value) > ModifiedOrEpoch(dst.value))
  {
    if FreshEnough(marker, now) then Ok(false)
    else match src
      case Err(e) => Err(SrcMetaError(e))
      case Ok(s) =>
        match dst
        case None => Ok(true)
        case Some(d) =>
          if s.len != d.len then Ok(true)
          else Ok(ModifiedOrEpoch(s) > ModifiedOrEpoch(d))
  }

  /** Once a copy of an unchanged source has been made and the marker
      touched, no later check asks for another copy: within the day the
      marker is fresh, afterwards sizes agree and the copy is not older. */
  lemma CopiedSourceStaysCopied(src: FileMeta, copiedAt: int, now: int)
    requires ModifiedOrEpoch(src) <= copiedAt <= now
    ensures NeedsDbUpdateDaily(Some(FileMeta(2, Some(copiedAt))), Ok(src), Some(FileMeta(src.len, Some(copiedAt))), now) == Ok(false)
  {
  }

  /** A marker written a full day before is stale. */
  lemma MarkerExpires(t: int, now: int)
    requires now >= t + MIN_COPY_INTERVAL_HOURS * 3600 * NANOS_PER_SEC
    ensures !FreshEnough(Some(FileMeta(2, Some(t))), now)
  {
  }

  // ---------------------------------------------------------------- harvest

  /** One result row of the poster query, each column already read as an
      optional value. */
  datatype DbRow = DbRow(
    title: Option<string>,
    url: Option<string>,
    beginsAt: Option<int>,
    year: Option<int>,
    tags: Option<string>,
    extra: Option<string>,
    guid: Option<string>)

  predicate IsHttpUrl(u: string)
  {
    StartsWith(u, "http://") || StartsWith(u, "https://")
  }

  /** A row becomes an item when it has a title that is not blank and an
      http(s) URL. */
  predicate Harvestable(r: DbRow)
  {
    r.title.Some? && r.url.Some? && Trim(r.title.value) != [] && IsHttpUrl(r.url.value)
  }

  /** The item built from a harvestable row: the trimmed title, the URL,
      its cache key (`url_to_cache_key`, the MD5 hex digest) and the
      channel metadata of `extra_data`. */
  function ToPrepItem(r: DbRow, md5Hex: string -> string): PrepItem
    requires Harvestable(r)
  {
    var meta := if r.extra.Some? then ParseChannelMeta(r.extra.value) else ChannelMeta(None, None, None);
    PrepItem(Trim(r.title.value), r.url.value, md5Hex(r.url.value), r.beginsAt, r.year, r.tags,
             meta.callSign, meta.title, meta.thumb, r.guid)
  }

  /** The items of the harvestable rows, in query order. */
  function Harvested(rows: seq<DbRow>, md5Hex: string -> string): seq<PrepItem>
  {
    if rows == [] then []
    else
      var r := rows[|rows| - 1];
      Harvested(rows[..|rows| - 1], md5Hex) + (if Harvestable(r) then [ToPrepItem(r, md5Hex)] else [])
  }

  /** The harvest loop over the query rows. */
  method Harvest(rows: seq<DbRow>, md5Hex: string -> string) returns (list: seq<PrepItem>)
    ensures list == Harvested(rows, md5Hex)
  {
    list := [];
    var i := 0;
    while i < |rows|
      invariant i <= |rows|
      invariant list == Harvested(rows[..i], md5Hex)
    {
      var r := rows[i];
      assert rows[..i + 1][..i] == rows[..i];
      if r.title.Some? && r.url.Some? {
        var tt := Trim(r.title.value);
        var u := r.url.value;
        if tt != [] && (StartsWith(u, "http://") || StartsWith(u, "https://")) {
          list := list + [ToPrepItem(r, md5Hex)];
        }
      }
      i := i + 1;
    }
    assert rows[..i] == rows;
  }

  /** Every item has a trimmed, non-empty title and an http(s) URL whose
      digest is its key. */
  lemma {:induction false} HarvestedSound(rows: seq<DbRow>, md5Hex: string -> string)
    ensures forall k :: 0 <= k < |Harvested(rows, md5Hex)| ==>
              var it := Harvested(rows, md5Hex)[k];
              it.title != [] && !IsWhitespace(it.title[0]) && !IsWhitespace(it.title[|it.title| - 1]) &&
              IsHttpUrl(it.thumbUrl) && it.key == md5Hex(it.thumbUrl)
  {
    if rows != [] {
      HarvestedSound(rows[..|rows| - 1], md5Hex);
    }
  }

  /** Every harvestable row gives its item. */
  lemma {:induction false} HarvestedComplete(rows: seq<DbRow>, md5Hex: string -> string, i: nat)
    requires i < |rows| && Harvestable(rows[i])
    ensures ToPrepItem(rows[i], md5Hex) in Harvested(rows, md5Hex)
  {
    if i < |rows| - 1 {
      HarvestedComplete(rows[..|rows| - 1], md5Hex, i);
    }
  }

  // ---------------------------------------------------------------- dedupe

  /** The de-duplication key: the ASCII-lowercased title. */
  function TitleKey(item: PrepItem): string
  {
    ToAsciiLower(item.title)
  }

  function Titles(list: seq<PrepItem>): set<string>
  {
    if list == [] then {} else Titles(list[..|list| - 1]) + {TitleKey(list[|list| - 1])}
  }

  lemma {:induction false} TitlesMember(list: seq<PrepItem>, t: string)
    ensures t in Titles(list) <==> exists k :: 0 <= k < |list| && TitleKey(list[k]) == t
  {
    if list != [] {
      TitlesMember(list[..|list| - 1], t);
    }
  }

  /** Each item whose title key no earlier item has, in their order. */
  function Deduped(list: seq<PrepItem>): seq<PrepItem>
  {
    if list == [] then []
    else
      var init := list[..|list| - 1];
      var x := list[|list| - 1];
      Deduped(init) + (if TitleKey(x) in Titles(init) then [] else [x])
  }

  /** `list.retain(|item| seen.insert(item.title.to_ascii_lowercase()))`. */
  method Dedupe(list: seq<PrepItem>) returns (out: seq<PrepItem>)
    ensures out == Deduped(list)
  {
    var seen: set<string> := {};
    out := [];
    var i := 0;
    while i < |list|
      invariant i <= |list|
      invariant seen == Titles(list[..i])
      invariant out == Deduped(list[..i])
    {
      var item := list[i];
      assert list[..i + 1][..i] == list[..i];
      var key := ToAsciiLower(item.title);
      if key !in seen {
        out := out + [item];
      }
      seen := seen + {key};
      i := i + 1;
    }
    assert list[..i] == list;
  }

  /** No title key is lost. */
  lemma {:induction false} DedupedTitles(list: seq<PrepItem>)
    ensures Titles(Deduped(list)) == Titles(list)
  {
    if list != [] {
      var init := list[..|list| - 1];
      var x := list[|list| - 1];
      DedupedTitles(init);
      TitlesConcat(Deduped(init), if TitleKey(x) in Titles(init) then [] else [x]);
    }
  }

  lemma {:induction false} TitlesConcat(a: seq<PrepItem>, b: seq<PrepItem>)
    ensures Titles(a + b) == Titles(a) + Titles(b)
  {
    if b == [] {
      assert a + b == a;
    } else {
      assert (a + b)[..|a + b| - 1] == a + b[..|b| - 1];
      TitlesConcat(a, b[..|b| - 1]);
    }
  }

  /** No two items left share a title key. */
  lemma {:induction false} DedupedUnique(list: seq<PrepItem>)
    ensures forall i, j :: 0 <= i < j < |Deduped(list)| ==> TitleKey(Deduped(list)[i]) != TitleKey(Deduped(list)[j])
  {
    if list != [] {
      var init := list[..|list| - 1];
      var x := list[|list| - 1];
      DedupedUnique(init);
      DedupedTitles(init);
      var d := Deduped(init);
      if TitleKey(x) !in Titles(init) {
        forall i | 0 <= i < |d| ensures TitleKey(d[i]) != TitleKey(x) {
          TitlesMember(d, TitleKey(d[i]));
        }
      }
    }
  }

  /** The first item of each title key is the one kept. */
  lemma {:induction false} DedupedKeepsFirst(list: seq<PrepItem>, i: nat)
    requires i < |list| && TitleKey(list[i]) !in Titles(list[..i])
    ensures list[i] in Deduped(list)
  {
    if i == |list| - 1 {
      assert list[..|list| - 1] == list[..i];
    } else {
      assert list[..|list| - 1][..i] == list[..i];
      DedupedKeepsFirst(list[..|list| - 1], i);
    }
  }

  /** Only items of the list are kept, and de-duplicating again changes
      nothing. */
  lemma {:induction false} DedupedIdempotent(list: seq<PrepItem>)
    ensures forall k :: 0 <= k < |Deduped(list)| ==> Deduped(list)[k] in list
    ensures Deduped(Deduped(list)) == Deduped(list)
  {
    DedupedUnique(list);
    UniqueDeduped(Deduped(list));
    DedupedSub(list);
  }

  lemma {:induction false} DedupedSub(list: seq<PrepItem>)
    ensures forall k :: 0 <= k < |Deduped(list)| ==> Deduped(list)[k] in list
  {
    if list != [] {
      DedupedSub(list[..|list| - 1]);
    }
  }

  /** A list whose title keys are distinct is its own de-duplication. */
  lemma {:induction false} UniqueDeduped(list: seq<PrepItem>)
    requires forall i, j :: 0 <= i < j < |list| ==> TitleKey(list[i]) != TitleKey(list[j])
    ensures Deduped(list) == list
  {
    if list != [] {
      var init := list[..|list| - 1];
      UniqueDeduped(init);
      TitlesMember(init, TitleKey(list[|list| - 1]));
      assert init + [list[|list| - 1]] == list;
    }
  }

  // ------------------------------------------------------- item to grid row

  /** What the conversion of items into rows needs from outside: the MD5
      hex digest and the probe of the poster cache (`find_any_by_key`). */
  datatype RowSources = RowSources(md5Hex: string -> string, cachedPath: string -> Option<string>)

  /** The row `poll_prep` builds for an item: the channel is the channel
      title when it is not blank, else the call sign or the thumbnail's
      host, humanized; the key is the small-poster key and the row is
      cached when the cache holds a file for it. A negative start time
      gives no airing time. */
  function ItemToRow(item: PrepItem, env: RowSources): (r: PosterRow)
    ensures r.title == item.title && r.url == item.thumbUrl && r.year == item.year && r.guid == item.guid
    ensures r.airing.Some? <==> item.beginsAt.Some? && item.beginsAt.value >= 0
    ensures r.airing.Some? ==> r.airing.value == item.beginsAt.value
    ensures r.ownedKey == MakeOwnedKey(item.title, item.year, env.md5Hex)
  {
    var airing: Option<nat> := if item.beginsAt.Some? && item.beginsAt.value >= 0 then Some(item.beginsAt.value) else None;
    var channelRaw := if item.channelCallSign.Some? then item.channelCallSign else HostFromUrl(item.thumbUrl);
    var channelTitle := if item.channelTitle.Some? && !IsBlank(item.channelTitle.value) then item.channelTitle else None;
    var channel :=
      if channelTitle.Some? then Some(HumanizedChannel(channelTitle.value))
      else if channelRaw.Some? then Some(HumanizedChannel(channelRaw.value))
      else None;
    var smallKey := SmallKey(item.key);
    var path := env.cachedPath(smallKey);
    var genres := if item.tagsGenre.Some? then ParseGenres(item.tagsGenre.value) else [];
    var tagsJoined := if genres != [] then Some(Join(genres, "|")) else None;
    PosterRow(item.title, item.thumbUrl, smallKey, airing, item.year, channel, channelRaw, item.channelThumb,
              genres, item.guid, path, false, if path.Some? then Cached else Pending, false, None,
              MakeOwnedKey(item.title, item.year, env.md5Hex), InferBroadcastHd(tagsJoined, channel), false)
  }

  /** The channel of a row: the humanized channel title when it is not
      blank, else the humanized call sign, else the humanized host of the
      thumbnail URL; a present channel is never empty and has no double
      space, '_' or '-'. */
  lemma ItemToRowChannel(item: PrepItem, env: RowSources)
    ensures var r := ItemToRow(item, env);
            (item.channelCallSign.Some? ==> r.channelRaw == item.channelCallSign) &&
            (item.channelCallSign.None? ==> r.channelRaw == HostFromUrl(item.thumbUrl))
    ensures var r := ItemToRow(item, env);
            r.channel.None? <==> (item.channelTitle.None? || IsBlank(item.channelTitle.value)) && r.channelRaw.None?
    ensures var r := ItemToRow(item, env);
            item.channelTitle.Some? && !IsBlank(item.channelTitle.value) ==>
              r.channel == Some(HumanizedChannel(item.channelTitle.value))
    ensures var r := ItemToRow(item, env);
            r.channel.Some? ==> r.channel.value != [] && NoDoubleSpace(r.channel.value) && NoSeparator(r.channel.value)
  {
    var r := ItemToRow(item, env);
    if r.channel.Some? {
      var raw :| r.channel.value == HumanizedChannel(raw);
      HumanizedHasNoSeparator(raw);
    }
  }

  /** A new row is cached exactly when the cache holds its poster, and is
      neither owned nor scheduled until those flags are applied. */
  lemma ItemToRowFresh(item: PrepItem, env: RowSources)
    ensures var row := ItemToRow(item, env);
            row.key == SmallKey(item.key) && row.path == env.cachedPath(SmallKey(item.key)) &&
            (row.state == Cached <==> row.path.Some?) && (row.state != Cached ==> row.state == Pending) &&
            !row.owned && !row.scheduled && !row.hasTexture
  {
  }

  function ItemsToRows(items: seq<PrepItem>, env: RowSources): (rows: seq<PosterRow>)
    ensures |rows| == |items|
    ensures forall k :: 0 <= k < |items| ==> rows[k] == ItemToRow(items[k], env)
  {
    seq(|items|, k requires 0 <= k < |items| => ItemToRow(items[k], env))
  }

  /** The warm start from the hotset manifest: a row whose key it lists
      takes the listed path and the cached state when that file exists. */
  function WarmStart(rows: seq<PosterRow>, hotset: map<string, string>, fileExists: string -> bool): (r: seq<PosterRow>)
    ensures |r| == |rows|
    ensures forall k :: 0 <= k < |rows| ==>
              if rows[k].key in hotset && fileExists(hotset[rows[k].key])
              then r[k] == rows[k].(path := Some(hotset[rows[k].key]), state := Cached)
              else r[k] == rows[k]
  {
    seq(|rows|, k requires 0 <= k < |rows| =>
      if rows[k].key in hotset && fileExists(hotset[rows[k].key])
      then rows[k].(path := Some(hotset[rows[k].key]), state := Cached)
      else rows[k])
  }

  /** The channel icons to fetch: every distinct non-empty channel
      thumbnail of the rows. */
  function IconUrls(rows: seq<PosterRow>): (r: set<string>)
    ensures forall u :: u in r <==> u != [] && exists k :: 0 <= k < |rows| && rows[k].channelThumb == Some(u)
  {
    if rows == [] then {}
    else
      var t := rows[|rows| - 1].channelThumb;
      IconUrls(rows[..|rows| - 1]) + (if t.Some? && t.value != [] then {t.value} else {})
  }

  // ------------------------------------------------------------ poll_prep

  const MAX_PREP_MSGS: nat := 16

  /** What `poll_prep` needs from outside: the conversion of items into
      rows and whether a file exists. */
  datatype PrepEnv = PrepEnv(toRows: seq<PrepItem> -> seq<PosterRow>, fileExists: string -> bool)

  /** The environment of the application: items become rows by
      `ItemsToRows`. */
  function AppEnv(sources: RowSources, fileExists: string -> bool): (env: PrepEnv)
    ensures forall items :: env.toRows(items) == ItemsToRows(items, sources)
  {
    PrepEnv(items => ItemsToRows(items, sources), fileExists)
  }

  /** The fields `poll_prep` reads and writes; `ownedKnown` is
      `owned_keys.is_some()`. */
  datatype PrepView = PrepView(
    bootPhase: BootPhase,
    rows: seq<PosterRow>,
    hasPrepRx: bool,
    ownedKnown: bool,
    channelIconTextures: set<string>,
    channelIconPending: set<string>,
    lastHotset: Option<map<string, string>>)

  function PrepViewOf(app: PexApp): PrepView
    reads app
  {
    PrepView(app.bootPhase, app.rows, app.hasPrepRx, app.ownedKeys.Some?, app.channelIconTextures,
             app.channelIconPending, app.lastHotset)
  }

  /** An info message moves the boot phase to caching unless it is already
      caching or ready. */
  function InfoPhase(p: BootPhase): (q: BootPhase)
    ensures q == BootReady <==> p == BootReady
    ensures q != BootReady ==> q == Caching
  {
    if p == Caching || p == BootReady then p else Caching
  }

  /** The `Done` message: the items become the rows, warmed from the
      hotset, their channel icons are queued, and the boot phase is ready
      when the owned keys are known and caching otherwise. */
  function DoneView(v: PrepView, items: seq<PrepItem>, env: PrepEnv): PrepView
  {
    var rows := env.toRows(items);
    var warmed := if v.lastHotset.Some? then WarmStart(rows, v.lastHotset.value, env.fileExists) else rows;
    v.(rows := warmed, channelIconTextures := {}, channelIconPending := v.channelIconPending + IconUrls(rows),
       lastHotset := None, bootPhase := if v.ownedKnown then BootReady else Caching, hasPrepRx := false)
  }

  /** How many info messages the drain loop takes before it stops: all
      the leading ones, but no more than 16. */
  function InfoRun(msgs: seq<PrepMsg>, processed: nat): (n: nat)
    requires processed <= MAX_PREP_MSGS
    ensures processed + n <= MAX_PREP_MSGS && n <= |msgs|
    ensures forall k :: 0 <= k < n ==> msgs[k].PrepInfo?
    ensures processed + n < MAX_PREP_MSGS && n < |msgs| ==> !msgs[n].PrepInfo?
    decreases |msgs|
  {
    if processed == MAX_PREP_MSGS || msgs == [] || !msgs[0].PrepInfo? then 0
    else 1 + InfoRun(msgs[1..], processed + 1)
  }

  /** After `Done` the receiver is gone, the hotset has been used up, the
      icon textures are cleared and every channel icon of the new rows is
      pending; the boot phase is ready exactly when the owned keys are
      known, and caching otherwise. */
  lemma DoneEffect(v: PrepView, items: seq<PrepItem>, env: PrepEnv)
    ensures var w := DoneView(v, items, env);
            !w.hasPrepRx && w.lastHotset.None? && w.channelIconTextures == {} &&
            w.channelIconPending == v.channelIconPending + IconUrls(env.toRows(items)) &&
            (w.bootPhase == BootReady <==> v.ownedKnown) && (w.bootPhase != BootReady ==> w.bootPhase == Caching)
    ensures v.lastHotset.None? ==> DoneView(v, items, env).rows == env.toRows(items)
  {
  }

  /** The drain loop of `poll_prep`: the new fields and the number of
      messages taken. The channel holds `msgs` and then is empty, or is
      disconnected when `disconnected` is set. The loop takes the leading
      info messages, up to 16; unless it stopped at that bound, a `Done`
      or `Error` that follows is taken too and drops the receiver, as does
      a disconnected channel. */
  function Drained(v: PrepView, msgs: seq<PrepMsg>, disconnected: bool, env: PrepEnv): (r: (PrepView, nat))
    ensures r.1 <= |msgs| && r.1 <= MAX_PREP_MSGS + 1 && r.0.ownedKnown == v.ownedKnown
  {
    var n := InfoRun(msgs, 0);
    var v1 := if n > 0 then v.(bootPhase := InfoPhase(v.bootPhase)) else v;
    if n == MAX_PREP_MSGS then (v1, n)
    else if n == |msgs| then (if disconnected then v1.(hasPrepRx := false) else v1, n)
    else (Terminal(v1, msgs[n], env), n + 1)
  }

  /** The message that ends the drain loop: `Done` installs the rows and
      `Error` drops the receiver. */
  function Terminal(v: PrepView, m: PrepMsg, env: PrepEnv): (w: PrepView)
    ensures w.ownedKnown == v.ownedKnown && !w.hasPrepRx
  {
    match m
    case PrepDone(items) => DoneView(v, items, env)
    case PrepError(_) => v.(hasPrepRx := false)
    case PrepInfo(_) => v.(hasPrepRx := false)
  }

  /** `poll_prep`: nothing without a receiver. */
  function Polled(v: PrepView, msgs: seq<PrepMsg>, disconnected: bool, env: PrepEnv): (PrepView, nat)
  {
    if v.hasPrepRx then Drained(v, msgs, disconnected, env) else (v, 0)
  }

  /** At most 16 info messages are taken, every message taken before the
      last is an info message, and a final `Done` or `Error` drops the
      receiver. */
  lemma DrainedBounds(v: PrepView, msgs: seq<PrepMsg>, disconnected: bool, env: PrepEnv)
    ensures var (w, n) := Drained(v, msgs, disconnected, env);
            (forall k :: 0 <= k < n && msgs[k].PrepInfo? ==> k < MAX_PREP_MSGS) &&
            (forall k :: 0 <= k < n - 1 ==> msgs[k].PrepInfo?) &&
            (n > 0 && !msgs[n - 1].PrepInfo? ==> !w.hasPrepRx)
  {
  }

  /** Without a `Done` message the rows stay as they are, and the boot
      phase moves as the first info message moves it. */
  lemma DrainedPhase(v: PrepView, msgs: seq<PrepMsg>, disconnected: bool, env: PrepEnv)
    requires forall k :: 0 <= k < |msgs| ==> !msgs[k].PrepDone?
    ensures var (w, n) := Drained(v, msgs, disconnected, env);
            w.rows == v.rows &&
            w.bootPhase == (if n > 0 && msgs[0].PrepInfo? then InfoPhase(v.bootPhase) else v.bootPhase)
  {
  }

  /** The drain loop, on the fields as values. */
  method DrainPrep(v0: PrepView, msgs: seq<PrepMsg>, disconnected: bool, env: PrepEnv) returns (v: PrepView, consumed: nat)
    ensures (v, consumed) == Drained(v0, msgs, disconnected, env)
  {
    v := v0;
    consumed := 0;
    var processed: nat := 0;
    while true
      invariant processed == consumed <= |msgs| && processed <= MAX_PREP_MSGS
      invariant InfoRun(msgs, 0) == consumed + InfoRun(msgs[consumed..], processed)
      invariant v == if consumed > 0 then v0.(bootPhase := InfoPhase(v0.bootPhase)) else v0
      decreases |msgs| - consumed
    {
      if processed >= MAX_PREP_MSGS || consumed >= |msgs| || !msgs[consumed].PrepInfo? {
        break;
      }
      assert msgs[consumed..][1..] == msgs[consumed + 1..];
      v := v.(bootPhase := InfoPhase(v.bootPhase));
      processed := processed + 1;
      consumed := consumed + 1;
    }
    assert InfoRun(msgs[consumed..], processed) == 0;
    ghost var n := InfoRun(msgs, 0);
    assert n == consumed;
    if processed >= MAX_PREP_MSGS {
      return;
    }
    if consumed >= |msgs| {
      if disconnected {
        v := v.(hasPrepRx := false);
      }
      return;
    }
    v := Terminal(v, msgs[consumed], env);
    consumed := consumed + 1;
  }

  /** Whether the drain loop ends on a `Done` message. */
  predicate DoneTaken(msgs: seq<PrepMsg>)
  {
    var n := InfoRun(msgs, 0);
    n < MAX_PREP_MSGS && n < |msgs| && msgs[n].PrepDone?
  }

  /** What the `Done` arm of `poll_prep` goes on to do once the rows are
      in place: the scheduled flags are refreshed from `loaded`, the owned
      flags applied, and prefetch started (see `Prefetch.Started`). */
  function AfterDone(v: Prefetch.PrefetchView, loaded: Option<Scheduled.ScheduledIndex>, ownedKeys: Option<set<string>>,
                     ownedModified: Option<map<string, Option<nat>>>, variantsOf: Owned.VariantsOf,
                     prefetchDisabled: bool, nowBucket: nat, clientOk: bool): (Prefetch.PrefetchView, seq<Prefetch.WorkItem>)
    reads if loaded.Some? then {loaded.value} else {}
  {
    var flagged := Owned.OwnedFlagged(ScheduledRows(ChosenIndex(loaded), v.rows), ownedKeys, ownedModified, variantsOf);
    Prefetch.Started(v.(rows := flagged), prefetchDisabled, nowBucket, clientOk)
  }

  /** After a `Done`, with prefetch enabled, rows to show and an HTTP
      client: prefetch has started with every row as a target; each row is
      marked scheduled exactly when the kept index reports it, is owned
      exactly when one of its key variants or its own key is in the owned
      set, waits in the cache state its path gives it, and is sent to the
      workers once. */
  lemma AfterDoneRows(v: Prefetch.PrefetchView, loaded: Option<Scheduled.ScheduledIndex>, keys: set<string>,
                      modified: Option<map<string, Option<nat>>>, vf: Owned.VariantsOf, nowBucket: nat, i: nat)
    requires !v.prefetchStarted && i < |v.rows|
    ensures var (w, items) := AfterDone(v, loaded, Some(keys), modified, vf, false, nowBucket, true);
            var vs := vf(v.rows[i].title, v.rows[i].year);
            w.prefetchStarted && w.totalTargets == |v.rows| && w.failed == 0 && |w.rows| == |v.rows| &&
            w.rows[i].scheduled == RowScheduled(ChosenIndex(loaded), v.rows[i]) &&
            (w.rows[i].owned <==> (exists k :: 0 <= k < |vs| && vs[k] in keys) || v.rows[i].ownedKey in keys) &&
            w.rows[i].state == (if v.rows[i].path.Some? then Cached else Pending) &&
            i in Prefetch.RowIdxs(items) && Sorting.NoDup(Prefetch.RowIdxs(items))
  {
    var scheduled := ScheduledRows(ChosenIndex(loaded), v.rows);
    ScheduledRowsAt(ChosenIndex(loaded), v.rows);
    var flagged := Owned.FlaggedRows(scheduled, keys, modified, vf);
    Owned.FlaggedRowsAt(scheduled, keys, modified, vf, i);
    Owned.FlagRowOwned(scheduled[i], keys, modified, vf);
    Prefetch.StartedQueues(v.(rows := flagged), nowBucket);
    Prefetch.StartedEffect(v.(rows := flagged), false, nowBucket, true);
  }

  /** `poll_prep`, given the messages waiting in the channel, whether the
      preparation worker has hung up, and what the `Done` arm needs: the
      scheduled index `load_scheduled_index` returns (None on an error),
      `owned_key_variants`, whether PEX_DISABLE_PREFETCH is set, today's
      day bucket and whether the HTTP client can be built. It returns how
      many messages it took and the work items prefetch sends. */
  method PollPrep(app: PexApp, msgs: seq<PrepMsg>, disconnected: bool, env: PrepEnv,
                  loaded: Option<Scheduled.ScheduledIndex>, variantsOf: Owned.VariantsOf,
                  prefetchDisabled: bool, nowBucket: nat, clientOk: bool) returns (consumed: nat, items: seq<Prefetch.WorkItem>)
    modifies app`bootPhase, app`rows, app`hasPrepRx, app`channelIconTextures, app`channelIconPending, app`lastHotset,
             app`scheduledIndex, app`prefetchStarted, app`totalTargets, app`completed, app`failed, app`loadingProgress,
             app`stage4CompleteMessage, app`lastItemMsg, app`hasDoneRx
    ensures consumed == Polled(old(PrepViewOf(app)), msgs, disconnected, env).1
    ensures !(old(app.hasPrepRx) && DoneTaken(msgs)) ==>
              PrepViewOf(app) == Polled(old(PrepViewOf(app)), msgs, disconnected, env).0 && items == [] &&
              app.scheduledIndex == old(app.scheduledIndex) &&
              Prefetch.ViewOf(app) == old(Prefetch.ViewOf(app)).(rows := app.rows, bootPhase := app.bootPhase)
    ensures old(app.hasPrepRx) && DoneTaken(msgs) ==>
              var w := Polled(old(PrepViewOf(app)), msgs, disconnected, env).0;
              app.scheduledIndex == ChosenIndex(loaded) &&
              (Prefetch.ViewOf(app), items) ==
                AfterDone(old(Prefetch.ViewOf(app)).(rows := w.rows, bootPhase := w.bootPhase), loaded,
                          app.ownedKeys, app.ownedModified, variantsOf, prefetchDisabled, nowBucket, clientOk) &&
              !app.hasPrepRx && app.channelIconTextures == w.channelIconTextures &&
              app.channelIconPending == w.channelIconPending && app.lastHotset == w.lastHotset
  {
    consumed := 0;
    items := [];
    if !app.hasPrepRx {
      return;
    }
    if DoneTaken(msgs) {
      consumed, items := DrainDone(app, msgs, disconnected, env, loaded, variantsOf, prefetchDisabled, nowBucket, clientOk);
    } else {
      consumed := DrainIntoApp(app, msgs, disconnected, env);
    }
  }

  /** `poll_prep` with a receiver when the drain takes a `Done`: the drain,
      then the `Done` arm's remaining steps. */
  method DrainDone(app: PexApp, msgs: seq<PrepMsg>, disconnected: bool, env: PrepEnv,
                   loaded: Option<Scheduled.ScheduledIndex>, variantsOf: Owned.VariantsOf,
                   prefetchDisabled: bool, nowBucket: nat, clientOk: bool) returns (consumed: nat, items: seq<Prefetch.WorkItem>)
    requires app.hasPrepRx && DoneTaken(msgs)
    modifies app`bootPhase, app`rows, app`hasPrepRx, app`channelIconTextures, app`channelIconPending, app`lastHotset,
             app`scheduledIndex, app`prefetchStarted, app`totalTargets, app`completed, app`failed, app`loadingProgress,
             app`stage4CompleteMessage, app`lastItemMsg, app`hasDoneRx
    ensures var (w, n) := Drained(old(PrepViewOf(app)), msgs, disconnected, env);
            consumed == n && app.scheduledIndex == ChosenIndex(loaded) &&
            (Prefetch.ViewOf(app), items) ==
              AfterDone(old(Prefetch.ViewOf(app)).(rows := w.rows, bootPhase := w.bootPhase), loaded,
                        app.ownedKeys, app.ownedModified, variantsOf, prefetchDisabled, nowBucket, clientOk) &&
            !app.hasPrepRx && app.channelIconTextures == w.channelIconTextures &&
            app.channelIconPending == w.channelIconPending && app.lastHotset == w.lastHotset
  {
    consumed := DrainIntoApp(app, msgs, disconnected, env);
    items := FollowDone(app, loaded, variantsOf, prefetchDisabled, nowBucket, clientOk);
  }

  /** The drain loop of `poll_prep` on the application's fields. */
  method DrainIntoApp(app: PexApp, msgs: seq<PrepMsg>, disconnected: bool, env: PrepEnv) returns (consumed: nat)
    requires app.hasPrepRx
    modifies app`bootPhase, app`rows, app`hasPrepRx, app`channelIconTextures, app`channelIconPending, app`lastHotset
    ensures (PrepViewOf(app), consumed) == Drained(old(PrepViewOf(app)), msgs, disconnected, env)
    ensures Prefetch.ViewOf(app) == old(Prefetch.ViewOf(app)).(rows := app.rows, bootPhase := app.bootPhase)
  {
    var v;
    v, consumed := DrainPrep(PrepViewOf(app), msgs, disconnected, env);
    app.bootPhase := v.bootPhase;
    app.rows := v.rows;
    app.hasPrepRx := v.hasPrepRx;
    app.channelIconTextures := v.channelIconTextures;
    app.channelIconPending := v.channelIconPending;
    app.lastHotset := v.lastHotset;
  }

  /** The calls that end the `Done` arm of `poll_prep`:
      `refresh_scheduled_index`, `apply_owned_flags` and `start_prefetch`. */
  method FollowDone(app: PexApp, loaded: Option<Scheduled.ScheduledIndex>, variantsOf: Owned.VariantsOf,
                    prefetchDisabled: bool, nowBucket: nat, clientOk: bool) returns (items: seq<Prefetch.WorkItem>)
    modifies app`scheduledIndex, app`rows, app`prefetchStarted, app`totalTargets, app`completed, app`failed,
             app`loadingProgress, app`stage4CompleteMessage, app`lastItemMsg, app`bootPhase, app`hasDoneRx
    ensures app.scheduledIndex == ChosenIndex(loaded)
    ensures (Prefetch.ViewOf(app), items) ==
              AfterDone(old(Prefetch.ViewOf(app)), loaded, app.ownedKeys, app.ownedModified, variantsOf,
                        prefetchDisabled, nowBucket, clientOk)
  {
    ghost var v0 := Prefetch.ViewOf(app);
    app.RefreshScheduledIndex(loaded);
    ghost var index := app.scheduledIndex;
    ghost var scheduled := app.rows;
    assert scheduled == ScheduledRows(index, v0.rows);
    items := FlagAndStart(app, variantsOf, prefetchDisabled, nowBucket, clientOk);
    assert ChosenIndex(loaded) == index && ScheduledRows(index, v0.rows) == scheduled;
  }

  /** `apply_owned_flags` followed by `start_prefetch`. */
  method FlagAndStart(app: PexApp, variantsOf: Owned.VariantsOf, prefetchDisabled: bool, nowBucket: nat, clientOk: bool)
    returns (items: seq<Prefetch.WorkItem>)
    modifies app`rows, app`prefetchStarted, app`totalTargets, app`completed, app`failed,
             app`loadingProgress, app`stage4CompleteMessage, app`lastItemMsg, app`bootPhase, app`hasDoneRx
    ensures (Prefetch.ViewOf(app), items) ==
              Prefetch.Started(old(Prefetch.ViewOf(app)).(rows := Owned.OwnedFlagged(old(app.rows), app.ownedKeys, app.ownedModified, variantsOf)),
                               prefetchDisabled, nowBucket, clientOk)
  {
    Owned.ApplyOwnedFlags(app, variantsOf);
    items := Prefetch.StartPrefetch(app, prefetchDisabled, nowBucket, clientOk);
  }

  /** `start_poster_prep`: one shot. The first call marks the preparation
      started, enters the checking phase, clears the last item message and
      sets up the receiver; later calls change nothing. */
  method StartPosterPrep(app: PexApp)
    modifies app`prepStarted, app`bootPhase, app`lastItemMsg, app`hasPrepRx
    ensures old(app.prepStarted) ==> unchanged(app)
    ensures !old(app.prepStarted) ==>
              app.prepStarted && app.bootPhase == CheckingNew && app.lastItemMsg == "" && app.hasPrepRx &&
              app.rows == old(app.rows) && app.prefetchStarted == old(app.prefetchStarted)
  {
    if app.prepStarted {
      return;
    }
    app.prepStarted := true;
    app.bootPhase := CheckingNew;
    app.lastItemMsg := "";
    app.hasPrepRx := true;
  }
}
