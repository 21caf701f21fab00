// Shared value types of the application (src/app/types.rs): UI enums with
// their string forms, the row backing each grid card, and the messages the
// background workers send to the UI thread.

module Types {
  import opened Text

  datatype PosterState = Pending | Cached | Ready | Failed

  datatype BootPhase = Starting | CheckingNew | Caching | BootReady

  datatype DayRange = Two | Four | Five | Seven | Fourteen

  datatype SortKey = Time | Title | Channel | Genre

  /** `DayRange::as_str`; reading it back with `from_str` gives `d`. */
  function DayRangeAsStr(d: DayRange): (s: string)
    ensures DayRangeFromStr(s) == Some(d)
  {
    match d
    case Two => "2"
    case Four => "4"
    case Five => "5"
    case Seven => "7"
    case Fourteen => "14"
  }

  /** `DayRange::from_str`: only the five literals are accepted. */
  function DayRangeFromStr(s: string): (r: Option<DayRange>)
    ensures r.Some? <==> s in {"2", "4", "5", "7", "14"}
  {
    if s == "2" then Some(Two)
    else if s == "4" then Some(Four)
    else if s == "5" then Some(Five)
    else if s == "7" then Some(Seven)
    else if s == "14" then Some(Fourteen)
    else None
  }

  /** Any string `from_str` accepts is the `as_str` form of what it returns. */
  lemma DayRangeFromStrInverse(s: string)
    requires DayRangeFromStr(s).Some?
    ensures DayRangeAsStr(DayRangeFromStr(s).value) == s
  {
  }

  lemma DayRangeAsStrInjective(a: DayRange, b: DayRange)
    requires DayRangeAsStr(a) == DayRangeAsStr(b)
    ensures a == b
  {
    assert DayRangeFromStr(DayRangeAsStr(a)) == Some(a);
  }

  /** `SortKey::as_str`; reading it back with `from_str` gives `k`. */
  function SortKeyAsStr(k: SortKey): (s: string)
    ensures SortKeyFromStr(s) == Some(k)
  {
    match k
    case Time => "time"
    case Title => "title"
    case Channel => "channel"
    case Genre => "genre"
  }

  /** `SortKey::from_str`: only the four literals are accepted. */
  function SortKeyFromStr(s: string): (r: Option<SortKey>)
    ensures r.Some? <==> s in {"time", "title", "channel", "genre"}
  {
    if s == "time" then Some(Time)
    else if s == "title" then Some(Title)
    else if s == "channel" then Some(Channel)
    else if s == "genre" then Some(Genre)
    else None
  }

  lemma SortKeyFromStrInverse(s: string)
    requires SortKeyFromStr(s).Some?
    ensures SortKeyAsStr(SortKeyFromStr(s).value) == s
  {
  }

  lemma SortKeyAsStrInjective(a: SortKey, b: SortKey)
    requires SortKeyAsStr(a) == SortKeyAsStr(b)
    ensures a == b
  {
    assert SortKeyFromStr(SortKeyAsStr(a)) == Some(a);
  }

  /** The row backing one grid card. Times are whole seconds since the Unix
      epoch; `hasTexture` stands for `tex.is_some()`. The owned key,
      broadcast-HD and scheduled fields are the ones the rest of the
      application reads and writes on every row. */
  datatype PosterRow = PosterRow(
    title: string,
    url: string,
    key: string,
    airing: Option<nat>,
    year: Option<int>,
    channel: Option<string>,
    channelRaw: Option<string>,
    channelThumb: Option<string>,
    genres: seq<string>,
    guid: Option<string>,
    path: Option<string>,
    hasTexture: bool,
    state: PosterState,
    owned: bool,
    ownedModified: Option<nat>,
    ownedKey: string,
    broadcastHd: bool,
    scheduled: bool)

  /** An EPG item produced by the preparation worker. */
  datatype PrepItem = PrepItem(
    title: string,
    thumbUrl: string,
    key: string,
    beginsAt: Option<int>,
    year: Option<int>,
    tagsGenre: Option<string>,
    channelCallSign: Option<string>,
    channelTitle: Option<string>,
    channelThumb: Option<string>,
    guid: Option<string>)

  datatype PrepMsg = PrepInfo(info: string) | PrepDone(items: seq<PrepItem>) | PrepError(error: string)

  datatype OwnedMsg =
    | OwnedInfo(info: string)
    | OwnedDone(keys: set<string>, modified: map<string, Option<nat>>)
    | OwnedError(error: string)

  /** One finished poster download: the row it belongs to and the cached
      file path or an error text. */
  datatype PrefetchDone = PrefetchDone(rowIdx: nat, result: Result<string>)
}
