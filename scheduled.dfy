// The scheduled-recordings index of src/app/scheduled.rs: guids of items
// the DVR will record, and per title key the exact airing seconds that are
// booked. The database queries are replaced by the rows they return;
// `urlencoding::decode` and the JSON parser are parameters.

module Scheduled {
  import opened Text
  import opened Utils

  /** What the title-slot map of the index holds. */
  type Slots = map<string, set<int>>

  /** `slots.entry(key).or_default().insert(ts)`. */
  function AddSlot(slots: Slots, key: string, ts: int): (r: Slots)
    ensures r.Keys == slots.Keys + {key}
    ensures r[key] == (if key in slots then slots[key] else {}) + {ts}
    ensures forall k :: k in slots && k != key ==> r[k] == slots[k]
  {
    slots[key := (if key in slots then slots[key] else {}) + {ts}]
  }

  /** Every slot of `a` is a slot of `b`. */
  predicate SlotsGrow(a: Slots, b: Slots)
  {
    forall k :: k in a ==> k in b && a[k] <= b[k]
  }

  /** `make_title_key`: the normalised title and the year (0 when none),
      or nothing for a title that normalises to nothing. */
  function MakeTitleKey(title: string, year: Option<int>): (r: Option<string>)
  {
    var normalized := NormalizedTitle(title);
    if IsBlank(normalized) then None
    else
      var y := match year case Some(v) => v case None => 0;
      Some(ToAsciiLower(normalized) + ":" + IntToString(y))
  }

  /** The key is the normalised title and the year; there is none exactly
      when the title normalises to the empty string. */
  lemma MakeTitleKeyShape(title: string, year: Option<int>)
    ensures MakeTitleKey(title, year).None? <==> NormalizedTitle(title) == []
    ensures MakeTitleKey(title, year).Some? ==>
              MakeTitleKey(title, year).value
              == NormalizedTitle(title) + ":" + IntToString(match year case Some(v) => v case None => 0)
  {
    var n := NormalizedTitle(title);
    NormalizedTitleShape(title);
    TrimEmpty(n);
    if n != [] {
      assert !IsWhitespace(n[0]);
    }
    LowerFixed(n);
  }

  lemma LowerFixed(n: string)
    requires IsNormalized(n)
    ensures ToAsciiLower(n) == n
  {
    var l := ToAsciiLower(n);
    forall i | 0 <= i < |n| ensures l[i] == n[i] {
      assert LowerOrSpace(n[i]);
    }
  }

  /** Two titles that normalise alike with the same year share a key. */
  lemma MakeTitleKeyNormalized(a: string, b: string, year: Option<int>)
    requires NormalizedTitle(a) == NormalizedTitle(b)
    ensures MakeTitleKey(a, year) == MakeTitleKey(b, year)
  {
  }

  /** `mt_key.split("/metadata/").nth(1)`: the text between the first
      "/metadata/" and the next one (or the end). */
  function SegmentAfter(s: string, p: string): (r: Option<string>)
    requires p != []
    ensures r.None? <==> Find(s, p).None?
    ensures r.Some? ==> !Contains(r.value, p)
  {
    match Find(s, p)
    case None => None
    case Some(i) =>
      var rest := s[i + |p|..];
      match Find(rest, p)
      case None => Some(rest)
      case Some(j) =>
        PrefixBeforeFind(rest, p, j);
        Some(rest[..j])
  }

  /** The text before the first occurrence of `p` does not contain `p`. */
  lemma PrefixBeforeFind(s: string, p: string, j: nat)
    requires p != [] && Find(s, p) == Some(j)
    ensures !Contains(s[..j], p)
  {
    var t := s[..j];
    forall k | 0 <= k ensures !OccursAt(t, p, k) {
      if OccursAt(t, p, k) {
        assert t[k..k + |p|] == s[k..k + |p|];
        assert OccursAt(s, p, k);
      }
    }
  }

  const METADATA_SEP: string := "/metadata/"

  /** `decode_mt_key`: the URL-decoded segment after "/metadata/"; nothing
      when that segment is missing or does not decode. */
  function DecodeMtKey(mtKey: string, decode: string -> Option<string>): (r: Option<string>)
    ensures SegmentAfter(mtKey, METADATA_SEP).None? ==> r.None?
    ensures SegmentAfter(mtKey, METADATA_SEP).Some? ==> r == decode(SegmentAfter(mtKey, METADATA_SEP).value)
  {
    match SegmentAfter(mtKey, METADATA_SEP)
    case None => None
    case Some(enc) => decode(enc)
  }

  /** One row of the `media_grabs` query. */
  datatype GrabRow = GrabRow(
    beginsAt: Option<string>,
    mtGuid: Option<string>,
    mtKey: Option<string>,
    mtTitle: Option<string>,
    mtYear: Option<string>)

  /** What one grab row contributes to the index. */
  datatype Contribution = Nothing | Guid(guid: string) | Slot(key: string, ts: int)

  /** The rules of one `media_grabs` row: unparsable or long-past start
      times are skipped; a guid wins over a decodable key, which wins over
      the title and year. */
  function GrabContribution(row: GrabRow, now: int, decode: string -> Option<string>): (c: Contribution)
    ensures c.Slot? ==> row.beginsAt.Some? && ParseI64(row.beginsAt.value) == Some(c.ts) && c.ts + 86400 >= now
  {
    if row.beginsAt.None? || ParseI64(row.beginsAt.value).None? then Nothing
    else
      var beginsAt := ParseI64(row.beginsAt.value).value;
      if beginsAt + 86400 < now then Nothing
      else if row.mtGuid.Some? && row.mtGuid.value != [] then Guid(row.mtGuid.value)
      else if row.mtKey.Some? && row.mtKey.value != [] && DecodeMtKey(row.mtKey.value, decode).Some? then
        Guid(DecodeMtKey(row.mtKey.value, decode).value)
      else if row.mtTitle.None? || IsBlank(row.mtTitle.value) then Nothing
      else
        var year := if row.mtYear.Some? then ParseI32(row.mtYear.value) else None;
        match MakeTitleKey(row.mtTitle.value, year)
        case None => Nothing
        case Some(key) => Slot(key, beginsAt)
  }

  /** A non-empty guid on a recent row is taken as it is, whatever else
      the row holds. */
  lemma GuidWins(row: GrabRow, now: int, decode: string -> Option<string>)
    requires row.beginsAt.Some? && ParseI64(row.beginsAt.value).Some?
    requires ParseI64(row.beginsAt.value).value + 86400 >= now
    requires row.mtGuid.Some? && row.mtGuid.value != []
    ensures GrabContribution(row, now, decode) == Guid(row.mtGuid.value)
  {
  }

  /** A row that started more than a day before `now` contributes nothing. */
  lemma PastGrabIgnored(row: GrabRow, now: int, decode: string -> Option<string>)
    requires row.beginsAt.Some? && ParseI64(row.beginsAt.value).Some?
    requires ParseI64(row.beginsAt.value).value + 86400 < now
    ensures GrabContribution(row, now, decode) == Nothing
  {
  }

  /** The index state a contribution leads to. */
  function Contribute(guids: set<string>, slots: Slots, c: Contribution): (set<string>, Slots)
  {
    match c
    case Nothing => (guids, slots)
    case Guid(g) => (guids + {g}, slots)
    case Slot(key, ts) => (guids, AddSlot(slots, key, ts))
  }

  /** The index after the grab rows, in order. */
  function IngestGrabs(guids: set<string>, slots: Slots, rows: seq<GrabRow>, now: int, decode: string -> Option<string>): (set<string>, Slots)
    decreases |rows|
  {
    if rows == [] then (guids, slots)
    else
      var st := IngestGrabs(guids, slots, rows[..|rows| - 1], now, decode);
      Contribute(st.0, st.1, GrabContribution(rows[|rows| - 1], now, decode))
  }

  /** Ingesting rows only adds guids and slots. */
  lemma {:induction false} IngestGrabsGrows(guids: set<string>, slots: Slots, rows: seq<GrabRow>, now: int, decode: string -> Option<string>)
    ensures var st := IngestGrabs(guids, slots, rows, now, decode);
            guids <= st.0 && SlotsGrow(slots, st.1)
    decreases |rows|
  {
    if rows != [] {
      IngestGrabsGrows(guids, slots, rows[..|rows| - 1], now, decode);
    }
  }

  /** One parsed `media_subscriptions.extra_data` blob. */
  datatype Subscription = Subscription(
    guid: Option<string>,
    title: Option<string>,
    year: Option<string>,
    airingTimes: Option<string>)

  /** One trimmed `pv:airingTimes` entry as a start second, when it
      parses and is not more than a day old. */
  function AiringTime(entry: string, now: int): (t: Option<int>)
    ensures t.Some? ==> ParseI64(entry) == t && t.value + 86400 >= now
    ensures t.None? ==> ParseI64(entry).None? || ParseI64(entry).value + 86400 < now
  {
    var ts := ParseI64(entry);
    if ts.None? || ts.value + 86400 < now then None else ts
  }

  /** Booking one airing time under a key, when there is both. */
  function BookTime(slots: Slots, key: Option<string>, t: Option<int>): (r: Slots)
    ensures key.Some? && t.Some? ==> key.value in r && t.value in r[key.value]
  {
    if key.None? || t.None? then slots else AddSlot(slots, key.value, t.value)
  }

  /** The airing-time part of a subscription: every trimmed
      comma-separated entry that parses and is not more than a day old is
      booked under `key`. */
  function AddAiringTimes(slots: Slots, key: Option<string>, entries: seq<string>, now: int): (r: Slots)
    decreases |entries|
  {
    if entries == [] then slots
    else BookTime(AddAiringTimes(slots, key, entries[..|entries| - 1], now), key, AiringTime(entries[|entries| - 1], now))
  }

  /** A booked airing time is one of the entries, parsed, and recent. */
  lemma {:induction false} AiringTimeSource(slots: Slots, key: string, entries: seq<string>, now: int, ts: int) returns (k: nat)
    requires key in AddAiringTimes(slots, Some(key), entries, now)
    requires ts in AddAiringTimes(slots, Some(key), entries, now)[key]
    requires key !in slots || ts !in slots[key]
    ensures k < |entries| && AiringTime(entries[k], now) == Some(ts)
    decreases |entries|
  {
    var init := entries[..|entries| - 1];
    var before := AddAiringTimes(slots, Some(key), init, now);
    if key in before && ts in before[key] {
      k := AiringTimeSource(slots, key, init, now, ts);
      assert entries[k] == init[k];
    } else {
      k := |entries| - 1;
    }
  }

  /** A recent, well-formed airing entry is booked. */
  lemma {:induction false} AiringTimeBooked(slots: Slots, key: string, entries: seq<string>, now: int, k: nat)
    requires k < |entries| && AiringTime(entries[k], now).Some?
    ensures var r := AddAiringTimes(slots, Some(key), entries, now);
            key in r && AiringTime(entries[k], now).value in r[key]
    decreases |entries|
  {
    var init := entries[..|entries| - 1];
    if k < |init| {
      assert init[k] == entries[k];
      AiringTimeBooked(slots, key, init, now, k);
    }
  }

  /** The index after one subscription: its guid is recorded even when the
      rest of it is unusable; a subscription without a title books no
      time, nor does one whose airing-time text does not decode. */
  function IngestSubscription(guids: set<string>, slots: Slots, sub: Subscription, now: int, decode: string -> Option<string>): (st: (set<string>, Slots))
    ensures sub.guid.Some? && sub.guid.value != [] ==> sub.guid.value in st.0
    ensures sub.title.None? ==> st.1 == slots
  {
    var guids' := if sub.guid.Some? && sub.guid.value != [] then guids + {sub.guid.value} else guids;
    if sub.title.None? then (guids', slots)
    else
      var raw := match sub.airingTimes case Some(t) => t case None => "";
      match decode(raw)
      case None => (guids', slots)
      case Some(times) =>
        var year := if sub.year.Some? then ParseI32(sub.year.value) else None;
        (guids', AddAiringTimes(slots, MakeTitleKey(sub.title.value, year), TrimAll(Split(times, ',')), now))
  }

  /** One `media_subscriptions` row: the blob is skipped when absent, blank
      or not JSON (`parse` stands for serde). */
  function IngestSubscriptionBlob(guids: set<string>, slots: Slots, blob: Option<string>, parse: string -> Option<Subscription>, now: int, decode: string -> Option<string>): (st: (set<string>, Slots))
    ensures blob.None? || IsBlank(blob.value) || parse(blob.value).None? ==> st == (guids, slots)
  {
    if blob.None? || IsBlank(blob.value) then (guids, slots)
    else match parse(blob.value)
      case None => (guids, slots)
      case Some(sub) => IngestSubscription(guids, slots, sub, now, decode)
  }

  /** One `metadata_subscription_desired_items` row: a non-blank remote id
      that decodes is a guid. */
  function DesiredGuid(remote: Option<string>, decode: string -> Option<string>): (g: Option<string>)
    ensures g.Some? ==> remote.Some? && !IsBlank(remote.value) && decode(remote.value) == g
  {
    if remote.None? || IsBlank(remote.value) then None else decode(remote.value)
  }

  /** `ScheduledIndex`: guids plus booked title slots. */
  class ScheduledIndex {
    var guids: set<string>
    var titleSlots: Slots

    /** `ScheduledIndex::default`. */
    constructor ()
      ensures guids == {} && titleSlots == map[]
    {
      guids := {};
      titleSlots := map[];
    }

    /** `is_empty`: no guid and no title slot. */
    predicate IsEmpty()
      reads this
    {
      guids == {} && titleSlots == map[]
    }

    /** `is_scheduled`: a known guid, or else a title key whose slot set
        holds exactly this airing second. */
    function IsScheduled(guid: Option<string>, title: string, year: Option<int>, airing: Option<nat>): (r: bool)
      reads this
      ensures guid.Some? && guid.value in guids ==> r
      ensures !(guid.Some? && guid.value in guids) ==>
                (r <==> airing.Some? && MakeTitleKey(title, year).Some?
                        && MakeTitleKey(title, year).value in titleSlots
                        && airing.value in titleSlots[MakeTitleKey(title, year).value])
    {
      if guid.Some? && guid.value in guids then true
      else if airing.None? then false
      else match MakeTitleKey(title, year)
        case None => false
        case Some(key) => key in titleSlots && airing.value in titleSlots[key]
    }

    /** An empty index schedules nothing. */
    lemma EmptySchedulesNothing(guid: Option<string>, title: string, year: Option<int>, airing: Option<nat>)
      requires IsEmpty()
      ensures !IsScheduled(guid, title, year, airing)
    {
    }

    /** The `media_grabs` loop of `load_scheduled_index`. */
    method LoadGrabs(rows: seq<GrabRow>, now: int, decode: string -> Option<string>)
      modifies this
      ensures (guids, titleSlots) == IngestGrabs(old(guids), old(titleSlots), rows, now, decode)
    {
      var i := 0;
      while i < |rows|
        invariant 0 <= i <= |rows|
        invariant (guids, titleSlots) == IngestGrabs(old(guids), old(titleSlots), rows[..i], now, decode)
      {
        assert rows[..i + 1][..i] == rows[..i];
        match GrabContribution(rows[i], now, decode) {
          case Nothing =>
          case Guid(g) => guids := guids + {g};
          case Slot(key, ts) => titleSlots := AddSlot(titleSlots, key, ts);
        }
        i := i + 1;
      }
      assert rows[..|rows|] == rows;
    }

    /** The airing-time loop of `load_from_media_subscriptions`. */
    method BookAiringTimes(key: Option<string>, entries: seq<string>, now: int)
      modifies this
      ensures guids == old(guids)
      ensures titleSlots == AddAiringTimes(old(titleSlots), key, entries, now)
    {
      var i := 0;
      while i < |entries|
        invariant 0 <= i <= |entries|
        invariant guids == old(guids)
        invariant titleSlots == AddAiringTimes(old(titleSlots), key, entries[..i], now)
      {
        assert entries[..i + 1][..i] == entries[..i];
        titleSlots := BookTime(titleSlots, key, AiringTime(entries[i], now));
        i := i + 1;
      }
      assert entries[..|entries|] == entries;
    }

    /** One row of the `media_subscriptions` loop. */
    method LoadSubscription(blob: Option<string>, parse: string -> Option<Subscription>, now: int, decode: string -> Option<string>)
      modifies this
      ensures (guids, titleSlots) == IngestSubscriptionBlob(old(guids), old(titleSlots), blob, parse, now, decode)
    {
      if blob.None? || IsBlank(blob.value) {
        return;
      }
      var parsed := parse(blob.value);
      if parsed.None? {
        return;
      }
      LoadParsed(parsed.value, now, decode);
    }

    /** The body of the `media_subscriptions` loop once the blob parsed. */
    method LoadParsed(sub: Subscription, now: int, decode: string -> Option<string>)
      modifies this
      ensures (guids, titleSlots) == IngestSubscription(old(guids), old(titleSlots), sub, now, decode)
    {
      if sub.guid.Some? && sub.guid.value != [] {
        guids := guids + {sub.guid.value};
      }
      if sub.title.None? {
        return;
      }
      var raw := match sub.airingTimes case Some(t) => t case None => "";
      var decoded := decode(raw);
      if decoded.Some? {
        var year := if sub.year.Some? then ParseI32(sub.year.value) else None;
        BookAiringTimes(MakeTitleKey(sub.title.value, year), TrimAll(Split(decoded.value, ',')), now);
      }
    }

    /** The `media_subscriptions` loop. */
    method LoadSubscriptions(blobs: seq<Option<string>>, parse: string -> Option<Subscription>, now: int, decode: string -> Option<string>)
      modifies this
      ensures (guids, titleSlots) == IngestSubscriptions(old(guids), old(titleSlots), blobs, parse, now, decode)
    {
      var i := 0;
      while i < |blobs|
        invariant 0 <= i <= |blobs|
        invariant (guids, titleSlots) == IngestSubscriptions(old(guids), old(titleSlots), blobs[..i], parse, now, decode)
      {
        assert blobs[..i + 1][..i] == blobs[..i];
        LoadSubscription(blobs[i], parse, now, decode);
        i := i + 1;
      }
      assert blobs[..|blobs|] == blobs;
    }

    /** The `metadata_subscription_desired_items` loop. */
    method LoadDesired(remotes: seq<Option<string>>, decode: string -> Option<string>)
      modifies this
      ensures titleSlots == old(titleSlots)
      ensures guids == old(guids) + DesiredGuids(remotes, decode)
    {
      var i := 0;
      while i < |remotes|
        invariant 0 <= i <= |remotes|
        invariant titleSlots == old(titleSlots)
        invariant guids == old(guids) + DesiredGuids(remotes[..i], decode)
      {
        assert remotes[..i + 1][..i] == remotes[..i];
        var g := DesiredGuid(remotes[i], decode);
        if g.Some? {
          guids := guids + {g.value};
        }
        i := i + 1;
      }
      assert remotes[..|remotes|] == remotes;
    }
  }

  /** The index after the subscription rows, in order. */
  function IngestSubscriptions(guids: set<string>, slots: Slots, blobs: seq<Option<string>>, parse: string -> Option<Subscription>, now: int, decode: string -> Option<string>): (set<string>, Slots)
    decreases |blobs|
  {
    if blobs == [] then (guids, slots)
    else
      var st := IngestSubscriptions(guids, slots, blobs[..|blobs| - 1], parse, now, decode);
      IngestSubscriptionBlob(st.0, st.1, blobs[|blobs| - 1], parse, now, decode)
  }

  /** The guids of the desired-items rows. */
  function DesiredGuids(remotes: seq<Option<string>>, decode: string -> Option<string>): (gs: set<string>)
    decreases |remotes|
  {
    if remotes == [] then {}
    else
      var g := DesiredGuid(remotes[|remotes| - 1], decode);
      var before := DesiredGuids(remotes[..|remotes| - 1], decode);
      if g.Some? then before + {g.value} else before
  }

  /** Every collected guid comes from some desired-items row. */
  lemma {:induction false} DesiredGuidSource(remotes: seq<Option<string>>, decode: string -> Option<string>, g: string) returns (k: nat)
    requires g in DesiredGuids(remotes, decode)
    ensures k < |remotes| && DesiredGuid(remotes[k], decode) == Some(g)
    decreases |remotes|
  {
    var init := remotes[..|remotes| - 1];
    if g in DesiredGuids(init, decode) {
      k := DesiredGuidSource(init, decode, g);
      assert init[k] == remotes[k];
    } else {
      k := |remotes| - 1;
    }
  }

  /** Ingesting `a` and then `b` is ingesting `a + b`. */
  lemma {:induction false} IngestGrabsConcat(guids: set<string>, slots: Slots, a: seq<GrabRow>, b: seq<GrabRow>, now: int, decode: string -> Option<string>)
    ensures IngestGrabs(guids, slots, a + b, now, decode)
            == var st := IngestGrabs(guids, slots, a, now, decode); IngestGrabs(st.0, st.1, b, now, decode)
    decreases |b|
  {
    if b == [] {
      assert a + b == a;
    } else {
      assert (a + b)[..|a + b| - 1] == a + b[..|b| - 1];
      IngestGrabsConcat(guids, slots, a, b[..|b| - 1], now, decode);
    }
  }

  /** What any one row contributes is still in the index after all rows:
      no later row removes a guid or a slot. */
  lemma GrabRowKept(guids: set<string>, slots: Slots, rows: seq<GrabRow>, k: nat, now: int, decode: string -> Option<string>)
    requires k < |rows|
    ensures var st := IngestGrabs(guids, slots, rows, now, decode);
            match GrabContribution(rows[k], now, decode)
            case Nothing => true
            case Guid(g) => g in st.0
            case Slot(key, ts) => key in st.1 && ts in st.1[key]
  {
    var pre := rows[..k + 1];
    var post := rows[k + 1..];
    assert rows == pre + post;
    assert pre[..|pre| - 1] == rows[..k];
    IngestGrabsConcat(guids, slots, pre, post, now, decode);
    var mid := IngestGrabs(guids, slots, pre, now, decode);
    IngestGrabsGrows(mid.0, mid.1, post, now, decode);
  }

  /** After `load_scheduled_index` has read the grab rows, every row booked
      by guid is scheduled under that guid, and every row booked by title
      and year is scheduled at its start second. */
  lemma GrabsThenScheduled(idx: ScheduledIndex, guids: set<string>, slots: Slots, rows: seq<GrabRow>, k: nat,
                           now: int, decode: string -> Option<string>, otherGuid: Option<string>, otherTitle: string, otherYear: Option<int>)
    requires (idx.guids, idx.titleSlots) == IngestGrabs(guids, slots, rows, now, decode)
    requires k < |rows|
    ensures var c := GrabContribution(rows[k], now, decode);
            c.Guid? ==> idx.IsScheduled(Some(c.guid), otherTitle, otherYear, None)
    ensures var c := GrabContribution(rows[k], now, decode);
            var yr := if rows[k].mtYear.Some? then ParseI32(rows[k].mtYear.value) else None;
            c.Slot? && c.ts >= 0 ==> idx.IsScheduled(otherGuid, rows[k].mtTitle.value, yr, Some(c.ts as nat))
  {
    GrabRowKept(guids, slots, rows, k, now, decode);
  }

  /** Every recent, well-formed airing time of a titled subscription whose
      airing text decodes is scheduled for that title and year. */
  lemma SubscriptionThenScheduled(idx: ScheduledIndex, guids: set<string>, slots: Slots, sub: Subscription, now: int,
                                  decode: string -> Option<string>, times: string, j: nat, otherGuid: Option<string>)
    requires (idx.guids, idx.titleSlots) == IngestSubscription(guids, slots, sub, now, decode)
    requires sub.title.Some?
    requires decode(match sub.airingTimes case Some(t) => t case None => "") == Some(times)
    requires j < |TrimAll(Split(times, ','))|
    requires AiringTime(TrimAll(Split(times, ','))[j], now).Some?
    requires AiringTime(TrimAll(Split(times, ','))[j], now).value >= 0
    requires var year := if sub.year.Some? then ParseI32(sub.year.value) else None;
             MakeTitleKey(sub.title.value, year).Some?
    ensures var year := if sub.year.Some? then ParseI32(sub.year.value) else None;
            idx.IsScheduled(otherGuid, sub.title.value, year, Some(AiringTime(TrimAll(Split(times, ','))[j], now).value as nat))
  {
    var year := if sub.year.Some? then ParseI32(sub.year.value) else None;
    AiringTimeBooked(slots, MakeTitleKey(sub.title.value, year).value, TrimAll(Split(times, ',')), now, j);
  }

  /** Every guid a desired-items row yields is among the collected ones. */
  lemma {:induction false} DesiredGuidCollected(remotes: seq<Option<string>>, decode: string -> Option<string>, k: nat)
    requires k < |remotes| && DesiredGuid(remotes[k], decode).Some?
    ensures DesiredGuid(remotes[k], decode).value in DesiredGuids(remotes, decode)
    decreases |remotes|
  {
    var init := remotes[..|remotes| - 1];
    if k < |init| {
      assert init[k] == remotes[k];
      DesiredGuidCollected(init, decode, k);
    }
  }
}
