# pex core, modelled in Dafny

pex is a desktop TV guide. It reads the programme guide that a Plex
server prepares, shows the upcoming films as a poster grid grouped by
day, and marks which films the user already owns and which are
scheduled to be recorded. This project models the decision logic of
that application and proves properties of it:

- **Titles and keys** (`Utils`, `App`, `Owned`, `OwnedNames`): the
  title normaliser, year search, owned keys and their year and title
  variants, and the parsing of file names into a title and a year.
- **Dates and labels** (`Utils`): day buckets, weekday names, the civil
  date of a day number, `HH:MM`, ordinal suffixes and channel-name
  clean-up.
- **HD detection** (`Utils`): broadcast HD inference, the ffprobe result
  cache and its stale-entry refresh, and the HD verdict for a file path.
- **The grid** (`Filters`, `Sorting`, `App`): filtering, day grouping,
  the order within a day, the decade list, keyboard navigation, and
  selection repair.
- **Scheduled recordings** (`Scheduled`): the scheduled index and how it
  is built from recorder grabs, subscriptions and desired items.
- **Owned library** (`Owned`, `OwnedScanFs`, `OwnedLegacy`,
  `OwnedScanPlex`):
  - the incremental file-system scan with its manifest (the current
    version 2 and the older version 1);
  - the scan of the Plex library database;
  - flagging rows as owned, and the scan's message handling.
- **Posters** (`Prep`, `Prefetch`, `Cache`):
  - the guide preparation: channel metadata, freshness of the daily copy,
    harvesting and deduplicating items;
  - the poster prefetch queue and its counters;
  - the poster cache: pruning, light refresh, lookup by key and the raw
    `.rgba` format.
- **Preferences** (`Prefs`, `Types`): the preferences file, the hotset
  manifest and the text forms of the day range and sort key.

`Text` and `Paths` model the few parts of the Rust standard library the
code relies on, such as `str::trim`, `split_whitespace`, `find`,
`char::is_whitespace`, integer parsing and `Path::starts_with`.

The form of the model follows the form of the code:

- Pure functions of the source are Dafny functions, with lemmas about
  them.
- Loops are methods proved against a specification function.
- State is modelled as classes: the application state in `App.PexApp`,
  the scheduled index, the ffprobe cache, the poster directory and the
  owned manifests.
- Messages drained from a channel are an input sequence.
- Things the model cannot compute are function-typed parameters. These
  are md5, URL decoding, chrono date parsing, serde results, ffprobe
  output and the file system's listings.

## Model

| member | source | states |
|---|---|---|
| Types.DayRangeAsStr | src/app/types.rs:79-87 | reading a day range's text back gives the same day range |
| Types.DayRangeFromStr | src/app/types.rs:88-97 | only "2", "4", "5", "7" and "14" are accepted |
| Types.DayRangeFromStrInverse | src/app/types.rs:79-97 | any accepted text is the text of the day range it is read as |
| Types.DayRangeAsStrInjective | src/app/types.rs:79-87 | different day ranges are written differently |
| Types.SortKeyAsStr | src/app/types.rs:109-116 | reading a sort key's text back gives the same sort key |
| Types.SortKeyFromStr | src/app/types.rs:117-125 | only "time", "title", "channel" and "genre" are accepted |
| Types.SortKeyFromStrInverse | src/app/types.rs:109-125 | any accepted text is the text of the sort key it is read as |
| Types.SortKeyAsStrInjective | src/app/types.rs:109-116 | different sort keys are written differently |
| Utils.NormalizeTitle | src/app/utils.rs:13-41 | the character loop and split/join of `normalize_title` compute the specification `NormalizedTitle`, and the result is lower-case alphanumeric words joined by single spaces |
| Utils.NormalizedTitleShape | src/app/utils.rs:13-41 | no normalised title has a leading, trailing or doubled space; every character is a lower-case letter, a digit or a separating space |
| Utils.NormalizedTitleIdempotent | src/app/utils.rs:13-41 | normalising twice equals normalising once |
| Utils.NormalizedTitleDropsApostrophe | src/app/utils.rs:17-19 | inserting any of the four apostrophes anywhere leaves the normalised title unchanged |
| Utils.NormalizedTitleAmpersand | src/app/utils.rs:20-24 | `&` normalises exactly like the word "and" surrounded by spaces |
| Utils.SplitWhitespace | src/app/utils.rs:36-40 | every piece of `split_whitespace` is non-empty and holds no whitespace |
| Utils.SplitJoinNormalized | src/app/utils.rs:36-40 | splitting a normalised text on whitespace and joining with single spaces gives the text back |
| Utils.YearInStr | src/app/utils.rs:43-59 | a found year lies in 1900..=2099, and one is found exactly when some 4-digit window reads as such a year |
| Utils.FirstYearFrom | src/app/utils.rs:43-59 | the window found is a year window, no earlier window from the start position is one, and None means no window is |
| Utils.FindYearInStr | src/app/utils.rs:43-59 | the index loop returns the value of the first year window, the one `YearInStr` specifies |
| Utils.DayBucket | src/app/utils.rs:61-67 | the bucket is the day that contains the time: `b * 86400 <= secs < (b + 1) * 86400` |
| Utils.WeekdayOfEpoch | src/app/utils.rs:69-81 | bucket 0 (1970-01-01) is "Thursday" |
| Utils.WeekdayPeriodic | src/app/utils.rs:69-81 | the weekday repeats every 7 days for every bucket and every shift, negative ones included, because of `rem_euclid` |
| Utils.WeekdayFullFromBucket | src/app/utils.rs:69-81 | the weekday name of a day bucket, always one of the seven names; bucket 0 is "Thursday" (WeekdayOfEpoch) and the name repeats every seven days (WeekdayPeriodic) |
| Utils.TDiv | src/app/utils.rs:85 | Rust's truncating `/`: the Euclidean quotient for non-negative dividends and the negated quotient of the negation otherwise |
| Utils.YearOfEraBounds | src/app/utils.rs:86-89 | day of era and year of era stay in one 400-year era and the day of year lies in 0..=365 |
| Utils.CivilFromDays | src/app/utils.rs:83-95 | the month lies in 1..=12 and the day in 1..=31 for every day number |
| Utils.CivilOfEpoch | src/app/utils.rs:83-95 | day 0 is (1970, 1, 1) |
| Utils.MonthShortName | src/app/utils.rs:97-102 | months 1..=12 give their names; 0 clamps to "Jan" and anything above 12 to "Dec" |
| Utils.OrdinalSuffix | src/app/utils.rs:104-114 | "th" when `d % 100` is 11..=13, otherwise "st"/"nd"/"rd" for a last digit 1/2/3 and "th" else |
| Utils.FormatDayLabel | src/app/utils.rs:116-120 | the label starts with the weekday of the bucket and a space |
| Utils.Pad2 | src/app/utils.rs:130 | `{:02}` gives two digits that read back as the number |
| Utils.HhmmUtc | src/app/utils.rs:122-131 | "HH:MM" with HH below 24 and MM below 60, and HH:MM is the hour and minute the UTC time of day falls in |
| Utils.ClockSplit | src/app/utils.rs:127-129 | hours and minutes of a time of day are in range and bracket it to the minute |
| Utils.AfterScheme | src/app/utils.rs:142-143 | the text after the first "://", or the whole URL when there is none |
| Utils.HostFromUrl | src/app/utils.rs:141-153 | None exactly when the host part after "://" is empty; otherwise the upper-cased run of the host up to the first '.' or '/' (or the end) |
| Utils.ParseGenres | src/app/utils.rs:155-165 | the tags come out strictly sorted (so without duplicates), each trimmed and non-empty, and a text is in the result exactly when it is a trimmed non-empty bar-separated piece |
| Utils.GenresFound | src/app/utils.rs:155-165 | membership: a tag is in the sorted list exactly when it is one of the trimmed non-empty pieces |
| Utils.GenresTrimmed | src/app/utils.rs:158-159 | every tag in the list is trimmed and non-empty |
| Utils.StripChannelNumber | src/app/utils.rs:175-186 | the result is a suffix of the label; it is the whole label or starts after the leading run of digits and whitespace |
| Utils.ReplaceSeparators | src/app/utils.rs:189 | each '_' and '-' becomes a space and every other character stays |
| Utils.ReplaceDoubleSpace | src/app/utils.rs:191 | one `replace("  ", " ")` pass never lengthens the text and shortens it whenever it holds a double space |
| Utils.SqueezeReplace | src/app/utils.rs:190-192 | one replace pass does not change the fully collapsed text, so the `while` loop ends at it |
| Utils.SqueezeSpaces | src/app/utils.rs:190-192 | the collapsed text has no double space and keeps the first character |
| Utils.CleanedChannel | src/app/utils.rs:173-193 | the cleaned label has no double space |
| Utils.HostnameLabel | src/app/utils.rs:196-205 | a hostname label is at least two ASCII letters or digits |
| Utils.HostLabelsFirst | src/app/utils.rs:198-199 | `retain` keeps nothing exactly when every part is empty or "www"; otherwise the first kept part is the first part that is neither |
| Utils.FirstHostLabelUnique | src/app/utils.rs:199-200 | there is only one first part that is neither empty nor "www" |
| Utils.HostnameLabelValue | src/app/utils.rs:196-205 | a text is a hostname exactly when it has a dot, only letters, digits and dots, and a first part other than "" and "www" of two characters or more; the label is that part upper-cased |
| Utils.HostnameLabelItv | src/app/utils.rs:169 | "itv.com" gives "ITV" |
| Utils.UppercaseSimple | src/app/utils.rs:207-213 | a label with a lower-case letter and only lower-case letters, digits and whitespace is upper-cased letter by letter and keeps no lower-case letter; any other label is unchanged |
| Utils.UppercaseSimpleItv2 | src/app/utils.rs:170 | "itv2" gives "ITV2" |
| Utils.SpaceBeforeHdSpacing | src/app/utils.rs:215-223 | with the intended rule a label ending in "HD" ends in " HD" or " UHD" afterwards, and one already spaced is unchanged |
| Utils.SpaceBeforeHdIdempotent | src/app/utils.rs:215-223 | the intended HD spacing applied twice changes nothing more |
| Utils.SpaceBeforeHdKeepsSpacing | src/app/utils.rs:215-223 | the intended HD spacing never creates a double space |
| Utils.SpaceBeforeGluedUhd | src/app/utils.rs:217-219 | a label glued to "UHD" gains the space, both as written and as intended |
| Utils.SpaceBeforeGluedHd | src/app/utils.rs:220-222 | a label glued to "HD" (not "UHD") gains the space, both as written and as intended |
| Utils.SpaceBeforeSpacedUhd | src/app/utils.rs:215-223 | under the intended rule a label already ending in " UHD" keeps it |
| Utils.SpaceBeforeSpacedUhdAsWritten | src/app/utils.rs:217-222 | as written, a label ending in " UHD" fails the UHD branch and the HD branch turns it into " U HD" |
| Utils.SkyUhdExample | src/app/utils.rs:215-223 | "Sky UHD" stays as intended and becomes "Sky U HD" as written |
| Utils.HumanizedChannel | src/app/utils.rs:172-230 | the humanised label (intended HD spacing) is never empty and never has two spaces in a row |
| Utils.SqueezeChars | src/app/utils.rs:190-192 | collapsing spaces only drops characters, and leaves a non-empty text non-empty |
| Utils.CleanedHasNoSeparator | src/app/utils.rs:189-193 | the cleaned label holds no '_' and no '-' |
| Utils.SpaceBeforeHdChars | src/app/utils.rs:215-223 | the HD spacing adds only ' ', 'U', 'H' and 'D' to characters of the label |
| Utils.HumanizedHasNoSeparator | src/app/utils.rs:168-193 | rule "replace '_' and '-' with spaces": the humanised label holds neither |
| Utils.CleanedDropsChannelNumber | src/app/utils.rs:175-186 | rule "drop leading virtual channel numbers": when digits and whitespace lead to another character (not '_' or '-'), the cleaned label begins with that character |
| Utils.HumanizedUppercase | src/app/utils.rs:207-213 | rule "uppercase simple lowercase words": a simple lower-case label comes out without a lower-case letter |
| Utils.UpperOfUppercaseSimple | src/app/utils.rs:207-216 | upper-casing a simple label does not change its upper-cased form |
| Utils.HumanizedSpacesHd | src/app/utils.rs:215-223 | rule "space before trailing HD/UHD": a label that is not a hostname and ends in "HD" comes out ending in " HD" or " UHD" |
| Utils.SpaceBeforeHdItv | src/app/utils.rs:215 | "ITVHD" gives "ITV HD" |
| Utils.HumanizeChannel | src/app/utils.rs:172-230 | the steps with the number scan and the double-space loop compute `HumanizedChannel` |
| Utils.CompactAlnum | src/app/utils.rs:253-256 | the compacted name is no longer than the input |
| Utils.InferBroadcastHd | src/app/utils.rs:234-272 | an HD needle in the lower-cased tags answers true; without one and without a channel the answer is false |
| Utils.InferFromHdSuffix | src/app/utils.rs:247-268 | any channel name ending in "HD" in any case is inferred HD |
| Utils.HumanizedHdLabelIsHd | src/app/utils.rs:172-268 | a humanised label ending in " HD" is always inferred HD |
| Utils.DimsVerdict | src/app/utils.rs:540-544 | known non-zero dimensions decide, and say HD exactly when width >= 1280 or height >= 720 |
| Utils.HayVerdict | src/app/utils.rs:529-574 | an SD needle answers false; otherwise usable cached dimensions decide; otherwise the answer is true exactly when a wordy HD needle or the word "dv" occurs or the probe says HD, and without a needle the probe decides |
| Utils.IsPathHd | src/app/utils.rs:516-575 | on the stem and parent name: an SD needle answers false, else usable cached dimensions decide, else HD exactly when an HD needle ("dv" as a word) occurs or the probe says HD |
| Utils.HdNeedlesSplit | src/app/utils.rs:553-566 | the HD needles are the wordy ones and "dv" |
| Utils.HayVerdictAgrees | src/app/utils.rs:529-574 | the intended and the as-written verdicts agree wherever every "dv" stands alone as a word, or none occurs |
| Utils.DvInsideWordAsWritten | src/app/utils.rs:547-566 | as written, "dv" inside a word marks a file HD even when ffprobe would report 720x576, which is SD |
| Utils.DvInsideWordCorrected | src/app/utils.rs:547-572 | with "dv" matched as a word, a "dv" inside a longer word leaves the decision to ffprobe |
| Utils.DvdHasNoDvToken | src/app/utils.rs:553 | "dvd" contains "dv" but not as a word |
| Utils.FreshEntries | src/app/utils.rs:341-354 | the kept entries are exactly those whose file still has the recorded time and size, unchanged |
| Utils.StaleKeys | src/app/utils.rs:344-350 | the stale keys are exactly the entries whose file changed time or size |
| Utils.RefreshPartition | src/app/utils.rs:341-361 | kept and stale entries split the cache with nothing lost, and their counts add up |
| Utils.ProbeCache.Lookup | src/app/utils.rs:325-335 | a hit exactly when the key is stored with the same time and size, and the hit is the stored entry |
| Utils.ProbeCache.Update | src/app/utils.rs:337-339 | the entry is inserted or replaced, and a lookup with its own time and size then hits it |
| Utils.ProbeCache.RefreshStaleEntries | src/app/utils.rs:341-361 | exactly the stale entries are dropped, every remaining one is a hit, and the count of dropped entries is returned unless the save after a drop fails |
| Utils.ProbeCache.Resolution | src/app/utils.rs:450-512 | a cache hit answers at once; without ffprobe or output nothing changes; otherwise the parsed dimensions are returned and stored |
| Utils.ProbeStored | src/app/utils.rs:491-509 | storing fresh dimensions makes the key a hit with those dimensions and keeps every other entry |
| Utils.FirstNonBlank | src/app/utils.rs:487 | the chosen line is one of the lines and is not blank |
| Utils.ParseU32 | src/app/utils.rs:489-490 | a parsed value fits in `u32`, and parsing succeeds exactly when the decimal reading in 0..=u32::MAX does |
| Utils.ParseDims | src/app/utils.rs:488-490 | both parsed sides fit in `u32` |
| Utils.ParseProbeOutput | src/app/utils.rs:486-490 | parsed dimensions fit in `u32` |
| Utils.ParseU32RoundTrip | src/app/utils.rs:489 | a printed number reads back as itself |
| Utils.ParseDimsRoundTrip | src/app/utils.rs:488-490 | "<w>x<h>" reads back as (w, h) |
| Utils.ParseProbeOutputRoundTrip | src/app/utils.rs:486-490 | the line ffprobe prints reads back as the same dimensions |
| App.SmallKey | src/app/mod.rs:427-429 | the small key is the base key followed by "__s" |
| App.SmallKeyInjective | src/app/mod.rs:427-429 | distinct base keys give distinct small keys |
| App.ShortDigest | src/app/mod.rs:439-441 | at most the first eight characters of the digest, exactly eight when there are that many |
| App.NormalizedHasNoColon | src/app/mod.rs:431-443 | the title part of an owned key never holds ':' |
| App.OwnedKeyFieldsYear | src/app/mod.rs:431-438 | with a year (given or found in the title) the key splits on ':' into the normalised title and the year |
| App.OwnedKeyFieldsDigest | src/app/mod.rs:439-442 | without a year the key splits into the normalised title, "0" and the short digest |
| App.OwnedKeyOfNormalized | src/app/mod.rs:431-443 | titles that normalise alike get the same key for the same year |
| App.FindGridPositionFrom | src/app/mod.rs:391-398 | a found position is a cell holding the index; None means no row from `from` on holds it |
| App.FindGridPosition | src/app/mod.rs:391-402 | the position is a valid cell, and it is None exactly when `is_idx_in_grid` is false |
| App.IndexIn | src/app/mod.rs:393-395 | the first column of the row holding the index |
| App.ComputeNavTarget | src/app/mod.rs:334-389 | there is a target exactly when the current index is in the grid |
| App.NavStaysInGrid | src/app/mod.rs:334-389 | from a cell of the grid every direction reaches a cell of the grid |
| App.PositionOfCell | src/app/mod.rs:391-398 | in a grid without repeats an index is found at its own cell |
| App.NavLeftUndoesRight | src/app/mod.rs:341-367 | Left undoes Right, across row ends too, whenever Right moved |
| App.NavEdges | src/app/mod.rs:341-388 | Left at the first cell, Up in the first row, Right at the last cell and Down in the last row stay put |
| App.NavVerticalColumn | src/app/mod.rs:368-388 | Up and Down keep the column when the target row is long enough and clamp to its last cell otherwise |
| App.FirstInGroups | src/app/mod.rs:413-421 | the first index of the first non-empty group; None exactly when every group is empty |
| App.PushMessage | src/app/mod.rs:717-723 | the new message comes first, the older ones follow in order, and at most eight are kept |
| App.TmdbReleaseYear | src/app/mod.rs:1118-1122 | a year comes only from a present date and fits in `i32` |
| App.TmdbReleaseYearOfDate | src/app/mod.rs:1118-1122 | a "YYYY-MM-DD" date gives back its year |
| App.FirstUsable | src/app/mod.rs:1096-1116 | the first result with votes and a positive average; None exactly when there is none |
| App.FirstUsableInYear | src/app/mod.rs:1096-1116 | the first usable result released in the target year; None exactly when there is none |
| App.ChosenRating | src/app/mod.rs:1096-1116 | the chosen result is one of the results and is usable |
| App.FirstFound | src/app/mod.rs:1096-1116 | a usable result in the target year with no earlier one is the one chosen |
| App.ExtractTmdbRating | src/app/mod.rs:1096-1116 | the loop returns the average and vote count of the result `ChosenRating` specifies |
| App.RatingOf | src/app/mod.rs:1124-1131 | there is a rating to format exactly when a result was chosen |
| App.VotesLabel | src/app/mod.rs:1124-1131 | the singular "1 vote" exactly for one vote |
| App.DigitRun | src/app/mod.rs:966-972 | the longest prefix of ASCII digits |
| App.ImdbIdOf | src/app/mod.rs:959-975 | an id is "tt" followed by at least one digit and nothing else |
| App.ImdbIdFromGuid | src/app/mod.rs:959-975 | the method computes `ImdbIdOf` |
| App.PushDigits | src/app/mod.rs:966-972 | the loop appends exactly the maximal run of digits |
| App.ImdbIdOfPrefixed | src/app/mod.rs:959-975 | "tt" and digits up to a non-digit give that id |
| App.LineKeys | src/app/mod.rs:469-473 | every key read from sidecar lines is non-empty |
| App.LineKeysMember | src/app/mod.rs:469-473 | a text is a key exactly when it is non-empty and some line trims to it |
| App.LineKeysOfKeys | src/app/mod.rs:469-473 | for lines that are keys already, the keys read are exactly those lines |
| App.SidecarSet | src/app/mod.rs:465-474 | an unreadable file gives None; a readable one gives its trimmed non-empty lines |
| App.LoadSidecarFile | src/app/mod.rs:465-474 | the line loop computes `SidecarSet` |
| App.PexApp.constructor | src/app/mod.rs:174-259 | the start-up state of the modelled fields; the owned and HD key sets are what the two sidecar files read as, and the scan is idle without dates |
| App.PexApp.InFlight | src/app/mod.rs:701-704 | targets not completed or failed, saturating at 0 |
| App.PexApp.SetOwnedCutoffFromStr | src/app/mod.rs:264-275 | success exactly when the cutoff parses; then the timestamp and the trimmed text are stored; on failure the timestamp is kept and the raw text stored; valid follows success |
| App.PexApp.ResetOwnedCutoffToDefault | src/app/mod.rs:277-281 | the default timestamp and text are restored and marked valid |
| App.PexApp.HandleKeyboardNavigation | src/app/mod.rs:283-332 | nothing moves without a grid, with a focused widget or without an arrow; a selection outside the grid moves to the first cell; one inside moves to `ComputeNavTarget`'s neighbour and is scrolled to, or stays when there is none; only the selection and the scroll target change |
| App.PexApp.SyncSelectionWithGroups | src/app/mod.rs:404-423 | a still-valid selection is kept; an invalid one moves to the first grouped index or is cleared; the result is in the groups |
| App.PexApp.RecordOwnedMessage | src/app/mod.rs:717-723 | the log becomes `PushMessage` of the old log, and only the log can change |
| App.PexApp.ApplyScheduledFlags | src/app/mod.rs:497-509 | each row's flag is set exactly when the index reports it; with no index all flags are cleared |
| App.PexApp.RefreshScheduledIndex | src/app/mod.rs:480-495 | an empty or failed index is dropped, a non-empty one kept, and the rows become `ScheduledRows` of the kept index |
| App.ChosenIndex | src/app/mod.rs:481-494 | a kept index is the loaded one and is not empty |
| App.ScheduledRows | src/app/mod.rs:497-509 | the flagged rows are as many as the rows |
| App.ScheduledRowsAt | src/app/mod.rs:497-509 | row i keeps every field but the flag, which is set exactly when the index reports the row |
| App.MakeOwnedKey | src/app/mod.rs:431-443 | the key is the normalised title, ':', and then the year (given, else found in the title) or "0:" and the first eight digest characters |
| App.KeyYear | src/app/mod.rs:433 | the given year wins; without one, the first year in the title |
| App.IsIdxInGrid | src/app/mod.rs:400-402 | an index is in the grid exactly when some cell holds it |
| App.PexApp.ChannelIconTexture | src/app/mod.rs:823-853 | a download starts only for a non-blank URL without texture, file or pending request; a texture exists when cached or decoded from the file |
| Scheduled.AddSlot | src/app/scheduled.rs:155 | the key gains the time, its earlier times stay, and no other key changes |
| Scheduled.MakeTitleKeyShape | src/app/scheduled.rs:62-70 | no key exactly when the title normalises to nothing; otherwise the key is the normalised title and the year |
| Scheduled.MakeTitleKey | src/app/scheduled.rs:62-70 | the title key: the lower-cased normalised title, ':' and the year (0 when none), or none for a title that normalises to nothing (MakeTitleKeyShape, MakeTitleKeyNormalized) |
| Scheduled.MakeTitleKeyNormalized | src/app/scheduled.rs:62-70 | titles that normalise alike share a key for the same year |
| Scheduled.SegmentAfter | src/app/scheduled.rs:277-286 | a segment exists exactly when "/metadata/" occurs, and it holds no further "/metadata/" |
| Scheduled.DecodeMtKey | src/app/scheduled.rs:277-286 | no segment gives nothing; otherwise the result is the decoding of the segment |
| Scheduled.GrabContribution | src/app/scheduled.rs:115-156 | a slot is booked only at the parsed start second of a row that is at most a day old |
| Scheduled.GuidWins | src/app/scheduled.rs:126-133 | a recent row with a non-empty guid contributes that guid, whatever else it holds |
| Scheduled.PastGrabIgnored | src/app/scheduled.rs:121-124 | a row that began more than a day before now contributes nothing |
| Scheduled.IngestGrabsGrows | src/app/scheduled.rs:115-157 | ingesting rows only adds guids and times |
| Scheduled.AiringTime | src/app/scheduled.rs:228-234 | a kept airing time parses and is at most a day old; a dropped one does not parse or is older |
| Scheduled.BookTime | src/app/scheduled.rs:235-237 | with a key and a time the time is booked under the key |
| Scheduled.AiringTimeSource | src/app/scheduled.rs:228-238 | every booked time comes from one entry, parsed and recent |
| Scheduled.AiringTimeBooked | src/app/scheduled.rs:228-238 | every recent well-formed entry is booked |
| Scheduled.IngestSubscription | src/app/scheduled.rs:198-238 | a non-empty guid is recorded even when the rest is unusable; without a title no time is booked |
| Scheduled.IngestSubscriptionBlob | src/app/scheduled.rs:183-196 | an absent, blank or unparsable blob changes nothing |
| Scheduled.DesiredGuid | src/app/scheduled.rs:256-272 | a guid comes only from a present, non-blank remote id that decodes to it |
| Scheduled.ScheduledIndex.constructor | src/app/scheduled.rs:19-24 | the default index is empty |
| Scheduled.ScheduledIndex.IsScheduled | src/app/scheduled.rs:32-53 | a known guid schedules; otherwise the title key must hold exactly the airing second |
| Scheduled.ScheduledIndex.EmptySchedulesNothing | src/app/scheduled.rs:28-53 | an empty index schedules nothing |
| Scheduled.ScheduledIndex.IsEmpty | src/app/scheduled.rs:28-30 | empty exactly when the index holds no guid and no title slot; an empty index schedules nothing (EmptySchedulesNothing) |
| Scheduled.ScheduledIndex.LoadGrabs | src/app/scheduled.rs:115-157 | the grab loop leaves the index `IngestGrabs` specifies |
| Scheduled.ScheduledIndex.BookAiringTimes | src/app/scheduled.rs:228-238 | the airing-time loop books `AddAiringTimes` and leaves the guids alone |
| Scheduled.ScheduledIndex.LoadSubscription | src/app/scheduled.rs:182-238 | one subscription row leaves the index `IngestSubscriptionBlob` specifies |
| Scheduled.ScheduledIndex.LoadParsed | src/app/scheduled.rs:198-238 | a parsed subscription leaves the index `IngestSubscription` specifies |
| Scheduled.ScheduledIndex.LoadSubscriptions | src/app/scheduled.rs:165-242 | the subscription loop leaves the index `IngestSubscriptions` specifies |
| Scheduled.ScheduledIndex.LoadDesired | src/app/scheduled.rs:244-275 | the desired-items loop adds exactly the decoded guids and leaves the title slots alone |
| Scheduled.DesiredGuidSource | src/app/scheduled.rs:256-272 | every collected guid comes from some row |
| Scheduled.DesiredGuidCollected | src/app/scheduled.rs:256-272 | every guid a row yields is collected |
| Scheduled.IngestGrabsConcat | src/app/scheduled.rs:115-157 | ingesting a then b is ingesting a + b |
| Scheduled.GrabRowKept | src/app/scheduled.rs:115-157 | what any row contributes survives all later rows |
| Scheduled.GrabsThenScheduled | src/app/scheduled.rs:32-157 | after the grab rows, each row booked by guid is scheduled under it and each row booked by title and year is scheduled at its start second |
| Scheduled.SubscriptionThenScheduled | src/app/scheduled.rs:32-238 | each recent well-formed airing time of a titled subscription is scheduled for that title and year |
| Filters.Decade | src/app/filters.rs:96 | `(y / 10) * 10` with truncating division: a multiple of ten within ten of the year, at or below it for non-negative years and at or above it for negative ones |
| Filters.RowBucketKeeps | src/app/filters.rs:41-111 | a row is kept exactly when it airs inside the day window and passes every filter, and then under its airing's day bucket |
| Filters.EmptySelectionsFilterNothing | src/app/filters.rs:30-78 | with no channel and no genre selected, a row's channel and genres make no difference |
| Filters.MatchGenre | src/app/filters.rs:67-78 | the search loop finds a match exactly when some genre of the row is selected |
| Filters.KeepRow | src/app/filters.rs:41-111 | the filter closure computes `RowBucket` |
| Filters.Filtered | src/app/filters.rs:37-112 | no more entries than rows |
| Filters.FilteredSound | src/app/filters.rs:37-112 | every entry is a kept position under its bucket |
| Filters.FilteredAscending | src/app/filters.rs:37-112 | the positions ascend |
| Filters.FilteredComplete | src/app/filters.rs:37-112 | every kept position is there with its bucket |
| Filters.FilterRows | src/app/filters.rs:37-112 | the `filter_map` loop computes `Filtered` |
| Filters.SortedFiltered | src/app/filters.rs:114-120 | the sorted entries are a permutation of the filtered ones, by ascending bucket, with no position twice |
| Filters.SameIndexSameEntry | src/app/filters.rs:37-112 | a filtered entry is determined by its position, so no entry is repeated |
| Filters.Grouped | src/app/filters.rs:122-133 | groups exist exactly when entries do, never outnumber them, and the last group carries the last bucket |
| Filters.GroupedFlatten | src/app/filters.rs:122-133 | grouping keeps every index in its order |
| Filters.GroupedMembers | src/app/filters.rs:122-133 | every index sits in the group of its own bucket, and groups are non-empty |
| Filters.GroupedAscending | src/app/filters.rs:122-133 | with entries sorted by bucket the group buckets strictly ascend |
| Filters.GroupContiguous | src/app/filters.rs:122-133 | the grouping loop computes `Grouped` |
| Filters.TimeSortsUnairedLast | src/app/filters.rs:159-170 | sorting by time puts rows without an airing after all rows with one |
| Filters.DayOrderSorted | src/app/filters.rs:135-197 | a day's order is a permutation of its indices, ascending by the sort key, or descending when `sort_desc` is set |
| Filters.DaysOrdered | src/app/filters.rs:136-141 | one ordered day per group |
| Filters.DaysOrderedPerm | src/app/filters.rs:136-141 | ordering the days permutes the indices of all groups together |
| Filters.OrderDay | src/app/filters.rs:137-140 | sort then reverse when descending computes `DayOrder` |
| Filters.OrderDays | src/app/filters.rs:136-141 | the loop over the groups computes `DaysOrdered` |
| Filters.BuildGroupedIndices | src/app/filters.rs:20-144 | the method computes `GroupedIndices` of the filter state and the rows |
| Filters.PipelineShape | src/app/filters.rs:37-143 | for any filter and any bucket-first key the groups are non-empty, strictly ascend and repeat no index |
| Filters.PipelineSound | src/app/filters.rs:37-143 | every shown position is kept under its group's bucket |
| Filters.PipelineComplete | src/app/filters.rs:37-143 | every kept position is shown |
| Filters.GroupedIndicesShape | src/app/filters.rs:20-144 | groups are non-empty, their buckets strictly ascend and no index appears twice |
| Filters.GroupedIndicesExact | src/app/filters.rs:20-144 | an index is shown exactly when its row is kept, and under the bucket of its airing |
| Filters.GroupedIndicesOrder | src/app/filters.rs:135-141 | within a day the indices follow the sort key, reversed when descending |
| Filters.InsertInt | src/app/filters.rs:150 | `BTreeSet::insert` keeps the sequence ascending and adds exactly the element |
| Filters.DecadesOf | src/app/filters.rs:146-154 | the decades come out strictly ascending |
| Filters.DecadesOfExactly | src/app/filters.rs:146-154 | a decade is listed exactly when some row's year falls in it |
| Filters.AvailableDecades | src/app/filters.rs:146-154 | the loop computes `DecadesOf` |
| Sorting.KeyLeOrder | src/app/filters.rs:115-120 | the comparator the sorts use (number, then text, then text, as `cmp` and `then_with` chain them) is a total order: total, antisymmetric and transitive |
| Sorting.SortByKeyPerm | src/app/filters.rs:157-197 | `sort_by`/`sort_by_key` rearrange the slice: the result is a permutation of the input |
| Sorting.SortByKeySorted | src/app/filters.rs:157-197 | after the sort, the keys are in ascending order |
| Sorting.SortByKeyStable | src/app/filters.rs:157-197 | the sort is stable: the elements sharing a key keep their relative order |
| Sorting.Reverse | src/app/filters.rs:138-140 | `reverse` puts element `i` at position `len - 1 - i` |
| Sorting.ReversePerm | src/app/filters.rs:138-140 | reversing a slice is a permutation of it |
| Sorting.ReverseSorted | src/app/filters.rs:136-141 | an ascending day order reversed for `sort_desc` is in descending key order |
| Sorting.NoDupPerm | src/app/filters.rs:136-141 | a permutation of duplicate-free indices stays duplicate-free, so sorting a day never repeats a row |
| Prefetch.Priorities | src/app/prefetch.rs:127-141 | each row is a priority row exactly when it airs before the day bucket two days after today's; a row with no airing time is not |
| Prefetch.QueueOrder | src/app/prefetch.rs:143 | sorting the indices by `(Reverse(prio), i)` puts the priority indices first, then the others, each part in ascending order |
| Prefetch.QueueCovers | src/app/prefetch.rs:130-145 | the queue holds every row index exactly once and nothing else |
| Prefetch.Queued | src/app/prefetch.rs:146-151 | a queued row becomes cached when it already has a path and pending otherwise, with nothing else about it changed |
| Prefetch.MarkAllAt | src/app/prefetch.rs:145-153 | after the sending loop, a queued row has its queued state and every other row is unchanged |
| Prefetch.WorkItemsAt | src/app/prefetch.rs:152 | the work item sent at each step carries the row index, key, url and cached path of the row it names |
| Prefetch.WorkItemsRows | src/app/prefetch.rs:145-153 | the work items name the rows in queue order |
| Prefetch.SendQueue | src/app/prefetch.rs:145-153 | the loop over the queue leaves the rows marked as `MarkAll` describes and sends the items `WorkItems` lists |
| Prefetch.QueueAll | src/app/prefetch.rs:126-153 | queueing computes the priorities, sorts the indices and sends them; the rows and items are those of the sorted queue |
| Prefetch.QueueAllEffect | src/app/prefetch.rs:126-153 | every row gets its queued state and exactly one work item, the rows airing before the day after tomorrow first, then the rest, each group in row order |
| Prefetch.StartedEffect | src/app/prefetch.rs:11-58 | a second start changes nothing; disabled or empty, it sets the stage-4 message, clears the counters, reports progress 1 and marks the boot ready without setting `prefetch_started`; otherwise it counts every row as a target with progress 0 |
| Prefetch.StartedQueues | src/app/prefetch.rs:43-153 | with the HTTP client built, every row is marked and sent exactly once, priority rows first |
| Prefetch.StartPrefetch | src/app/prefetch.rs:11-158 | `start_prefetch` leaves the application in the state `Started` gives and returns the work items it sends |
| Prefetch.SkipPrefetch | src/app/prefetch.rs:19-41 | the early-return branch records its message as the stage-4 and last-item message, zeroes the counters, sets progress 1 and the boot phase ready, and touches neither the rows nor `prefetch_started` |
| Prefetch.BeginPrefetch | src/app/prefetch.rs:43-63 | before queueing, `prefetch_started` is set, the counters are zero, every row is a target, progress is 0 and the message reads 0 of the targets cached |
| Prefetch.ApplyDone | src/app/prefetch.rs:169-194 | each finished download adds one to completed or to failed, to completed exactly when it carries a path for an existing row, and changes no other row |
| Prefetch.ApplyDoneRow | src/app/prefetch.rs:172-192 | the row a download finished for gets its path and the cached state, or the failed state, and keeps its title |
| Prefetch.ApplyAllCounts | src/app/prefetch.rs:164-198 | over several messages, completed grows by the successful ones and failed by the rest |
| Prefetch.ApplyAllUntouched | src/app/prefetch.rs:164-198 | a row no message names is left as it was |
| Prefetch.DrainDone | src/app/prefetch.rs:162-198 | the drain loop takes nothing without a receiver, and otherwise the first `min(MAX_DONE_PER_FRAME, waiting)` messages, applied in order |
| Prefetch.Finish | src/app/prefetch.rs:200-222 | with no targets the progress is 1; otherwise it is the finished share clamped to `[0, 1]`, the message reports progress, and once every target is finished the stage-4 message reports the totals |
| Prefetch.PollPrefetchDone | src/app/prefetch.rs:161-227 | `poll_prefetch_done` drains the messages as `DrainDone` does, counts each drained one once and keeps the target count and receiver |
| Prefetch.FinishPoll | src/app/prefetch.rs:200-222 | the summary step computes what `Finish` describes |
| Prep.FindVal | src/app/prep.rs:78-89 | no value when the needle `"key":"` is absent; otherwise the text after its first occurrence up to the next quote, and no value when there is no quote or the text is empty |
| Prep.FindValOf | src/app/prep.rs:78-89 | a non-empty quote-free value written after the first `"key":"` and closed by a quote is exactly what `find_val` returns |
| Prep.ParseChannelMeta | src/app/prep.rs:77-100 | the call sign, channel title and thumbnail read by `find_val`: each is none when its needle is missing, and a present one is non-empty and quote-free (FindVal, FindValOf) |
| Prep.FreshEnough | src/app/prep.rs:107-113 | a missing marker is never fresh; an existing one is fresh exactly when its age (zero for a future time, epoch for an unknown one) is under 24 hours |
| Prep.NeedsDbUpdateDaily | src/app/prep.rs:119-137 | a fresh marker means no copy; otherwise an unreadable source is the `src meta:` error, and a copy is needed exactly when there is no local copy, the sizes differ or the source is newer |
| Prep.CopiedSourceStaysCopied | src/app/prep.rs:119-137 | after copying an unchanged source and touching the marker, later checks never ask for a second copy |
| Prep.MarkerExpires | src/app/prep.rs:107-113 | a marker written 24 hours or more ago is stale |
| Prep.Harvest | src/app/prep.rs:433-480 | the loop over the query rows builds exactly the list `Harvested` describes |
| Prep.HarvestedSound | src/app/prep.rs:453-472 | every harvested item has a trimmed, non-empty title, an `http://` or `https://` thumbnail URL and that URL's digest as its key |
| Prep.HarvestedComplete | src/app/prep.rs:453-472 | every row with a non-blank title and an http(s) URL gives its item |
| Prep.Dedupe | src/app/prep.rs:483-484 | `retain` with a `seen` set leaves the list `Deduped` describes |
| Prep.DedupedTitles | src/app/prep.rs:483-484 | no lower-cased title is lost by de-duplication |
| Prep.DedupedUnique | src/app/prep.rs:483-484 | no two items left share a lower-cased title |
| Prep.DedupedKeepsFirst | src/app/prep.rs:483-484 | the first item of each lower-cased title is the one kept |
| Prep.DedupedIdempotent | src/app/prep.rs:483-484 | only items of the list are kept, and de-duplicating twice is the same as once |
| Prep.UniqueDeduped | src/app/prep.rs:483-484 | a list with distinct lower-cased titles is left as it is |
| Prep.ItemToRow | src/app/prep.rs:546-575 | a row keeps the item's title, URL, year and guid; it has an airing time exactly for a non-negative start time, and that time; its owned key is `MakeOwnedKey` of the title and year |
| Prep.ItemToRowChannel | src/app/prep.rs:553-571 | the raw channel is the call sign, else the thumbnail's host; the channel is the humanised channel title when not blank, else the humanised raw channel, and absent exactly when both are; a channel is never empty and has no double space, '_' or '-' |
| Prep.ItemToRowFresh | src/app/prep.rs:546-624 | a new row's key is the short key, its path is what the cache holds for it, it is cached exactly when it has a path and pending otherwise, and it starts neither owned nor scheduled nor uploaded |
| Prep.ItemsToRows | src/app/prep.rs:546-624 | the rows are the items converted one by one, in order |
| Prep.WarmStart | src/app/prep.rs:642-651 | a row whose key the hotset lists with an existing file takes that path and the cached state; every other row is unchanged |
| Prep.IconUrls | src/app/prep.rs:627-639 | the icons fetched are exactly the non-empty channel thumbnails of the rows, each once |
| Prep.InfoPhase | src/app/prep.rs:531-541 | an info message leaves the ready phase alone and moves every other phase to caching |
| Prep.InfoRun | src/app/prep.rs:526-541 | the drain takes only leading info messages, at most 16, and stops early only at a message that is not an info message |
| Prep.DoneEffect | src/app/prep.rs:542-686 | after `Done` the receiver and the hotset are gone, the icon textures are cleared, every new channel icon is pending, and the boot phase is ready exactly when the owned keys are known and caching otherwise |
| Prep.Drained | src/app/prep.rs:516-703 | the drain takes at most 17 messages, no more than are waiting, and never changes whether the owned keys are known |
| Prep.Terminal | src/app/prep.rs:542-691 | a `Done` or `Error` ends the drain and drops the receiver |
| Prep.DrainedBounds | src/app/prep.rs:518-703 | at most 16 info messages are taken, every message before the last taken is an info message, and a final non-info message drops the receiver |
| Prep.DrainedPhase | src/app/prep.rs:526-703 | without a `Done` the rows stay, and the boot phase moves only as the first info message moves it |
| Prep.DrainPrep | src/app/prep.rs:526-699 | the drain loop computes what `Drained` describes |
| Prep.PollPrep | src/app/prep.rs:516-708 | without a `Done` the fields are as `Polled` describes and nothing of the prefetch or scheduled index changes; on a `Done` the scheduled index is refreshed, the rows are scheduled and owned-flagged, and the prefetch starts as `AfterDone` describes |
| Prep.DrainIntoApp | src/app/prep.rs:516-703 | the drain loop leaves the fields `Drained` describes, and of the prefetch fields changes only the rows and the boot phase |
| Prep.DrainDone | src/app/prep.rs:516-680 | a drain that takes a `Done` leaves the fields `Drained` describes, drops the receiver, refreshes the scheduled index and starts the prefetch as `AfterDone` describes |
| Prep.FollowDone | src/app/prep.rs:665-680 | the `Done` arm refreshes the scheduled index, flags the rows and starts the prefetch as `AfterDone` describes |
| Prep.FlagAndStart | src/app/prep.rs:668-680 | owned flags are applied to the rows, then the prefetch starts on them |
| Prep.AfterDoneRows | src/app/prep.rs:665-680 | after a `Done` with the prefetch not yet started: it is started with every row a target and none failed; each row's scheduled flag is the index's answer, it is owned exactly when its key or a variant is known, it is cached or pending by its path, and every row index is queued once |
| Prep.StartPosterPrep | src/app/prep.rs:500-514 | a second call changes nothing; the first marks the preparation started, enters the checking phase, clears the last item message and sets up the receiver |
| Cache.LowerExt | src/app/cache.rs:81-82 | the lower-cased extension, when there is one, holds no dot |
| Cache.PruneCutoff | src/app/cache.rs:71-73 | the prune cutoff lies before the current time |
| Cache.Keep | src/app/cache.rs:91-93 | removing the marked files leaves exactly the other entries, each with its metadata unchanged |
| Cache.PruneLeavesNoAged | src/app/cache.rs:75-95 | after a prune no regular poster file older than the cutoff is left, and only such files are gone |
| Cache.PruneIdempotent | src/app/cache.rs:70-97 | a second prune at the same cutoff removes nothing |
| Cache.PruneKeepsRecent | src/app/cache.rs:77-91 | directories, links and files modified within the 14-day window survive a prune whatever their name |
| Cache.PosterDir.constructor | src/app/cache.rs:43-51 | a directory starts with its entries and not yet pruned |
| Cache.PosterDir.Open | src/app/cache.rs:43-63 | the first call prunes the directory once; later calls change nothing |
| Cache.PosterDir.PruneInDir | src/app/cache.rs:70-97 | removes exactly the aged poster files and returns how many there were |
| Cache.PosterDir.RefreshLight | src/app/cache.rs:294-335 | removes the unreadable files, then prunes the aged ones, and returns the two counts added together |
| Cache.PosterDir.FindAnyByKey | src/app/cache.rs:140-157 | returns the first candidate name present in the directory, joined to its path |
| Cache.RemoveMatching | src/app/cache.rs:301-330 | the loop over `read_dir` removes exactly the entries the predicate marks, in whatever order they come |
| Cache.LightKeepsReadable | src/app/cache.rs:314-324 | the light refresh keeps every non-empty png, jpg, jpeg or webp file and every `rgba` file longer than its 8-byte header |
| Cache.LightLeavesOnlyReadable | src/app/cache.rs:314-324 | every regular file the light refresh keeps has an extension and is a non-empty image or an `rgba` file longer than its header |
| Cache.JoinPath | src/app/cache.rs:151 | the joined path ends with the name |
| Cache.FirstPresentNone | src/app/cache.rs:150-156 | the lookup finds nothing exactly when no candidate is present |
| Cache.FirstPresentAt | src/app/cache.rs:150-155 | the lookup returns the first candidate present |
| Cache.PngFirst | src/app/cache.rs:142-149 | a cached `.png` wins over every other form of the same poster |
| Cache.NormalizeDir | src/app/cache.rs:474-478 | a normalised path has no forward slash and is no longer than the input |
| Cache.CollapseBackslashPairs | src/app/cache.rs:476 | collapsing backslash pairs never lengthens a path and never adds a slash |
| Cache.NormalizeForwardSlashes | src/app/cache.rs:474-478 | for a path without backslashes, normalising only turns each slash into a backslash |
| Cache.CacheDirFor | src/app/cache.rs:22-41 | the configured directory, normalised, when it can be created; otherwise the normalised default `.pex_cache` |
| Cache.SubDirFor | src/app/cache.rs:43-51 | the sub-directory when it can be created, and the cache directory itself otherwise |
| Cache.LeRoundTrip | src/app/cache.rs:120-121 | `from_le_bytes` undoes `to_le_bytes` for every 32-bit value |
| Cache.RgbaFile | src/app/cache.rs:195-203 | a raw file is the 8-byte header followed by the body |
| Cache.LoadRgbaRawOrImage | src/app/cache.rs:105-138 | a missing path is the `not found` error; an `rgba` file yields the width and height of its header and the bytes after it; any other file goes to the decoder |
| Cache.RgbaRoundTrip | src/app/cache.rs:105-138 | reading back a raw file gives the width, height and pixels it was written with |
| Cache.RawFallbackFile | src/app/cache.rs:192-207 | the fallback for an undecodable body stores the body after a zero width and height |
| Cache.RawFallbackReads | src/app/cache.rs:192-207 | a fallback file reads back as a 0 by 0 image carrying the body |
| Cache.RawFallbackKept | src/app/cache.rs:319-320 | the light refresh removes a fallback file exactly when the body was empty |
| Cache.ResizedFetch | src/app/cache.rs:214-229 | the resized download stores `<key>.jpg` in the poster directory and returns an existing file without downloading |
| Cache.IconFetch | src/app/cache.rs:350-361 | a blank URL is refused; otherwise the icon is `<md5 of the URL>.png` in the icon directory, returned at once when it exists |
| Cache.ResizedFoundByKey | src/app/cache.rs:140-229 | a poster the resized download stored is found again by key, unless a `.png` of that key is present |
| Prefs.KeyOf | src/app/prefs.rs:40-90 | a name is taken for a key only when it spells exactly that key's name |
| Prefs.KeyOfName | src/app/prefs.rs:40-90 | every key's name is read back as that key |
| Prefs.Clamp | src/app/prefs.rs:63-67 | `clamp(1, 32)` returns the value when it lies within the bounds, and the nearer bound otherwise |
| Prefs.ParseCsvSet | src/app/prefs.rs:75-86 | the selected names come out as a set, in sorted order without repeats |
| Prefs.CsvSetMembers | src/app/prefs.rs:75-86 | the set holds exactly the trimmed, non-empty pieces between the commas |
| Prefs.CsvSetTrimmed | src/app/prefs.rs:77 | no selected name has whitespace at either end |
| Prefs.ParseLine | src/app/prefs.rs:29-38 | a line is skipped exactly when it is blank, a `#` comment or has no `=`; the key read holds no `=` |
| Prefs.LoadKeepsWellFormed | src/app/prefs.rs:29-92 | whatever the file says, the worker count stays within 1 to 32 and the selections stay sets of trimmed names |
| Prefs.ApplyPrefsLines | src/app/prefs.rs:29-92 | the loop over the lines gives the preferences `ApplyLines` describes, later lines winning |
| Prefs.LoadPrefs | src/app/prefs.rs:23-93 | an unreadable file changes nothing; otherwise the preference fields take the values of its lines, and only the preference fields can change |
| Prefs.StorePrefs | src/app/prefs.rs:40-91 | the preference fields take the given values, and only they can change |
| Prefs.ReplaceCommas | src/app/prefs.rs:104 | `replace(',', " ")` keeps the length, turns each comma into a space and leaves no comma |
| Prefs.CsvPieces | src/app/prefs.rs:99-107 | splitting the written list at its commas gives back each name with its own commas turned into spaces |
| Prefs.MarkDirty | src/app/prefs.rs:9-11 | `mark_dirty` sets the dirty flag and leaves the preferences alone |
| Prefs.MaybeSavePrefs | src/app/prefs.rs:13-20 | the preferences are written exactly when a change is pending and 300 ms have passed, and then the flag is cleared |
| Prefs.KeyNameText | src/app/prefs.rs:109-123 | every key name written survives the trim and the split at `=` |
| Prefs.KeyValueLine | src/app/prefs.rs:29-38 | a written `key=value` line reads back as its key and value |
| Prefs.FieldLinesRead | src/app/prefs.rs:109-147 | reading the written lines applies the written fields in order |
| Prefs.CsvRoundTrip | src/app/prefs.rs:75-107 | a set of trimmed, non-empty, comma-free names is written and read back as itself |
| Prefs.SavedFieldsRestore | src/app/prefs.rs:40-147 | applying the saved fields restores every saved preference |
| Prefs.LoadSaved | src/app/prefs.rs:23-150 | loading what `save_prefs` wrote restores every saved preference, whatever the preferences were before |
| Prefs.ParseHotsetLine | src/app/prefs.rs:178-179 | a manifest line is taken only when a tab splits it into a non-empty key without tabs and a non-empty path |
| Prefs.HotsetLineUnique | src/app/prefs.rs:178 | `split_once('\t')` splits a line at its first tab, so key and path are determined |
| Prefs.MapOfKeys | src/app/prefs.rs:176-183 | the manifest maps exactly the keys of its entries |
| Prefs.MapOfLast | src/app/prefs.rs:180 | a key maps to the path of its last entry |
| Prefs.LoadHotsetManifest | src/app/prefs.rs:173-185 | the loop builds the map of the entries of the well-formed lines |
| Prefs.HotsetKeptIsTakeOfTextured | src/app/prefs.rs:155-159 | the recorded entries come from the first `max_items` rows with a texture, and only those with a path; `take` counts rows without a path |
| Prefs.SaveHotsetManifest | src/app/prefs.rs:153-161 | the manifest is the recorded entries as `key<TAB>path` lines joined by newlines |
| Prefs.EntryLineParses | src/app/prefs.rs:157-180 | a written entry line reads back as the entry |
| Prefs.HotsetRoundTrip | src/app/prefs.rs:153-185 | reading back a manifest `save_hotset_manifest` wrote gives its entries |
| Owned.ColonHead | src/app/owned/mod.rs:197-202 | at most one candidate: when the title holds a ':', the non-empty trimmed text before the first one, free of ':' |
| Owned.PossessiveTail | src/app/owned/mod.rs:207-216 | at most one candidate, offered only when the needle was found and the text before it holds a space; it is non-empty and differs from the title |
| Owned.ArticleCandidate | src/app/owned/mod.rs:221-227 | at most one candidate, offered only when the lower-cased title starts with the article; it is non-empty and differs from the title |
| Owned.TitleVariantsHead | src/app/owned/mod.rs:188-202 | no variants exactly for a blank title; otherwise the trimmed title comes first, followed by the colon head when there is one |
| Owned.TitleVariantsNonEmpty | src/app/owned/mod.rs:188-231 | every title variant is a non-empty text |
| Owned.ArticleDropped | src/app/owned/mod.rs:219-228 | a title starting with "The " (or "A ", "An ") followed by more text is also looked up without the article |
| Owned.OwnedTitleVariants | src/app/owned/mod.rs:188-231 | the method pushes exactly the variants `TitleVariants` lists, in order |
| Owned.ColonStep | src/app/owned/mod.rs:197-202 | the colon step finds what `ColonHead` describes |
| Owned.PushPossessives | src/app/owned/mod.rs:206-217 | the possessive loop appends one candidate per needle that yields one, in needle order |
| Owned.PossessiveStep | src/app/owned/mod.rs:207-216 | one needle yields what `PossessiveCandidate` describes |
| Owned.TailStep | src/app/owned/mod.rs:208-215 | the candidate after a found needle is what `PossessiveTail` describes |
| Owned.PushArticles | src/app/owned/mod.rs:220-228 | the article loop appends one candidate per matching article, in article order |
| Owned.ArticleStep | src/app/owned/mod.rs:222-227 | one article yields what `ArticleCandidate` describes |
| Owned.SaturatingAddI32 | src/app/owned/mod.rs:161 | `saturating_add` gives the sum when it fits in `i32` and the nearer bound otherwise |
| Owned.YearCandidatesOrder | src/app/owned/mod.rs:158-167 | for a year y the candidates are y, y-1 and y+1, each only when positive, then None; without a year only None |
| Owned.OffsetYearsPositive | src/app/owned/mod.rs:160-165 | every proper year candidate is positive |
| Owned.KeysFor | src/app/owned/mod.rs:170-175 | one title gives one key per year candidate, in order |
| Owned.AddAllKeeps | src/app/owned/mod.rs:172-174 | pushing keys through the `seen` set keeps the list free of duplicates and it then holds exactly the old and the added keys |
| Owned.AllKeysMember | src/app/owned/mod.rs:169-176 | the keys are exactly those of some title variant under some year candidate |
| Owned.KeyVariantsShape | src/app/owned/mod.rs:153-186 | `owned_key_variants` is non-empty and free of duplicates; a blank title gives only its own key, any other title leads with the trimmed title under the first year candidate |
| Owned.CollectedKeysShape | src/app/owned/mod.rs:169-176 | the collected keys are distinct, exactly those of some title under some year, empty only without titles, and led by the first title under the first year |
| Owned.OwnedYearCandidates | src/app/owned/mod.rs:158-167 | the year loop builds the candidates `YearCandidates` lists |
| Owned.OwnedKeyVariants | src/app/owned/mod.rs:153-186 | the method returns the keys `KeyVariants` lists |
| Owned.CollectKeys | src/app/owned/mod.rs:169-176 | the nested loops push each new key once, in title-then-year order |
| Owned.AddTitleKeys | src/app/owned/mod.rs:170-175 | the inner loop pushes the new keys of one title and keeps `seen` equal to the pushed keys |
| Owned.FirstOwned | src/app/owned/mod.rs:130-135 | the match found is a held candidate, and there is none exactly when no candidate is held |
| Owned.FlagRowOwned | src/app/owned/mod.rs:126-150 | a row is owned exactly when one of its key variants or its current key is held; an owned row takes a held key and that key's date, an unowned one keeps its key and loses its date, and nothing else in the row changes |
| Owned.FlagRowFirstVariant | src/app/owned/mod.rs:130-143 | the key recorded is the first variant held |
| Owned.MatchRow | src/app/owned/mod.rs:127-139 | the key matched is the first held variant, else the current key when held |
| Owned.FlagOne | src/app/owned/mod.rs:127-149 | the loop body flags one row as `FlagRow` describes |
| Owned.FlaggedRowsAt | src/app/owned/mod.rs:126-150 | row k of the result is row k flagged |
| Owned.FlagRows | src/app/owned/mod.rs:126-150 | the row loop flags every row in order |
| Owned.ApplyOwnedFlags | src/app/owned/mod.rs:121-151 | without a key set the rows stay as they are; otherwise every row is flagged against it, and the key set, dates, HD keys and messages are untouched |
| Owned.StartOwnedHdRefresh | src/app/owned/mod.rs:54-79 | a refresh is refused with its own message while a scan runs, for a Plex-library source or with an empty manifest; otherwise a scan is marked running and announced |
| Owned.LogAfter | src/app/owned/mod.rs:253-283 | after handling messages, the newest message text leads the log, which holds at most 8 entries |
| Owned.LastDone | src/app/owned/mod.rs:265-270 | the last `Done` among the messages: a `Done` message that occurs and is followed by no other `Done`, and none exactly when no message is a `Done` |
| Owned.KeysAfter | src/app/owned/mod.rs:265-269 | the key set changes only to that of some `Done` message |
| Owned.HandleOwnedMsg | src/app/owned/mod.rs:253-283 | each message is logged; an info message marks the scan running and any other ends it; only `Done` changes the keys, the rows and the boot phase |
| Owned.FinishOwnedScan | src/app/owned/mod.rs:265-281 | `Done` stores the keys, the HD sidecar and the dates, flags the rows, marks the preferences dirty, logs the count, ends the scan and makes the boot phase ready |
| Owned.StoreOwnedKeys | src/app/owned/mod.rs:266-270 | stores the keys, HD keys and dates and flags the rows with them, touching neither the log nor the boot phase |
| Owned.PollOwnedScan | src/app/owned/mod.rs:234-285 | without a receiver nothing changes; otherwise the messages are handled in order, a disconnected channel ends the scan, the rows, keys, dates and HD keys are those after the last `Done` (the HD keys read from the sidecar), and after a `Done` the boot phase is ready and the preferences dirty |
| Owned.HandleOwnedMsgs | src/app/owned/mod.rs:253-283 | the message loop leaves the owned fields as `AfterMsgs` describes |
| Owned.AfterMsgsFields | src/app/owned/mod.rs:253-283 | handling messages logs them, keeps the keys, dates and rows of the last `Done`, reads the HD keys from the sidecar after a `Done`, and makes the boot phase ready and the preferences dirty exactly after one |
| Owned.ModifiedAfter | src/app/owned/mod.rs:265-270 | the dates change only to those of some `Done` message |
| Owned.RowsAfter | src/app/owned/mod.rs:265-275 | handling messages keeps the number of rows |
| Owned.RowsAfterConsistent | src/app/owned/mod.rs:265-275 | after a `Done` an owned row's key is among the known keys and its date is the known date; an unowned row has none; other fields are unchanged |
| Owned.RowsAfterNoDone | src/app/owned/mod.rs:253-283 | without a `Done` the rows are unchanged |
| Owned.OwnedFlagged | src/app/owned/mod.rs:121-151 | flagging keeps the number of rows |
| OwnedNames.IsVideoExtNeedsExtension | src/app/owned/owned_scan_fs.rs:503-513 | a video needs an extension of three or four letters, and the test ignores ASCII case |
| OwnedNames.IsVideoExt | src/app/owned/owned_scan_fs.rs:503-513 | a path is a video exactly when its lower-cased extension is one of mkv, mp4, avi, mov, mpg, mpeg, m4v and wmv (IsVideoExtNeedsExtension) |
| OwnedNames.OwnedYearFromKey | src/app/owned/owned_scan_fs.rs:658-666 | a year is returned only when the second `:` field parses as a positive `i32`, and then it is that value |
| OwnedNames.OwnedYearFromYearKey | src/app/owned/owned_scan_fs.rs:658-666 | a key made with a positive year gives that year back |
| OwnedNames.OwnedYearFromDigestKey | src/app/owned/owned_scan_fs.rs:658-666 | a key made without a year gives none |
| OwnedNames.LastBracketYear | src/app/owned/owned_scan_fs.rs:520-541 | a bracketed year is a four-digit value |
| OwnedNames.ExtractedYear | src/app/owned/owned_scan_fs.rs:515-548 | the year found, bracketed or plain, lies between 0 and 9999 |
| OwnedNames.LastBracketIdx | src/app/owned/owned_scan_fs.rs:520-534 | the position found holds a bracket and no bracket follows it; none is found exactly when the stem has no bracket |
| OwnedNames.CloserStepMeans | src/app/owned/owned_scan_fs.rs:526-534 | a closing bracket records the buffer exactly when it ends a bracketed four-digit year |
| OwnedNames.ExtractYearFromFilename | src/app/owned/owned_scan_fs.rs:515-548 | the character loop finds the last bracketed four-digit year, else the first plausible year of the stem |
| OwnedNames.LastBracketYearSuffix | src/app/owned/owned_scan_fs.rs:520-541 | text without closing brackets after the last bracketed year does not change it |
| OwnedNames.BracketedYearFound | src/app/owned/owned_scan_fs.rs:515-548 | a four-digit year in brackets followed by text without closing brackets is the year found |
| OwnedNames.NoYearWithoutDigits | src/app/owned/owned_scan_fs.rs:515-548 | a stem without closing brackets and without digits has no year |
| OwnedNames.BackOver | src/app/owned/owned_scan_fs.rs:556-564 | the backward walk, taken over characters, stops at the start of the run of opening brackets and whitespace before the year |
| OwnedNames.ForwardOver | src/app/owned/owned_scan_fs.rs:565-573 | the forward walk, taken over characters, stops at the end of the run of closing brackets and whitespace after the year |
| OwnedNames.YearSpan | src/app/owned/owned_scan_fs.rs:553-577 | the span cut for the year lies within the title |
| OwnedNames.DropTrailing | src/app/owned/owned_scan_fs.rs:605-612 | popping leaves a prefix of the title that does not end in whitespace or `-_.,` |
| OwnedNames.CleanedTitleEmpty | src/app/owned/owned_scan_fs.rs:550-619 | the cleaned title is empty only when the stem is blank, thanks to the fallback to the trimmed stem |
| OwnedNames.CleanOwnedTitle | src/app/owned/owned_scan_fs.rs:550-619 | the loops compute `CleanedTitle`, which is empty exactly when the stem is blank |
| OwnedNames.CutYear | src/app/owned/owned_scan_fs.rs:553-577 | without an occurrence of the year the title stays; otherwise the span from the walks is removed |
| OwnedNames.CollapseWhitespace | src/app/owned/owned_scan_fs.rs:580-592 | the loop replaces each whitespace run by one space |
| OwnedNames.CutTrailingComment | src/app/owned/owned_scan_fs.rs:595-603 | the marker loop truncates at the last occurrence of the first marker whose remainder is at most 24 bytes once trimmed, and stops there |
| OwnedNames.PopTrailing | src/app/owned/owned_scan_fs.rs:605-612 | the pop loop leaves what `DropTrailing` describes |
| OwnedNames.CutCommentPlain | src/app/owned/owned_scan_fs.rs:595-603 | a title without dashes holds no comment marker and is not cut |
| OwnedNames.CleanBracketYear | src/app/owned/owned_scan_fs.rs:550-619 | a plain title followed by its bracketed year is cleaned to the title |
| OwnedNames.CleanYearAndComment | src/app/owned/owned_scan_fs.rs:700-706 | a plain title, its bracketed year and a short " - " comment, as in "Some Film (2000) - TVHD", are cleaned to the title |
| OwnedNames.CleanComment | src/app/owned/owned_scan_fs.rs:709-715 | a plain title followed by a short " - " comment and no year is cleaned to the title |
| OwnedNames.YearBeforeComment | src/app/owned/owned_scan_fs.rs:700-706 | a bracketed year before a " - " comment without closing brackets is the year found |
| OwnedNames.CommentedStemKey | src/app/owned/owned_scan_fs.rs:687-706 | for "Title (year) - comment" the year is found, the title is left, and the file's key is the key of title and year |
| OwnedNames.BracketedStemKey | src/app/owned/owned_scan_fs.rs:718-728 | for "Title (year)" the bracketed year wins even when the title holds digits, as in "2012 (2009)", and the key is that of title and year |
| OwnedNames.UndatedStem | src/app/owned/owned_scan_fs.rs:709-715 | for a title and a short comment without digits, as in "Example Movie - Director's Cut", no year is found and the comment is cut |
| TitleBytes.CharBytes | src/app/owned/owned_scan_fs.rs:558 | a character's UTF-8 encoding has the length Rust's `len_utf8` gives and consists of byte values |
| TitleBytes.BytesAreBytes | src/app/owned/owned_scan_fs.rs:558 | every element of a string's encoding is a byte value |
| TitleBytes.BytesConcat | src/app/owned/owned_scan_fs.rs:555-575 | the encoding of a concatenation is the concatenation of the encodings |
| TitleBytes.ByteBackOver | src/app/owned/owned_scan_fs.rs:556-564 | the backward walk over bytes read as characters never moves past its start |
| TitleBytes.ByteForwardOver | src/app/owned/owned_scan_fs.rs:565-573 | the forward walk over bytes read as characters stays within the encoding |
| TitleBytes.ByteYearSpan | src/app/owned/owned_scan_fs.rs:553-576 | the byte range handed to `replace_range` lies within the encoding |
| TitleBytes.WalkStopsInsideAccent | src/app/owned/owned_scan_fs.rs:556-564 | after the bytes C3 A0 of "à", a space and "(", the walk reads A0 as whitespace and stops between C3 and A0, which is not a character boundary |
| TitleBytes.PanicsAfterAccent | src/app/owned/owned_scan_fs.rs:553-576 | when the text before the year ends in "à (", the range handed to `replace_range` is non-empty and starts off a character boundary, so the call panics |
| TitleBytes.AccentBeforeYearPanics | src/app/owned/owned_scan_fs.rs:550-576 | a title ending in "à" followed by its bracketed year, as in "Voilà (2005)", makes the cut as written panic |
| OwnedScanFs.DefaultManifest | src/app/owned/owned_scan_fs.rs:30-35 | the default manifest is at the current version and records no directory |
| OwnedScanFs.Loaded | src/app/owned/owned_scan_fs.rs:61-91 | a loaded manifest is always at the current version, and holds the parsed directories when the file parsed and needs no upgrade, none otherwise |
| OwnedScanFs.LoadedUpToDate | src/app/owned/owned_scan_fs.rs:61-91 | a loaded manifest never needs an upgrade |
| OwnedScanFs.Saved | src/app/owned/owned_scan_fs.rs:93-105 | `save` writes the manifest's directories at the current version |
| OwnedScanFs.SavedThenLoaded | src/app/owned/owned_scan_fs.rs:61-105 | loading what was saved gives it back, unless some file entry lacks a path or a size, and then the load starts over empty |
| OwnedScanFs.OwnedManifest.Load | src/app/owned/owned_scan_fs.rs:61-91 | `load` builds a new manifest holding what `Loaded` describes |
| OwnedScanFs.OwnedManifest.NeedsUpgrade | src/app/owned/owned_scan_fs.rs:181-193 | an upgrade is needed exactly when the version is older or some file entry has a blank path or no size |
| OwnedScanFs.AnyStaleFile | src/app/owned/owned_scan_fs.rs:186-190 | the inner loop finds a file entry with a blank path or no size exactly when there is one |
| OwnedScanFs.OwnedManifest.SaveIfChanged | src/app/owned/owned_scan_fs.rs:107-113 | an unchanged manifest is not written; a changed one is written and reported, and a failed write is an error |
| OwnedScanFs.OwnedManifest.IsEmpty | src/app/owned/owned_scan_fs.rs:115-117 | empty exactly when no directory is recorded |
| OwnedScanFs.OwnedManifest.Get | src/app/owned/owned_scan_fs.rs:177-179 | the stored snapshot of a recorded directory, and none for any other |
| OwnedScanFs.OwnedManifest.InsertSnapshot | src/app/owned/owned_scan_fs.rs:173-175 | records or replaces one directory's snapshot and changes nothing else |
| OwnedScanFs.OwnedManifest.RebuildHdFlags | src/app/owned/owned_scan_fs.rs:119-167 | fails with the missing-paths message exactly when some entry has a blank path, leaving the directories refreshed up to there; otherwise every entry is refreshed from disk |
| OwnedScanFs.InsertKeysEffect | src/app/owned/owned_scan_fs.rs:627-633 | the insert closure owns each key, marks it HD for an HD file and dates it with the file's time |
| OwnedScanFs.AccumulatedEffect | src/app/owned/owned_scan_fs.rs:621-643 | after `accumulate_owned_entry` the file's keys are owned, dated and, for an HD file, HD; nothing else is added, and every HD key stays owned and exactly the owned keys dated |
| OwnedScanFs.UnhintedEntryKey | src/app/owned/owned_scan_fs.rs:640-642 | an entry without a title hint is owned under its stored key alone |
| OwnedScanFs.AccumulateOwnedEntry | src/app/owned/owned_scan_fs.rs:621-643 | the method updates the three sets as `Accumulated` describes |
| OwnedScanFs.AccumulateFilesEffect | src/app/owned/owned_scan_fs.rs:280-282 | accumulating file entries adds exactly their keys, and their HD files' keys to the HD set |
| OwnedScanFs.AccumulateFilesLastDate | src/app/owned/owned_scan_fs.rs:632 | a key is dated with the time of the last entry owned under it |
| OwnedScanFs.Listed | src/app/owned/owned_scan_fs.rs:378-421 | the listing keeps every directory and exactly the regular files with a video extension |
| OwnedScanFs.ListEntries | src/app/owned/owned_scan_fs.rs:378-421 | the listing loop gathers what `Listed` describes |
| OwnedScanFs.SnapshotMatches | src/app/owned/owned_scan_fs.rs:303-356 | a snapshot matches exactly when its subdirectories are the listed directories and its files the listed video files with the same time and size |
| OwnedScanFs.CollectListing | src/app/owned/owned_scan_fs.rs:306-321 | the first loop gathers the listed directories as a set and the listed files as a map |
| OwnedScanFs.MatchSubdirs | src/app/owned/owned_scan_fs.rs:323-333 | the subdirectory check holds exactly when the stored subdirectories are the listed ones |
| OwnedScanFs.MatchFiles | src/app/owned/owned_scan_fs.rs:335-355 | the file check holds exactly when the stored files are the listed ones with equal time and size |
| OwnedScanFs.AccumulateAll | src/app/owned/owned_scan_fs.rs:280-282 | the loop accumulates each file entry in turn |
| OwnedScanFs.ReuseDirectory | src/app/owned/owned_scan_fs.rs:271-288 | `reuse_directory` as written copies a stored directory and every stored directory below it, as `Reuse` describes |
| OwnedScanFs.ScanDirectory | src/app/owned/owned_scan_fs.rs:358-501 | the corrected scan leaves the manifest and sets `Scan` describes: an unchanged directory's own snapshot is reused and each subdirectory is scanned in its own right |
| OwnedScanFs.ScanListedSubdirs | src/app/owned/owned_scan_fs.rs:423-438 | in the corrected scan, a reused directory's listed subdirectories are each scanned in turn |
| OwnedScanFs.WalkEntry | src/app/owned/owned_scan_fs.rs:453-496 | one entry of the walk: a directory is recorded and scanned, a video file is accumulated and recorded |
| OwnedScanFs.WalkDirectory | src/app/owned/owned_scan_fs.rs:446-500 | the walk records the new snapshot of the directory as `Walk` describes |
| OwnedScanFs.ScanConsistent | src/app/owned/owned_scan_fs.rs:358-501 | a scan keeps every HD key owned and exactly the owned keys dated |
| OwnedScanFs.ChangedDirectoryWalked | src/app/owned/owned_scan_fs.rs:423-500 | a readable directory with no stored snapshot, a new time or a changed listing is walked and recorded with its current snapshot |
| OwnedScanFs.UnreadableSkipped | src/app/owned/owned_scan_fs.rs:370-376 | an unreadable directory changes nothing |
| OwnedScanFs.WalkedSnapshotMatches | src/app/owned/owned_scan_fs.rs:303-356 | the snapshot a walk records matches the same listing, so an unchanged directory is reused next time |
| OwnedScanFs.ScanKeys | src/app/owned/owned_scan_fs.rs:358-501 | the corrected scan adds exactly the keys a full walk of the tree finds, when the stored entries are the walk's own |
| OwnedScanFs.ReuseFindsWalkedKeys | src/app/owned/owned_scan_fs.rs:358-501 | with such a stored manifest, the corrected scan finds the same owned and HD keys as a scan with no manifest |
| OwnedScanFs.ReuseSubtreeMissesNewFile | src/app/owned/owned_scan_fs.rs:271-288 | as written, an unchanged `/lib` copies the stored subtree, so a new video in `/lib/a` is never owned |
| OwnedScanFs.RescanFindsNewFile | src/app/owned/owned_scan_fs.rs:423-500 | the corrected scan rescans `/lib/a` and owns the new video's keys |
| OwnedScanFs.RescanAgreesWithFullWalk | src/app/owned/owned_scan_fs.rs:271-501 | on that tree the corrected scan owns what a full walk owns, while the scan as written owns nothing |
| OwnedScanFs.Refreshed | src/app/owned/owned_scan_fs.rs:144-160 | a refreshed entry keeps its path, key and hints, takes the current time and size, and takes the HD verdict when there is one |
| OwnedScanFs.RefreshedDirs | src/app/owned/owned_scan_fs.rs:135-164 | every directory's entries are refreshed, and no directory is added or dropped |
| OwnedScanFs.RefreshIdempotent | src/app/owned/owned_scan_fs.rs:135-164 | refreshing twice against the same disk changes nothing more |
| OwnedScanFs.RefreshFiles | src/app/owned/owned_scan_fs.rs:136-163 | the inner loop succeeds exactly when no entry has a blank path, then refreshes and accumulates every entry and reports a change exactly when one differs |
| OwnedScanFs.RefreshFile | src/app/owned/owned_scan_fs.rs:144-160 | one entry is replaced by its refreshed form, and a change is reported exactly when it differs |
| OwnedScanFs.RefreshAll | src/app/owned/owned_scan_fs.rs:130-166 | the outer loop, in any directory order, fails exactly when some entry has a blank path, and otherwise refreshes every directory |
| OwnedScanFs.RefreshEach | src/app/owned/owned_scan_fs.rs:135-164 | the directory loop keeps the refreshed, accumulated and changed state, or stops with the directories refreshed in part |
| OwnedScanFs.RefreshDir | src/app/owned/owned_scan_fs.rs:135-164 | one pass refreshes one directory in place |
| OwnedScanFs.RefreshedWalkedFile | src/app/owned/owned_scan_fs.rs:144-160 | refreshing the entry a walk built gives the entry a fresh walk builds: `rebuild_hd_flags` and a rescan agree |
| OwnedScanFs.WalkedFile | src/app/owned/owned_scan_fs.rs:477-493 | a walked entry keeps the path, time and size, is HD exactly when `is_path_hd` says so, and has a title hint |
| OwnedScanFs.StandardEnv | src/app/owned/owned_scan_fs.rs:477-494 | the walk's own entries keep the listed path, time and size |
| OwnedScanFs.WalkedFileKeys | src/app/owned/owned_scan_fs.rs:477-494 | a walked entry is owned under the key variants of its cleaned title and year |
| OwnedScanFs.SpawnScan | src/app/owned/owned_scan_fs.rs:199-260 | the scanning thread sends the messages and writes the files `SpawnedScan` describes |
| OwnedScanFs.SpawnedScanReports | src/app/owned/owned_scan_fs.rs:199-260 | every message but the last is a notice, the last is `Done` with exactly the dated keys, and the sidecars are written exactly when the manifest is |
| OwnedScanFs.SpawnedScanWrites | src/app/owned/owned_scan_fs.rs:237-253 | without a manifest write nothing else is written, and a written manifest is at the current version |
| OwnedScanFs.SpawnedScanKeys | src/app/owned/owned_scan_fs.rs:199-260 | of the corrected scan: with a manifest the scan itself wrote, the reported keys and HD sidecar are those of every video file under the existing roots |
| OwnedScanFs.PersistSidecar | src/app/owned/owned_scan_fs.rs:645-656 | the file holds each key on a line of its own, in some order; for keys that are trimmed, non-empty single lines it reads back as the same set |
| OwnedScanFs.SidecarRoundTrip | src/app/owned/owned_scan_fs.rs:645-679 | a sidecar written from such keys, in any order, loads as exactly that set |
| OwnedScanFs.OwnedManifest.Default | src/app/owned/owned_scan_fs.rs:29-35 | a new default manifest is at the current version and records no directory |
| OwnedLegacy.OwnedManifest.Default | src/app/owned.rs:29-34 | a new default manifest is at version 1 and records no directory |
| OwnedLegacy.OwnedManifest.NeedsUpgrade | src/app/owned.rs:123-135 | an upgrade is needed exactly when the version is below 1 or some file entry has a blank path or no size |
| OwnedLegacy.OwnedManifest.Get | src/app/owned.rs:119-121 | the stored snapshot of a recorded directory, and none for any other |
| OwnedLegacy.OwnedManifest.InsertSnapshot | src/app/owned.rs:115-117 | records or replaces one directory's snapshot and changes nothing else |
| OwnedLegacy.AnyStaleFile | src/app/owned.rs:128-132 | the inner loop finds a file entry with a blank path or no size exactly when there is one |
| OwnedLegacy.EntryKeys | src/app/owned.rs:548-570 | the stored key first, then the year-less key of the title hint exactly when there is a hint and its key differs |
| OwnedLegacy.AccumulateOwnedEntry | src/app/owned.rs:548-570 | the method updates the three sets as `Accumulated` describes |
| OwnedLegacy.AccumulatedEffect | src/app/owned.rs:548-570 | the stored key and the hint's year-less key are owned, HD for an HD file and dated with the file's time; nothing else is added |
| OwnedLegacy.AccumulateFilesEffect | src/app/owned.rs:548-570 | accumulating entries keeps what was owned, owns every stored key, marks every HD entry's key HD and keeps the sets consistent |
| OwnedLegacy.AccumulatedGrows | src/app/owned.rs:548-570 | one entry keeps what was owned, owns its stored key, marks it HD for an HD file and keeps the sets consistent |
| OwnedLegacy.AccumulateAll | src/app/owned.rs:207-209 | the loop accumulates each file entry in turn |
| OwnedLegacy.ReuseDirectory | src/app/owned.rs:198-215 | `reuse_directory` as written copies a stored directory and every stored directory below it, as `Reuse` describes |
| OwnedLegacy.ReuseKeeps | src/app/owned.rs:198-215 | reuse never drops a recorded directory or an owned key, and records the reused directory with its stored snapshot |
| OwnedLegacy.AsCurrent | src/app/owned.rs:230-283 | a version-1 entry read as a current one keeps its path, time and size |
| OwnedLegacy.AsCurrentDir | src/app/owned.rs:230-283 | a version-1 snapshot read as a current one keeps its time, subdirectories and entries in order |
| OwnedLegacy.SnapshotMatches | src/app/owned.rs:230-283 | a snapshot matches exactly when its subdirectories are distinct and are the listed ones, and its files match the listed video files |
| OwnedLegacy.MatchReadsOnlyStats | src/app/owned.rs:262-280 | matching reads only the stored files' paths, times and sizes |
| OwnedLegacy.FlagRowsExact | src/app/owned.rs:731-735 | each row is owned exactly when its own key is held and dated under that key; nothing else in the rows changes |
| OwnedLegacy.ExactFlaggedIdempotent | src/app/owned.rs:726-736 | flagging twice against the same keys is flagging once |
| OwnedLegacy.ApplyOwnedFlags | src/app/owned.rs:726-736 | without a key set the rows stay; otherwise every row is flagged by its own key, and the keys, dates, HD keys and scan flag are untouched |
| OwnedScanPlex.ClampU32 | src/app/owned/owned_scan_plex.rs:237-238 | a negative width or height becomes 0, one that fits 32 bits is kept, and a larger one keeps its low 32 bits |
| OwnedScanPlex.UpdatedAt | src/app/owned/owned_scan_plex.rs:239-243 | the entry's date is the first present of the part, media, film update and film added times, a negative one read as 0, and none only when all four are missing |
| OwnedScanPlex.NormalizedRoots | src/app/owned/owned_scan_plex.rs:164-168 | the normalised roots are exactly the configured roots that are not empty |
| OwnedScanPlex.CollectPlexOwnedEntries | src/app/owned/owned_scan_plex.rs:125-258 | the row loop with its set of seen film ids computes the collection `Collected` describes |
| OwnedScanPlex.RowsFailFrom | src/app/owned/owned_scan_plex.rs:207-222 | once a row fails to read, the loop's result is that failure whatever rows follow |
| OwnedScanPlex.CollectRowsFails | src/app/owned/owned_scan_plex.rs:207-222 | the loop fails exactly when some row fails to read, with the error of the first such row |
| OwnedScanPlex.FirstOfFilmLast | src/app/owned/owned_scan_plex.rs:224-226 | the last row is the first of its film exactly when its film id was not seen before |
| OwnedScanPlex.SummaryStep | src/app/owned/owned_scan_plex.rs:207-255 | one step of the loop keeps the entries exactly the kept rows' entries and the root flag exactly "some kept row lies under a root" |
| OwnedScanPlex.CollectRowsSummary | src/app/owned/owned_scan_plex.rs:207-257 | after all rows the entries and the root flag are as the summary states |
| OwnedScanPlex.CollectedEntries | src/app/owned/owned_scan_plex.rs:125-258 | on success every entry comes from the first row of its film with a title that is not blank, every such row gives an entry, no film has two entries, and the root flag says whether a kept row's file lies under a root |
| OwnedScanPlex.CollectedFails | src/app/owned/owned_scan_plex.rs:155-222 | collection fails exactly when the query cannot be prepared or run or some row cannot be read |
| OwnedScanPlex.KeptWidestIsHd | src/app/owned/owned_scan_plex.rs:224-226 | since rows come widest first, a film with some row at least 1280 wide is kept with an HD entry |
| OwnedScanPlex.IsHd | src/app/owned/owned_scan_plex.rs:299-301 | HD exactly when the width is at least 1280 or the height at least 720, a missing dimension counting as too small (KeptWidestIsHd) |
| OwnedScanPlex.PathMatchesAnyRoot | src/app/owned/owned_scan_plex.rs:295-297 | a path matches when some configured root's components begin it; it decides the root flag of the collection (SummaryStep, CollectedEntries) |
| OwnedScanPlex.InsertKnownKey | src/app/owned/owned_scan_plex.rs:269-276 | inserting a key already inserted for the entry changes nothing |
| OwnedScanPlex.InsertEach | src/app/owned/owned_scan_plex.rs:268-287 | the `insert_key` loop records each key once and leaves the sets as inserting all the keys would |
| OwnedScanPlex.AccumulateOwnedEntry | src/app/owned/owned_scan_plex.rs:260-293 | the method inserts the variants of the title and then of the original title, as `Accumulated` describes |
| OwnedScanPlex.OwnedUnder | src/app/owned/owned_scan_plex.rs:279-292 | the keys an entry is owned under are exactly the key variants of its non-blank title and original title |
| OwnedScanPlex.AccumulatedEffect | src/app/owned/owned_scan_plex.rs:260-293 | after one entry its keys are owned, HD when the entry is HD, and dated with the entry's date; nothing else is added |
| OwnedScanPlex.EntryOwned | src/app/owned/owned_scan_plex.rs:279-286 | a non-blank title has at least one key variant, and every kept entry is owned under each of them |
| OwnedScanPlex.AccumulateEntriesEffect | src/app/owned/owned_scan_plex.rs:260-293 | accumulating entries owns exactly their keys, marks HD exactly the keys of HD entries, and keeps the sets consistent |
| OwnedScanPlex.AccumulateAll | src/app/owned/owned_scan_plex.rs:82-84 | the loop over the collected entries accumulates each in turn |
| OwnedScanPlex.SpawnScan | src/app/owned/owned_scan_plex.rs:19-109 | the scan thread sends the messages and writes the sidecars `PlexScanned` describes |
| OwnedScanPlex.NoteIsDistinct | src/app/owned/owned_scan_plex.rs:71-101 | the unmatched-roots note differs from every other text the scan sends |
| OwnedScanPlex.OpeningShape | src/app/owned/owned_scan_plex.rs:20-69 | before the database is open the scan sends only information, starting with the loading message |
| OwnedScanPlex.ReportedShape | src/app/owned/owned_scan_plex.rs:71-101 | a successful scan adds only information, then the keys with their dates last, hands owned and HD keys to the sidecars, and adds the note exactly when roots are set and none matched |
| OwnedScanPlex.FailedShape | src/app/owned/owned_scan_plex.rs:102-104 | a failing scan ends with its error after what was sent before |
| OwnedScanPlex.ScannedReported | src/app/owned/owned_scan_plex.rs:19-109 | a scan whose query succeeds ends as a successful report of the accumulated keys |
| OwnedScanPlex.PlexScanShape | src/app/owned/owned_scan_plex.rs:19-109 | keys are sent exactly when the database opened and the query succeeded, and the note exactly when roots are configured and no kept row lies under them |
| OwnedScanPlex.ScannedFailed | src/app/owned/owned_scan_plex.rs:19-109 | a scan whose database did not open or whose query failed ends with an error |
| OwnedScanPlex.PlexScanKeys | src/app/owned/owned_scan_plex.rs:71-101 | a successful scan reports the keys of the collected entries, each dated; the HD sidecar holds the HD entries' keys, all owned |

## Left out

- Threads and channels. Every `spawn_*` thread is a function from its inputs to the messages it sends, except for the file-system scan's per-directory notices (see `OwnedScanFs.SpawnScan` below). Every poll consumes a given sequence of messages. The worker pool of the prefetch is not modelled. A start returns the work items it would send.
- File, database and network I/O. The following are inputs or function parameters:
  - directory listings, file metadata and file contents;
  - SQLite rows;
  - HTTP downloads and the ffprobe subprocess.
- A write is modelled as the value or text it would store. Failed writes of the sidecars and of the ffprobe cache file are only logged by the source, so they are not modelled.
- Foreign libraries are function parameters: `md5`, URL decoding, chrono's date parsing and formatting, serde's JSON parsing, and the image crate's decode and resize.
- Unicode case mapping and `is_alphanumeric` are modelled on ASCII letters and digits. `char::is_whitespace` is modelled exactly.
- `HashMap`/`HashSet` iteration order. The model visits collections in sequence order. A result that depends on the order, such as the date kept for a key that two files own, is the one for that order.
- In-place slice sorts (`sort_by`, `sort_by_key`) are stable sorts on values in `Sorting`. Aliasing of the sorted vector is not modelled.
- `DayRange::max_bucket` is not among the modelled files. The filter takes the bucket limit as a parameter.
- Floats and timing are not modelled:
  - the loading progress fraction;
  - the poster width, detail width and dim strength preferences;
  - the `{:.1}` formatting of rating averages, which are modelled as reals;
  - status and heartbeat timing;
  - the clock of the prefs save debounce: the elapsed time is a parameter;
  - the 60-second wait for the Plex database, which is an input saying how the wait ended.
- The UI, rendering, texture upload, the detail panel, `prewarm` and `try_lazy_upload` are not modelled.
- Directory recursion in `OwnedScanFs.Reuse` and `OwnedLegacy.Reuse` carries a fuel bound, the depth of stored subdirectories. The current scan passes the number of stored directories, which is at least the depth of any chain of distinct stored directories. `OwnedLegacy.ReuseDirectory` takes the bound as an argument.
- The version-1 `owned.rs` is modelled for the following:
  - `needs_upgrade`, `get` and `insert_snapshot`;
  - `reuse_directory` and `snapshot_matches`;
  - `accumulate_owned_entry` and `apply_owned_flags`.
- The rest of the version-1 `owned.rs` is not modelled:
  - `load`, `save` and `save_if_changed`;
  - `rebuild_hd_flags` and `scan_directory`;
  - `spawn_owned_scan`, `start_owned_scan`, `start_owned_hd_refresh` and `poll_owned_scan`.
- These repeat the current module's logic. The version-1 `clean_owned_title` and `extract_year_from_filename` are the same code as in `owned_scan_fs.rs` and are modelled once, in `OwnedNames`. The version-1 tests at `src/app/owned.rs:578-619` are the same examples as `OwnedNames.CommentedStemKey`, `OwnedNames.UndatedStem` and `OwnedNames.BracketedStemKey`.
- `start_owned_scan` of `owned/mod.rs` only chooses which thread to spawn and is not modelled. Its guards are those of `Owned.StartOwnedHdRefresh`.
- Utils.CompactAlnum: states only that the compacted name is no longer than its input. It does not state which characters are kept.
- Utils.FormatDayLabel: states only that the label starts with the weekday. The date part is built from `CivilFromDays`, `MonthShortName` and `OrdinalSuffix`, whose contracts are stated there.
- Utils.InferBroadcastHd: states the needle and no-channel cases. The channel-name rule is stated by `Utils.InferFromHdSuffix`.
- Utils.ParseDims and Utils.ParseProbeOutput: state bounds only. Their round trips are stated by `Utils.ParseDimsRoundTrip` and `Utils.ParseProbeOutputRoundTrip`.
- OwnedScanFs.ScanDirectory: models the corrected scan, which scans each subdirectory of an unchanged directory in its own right. The source reuses the whole stored subtree, so a video added below an unchanged directory is missed (see Findings).
- OwnedScanFs.ScanListedSubdirs: models the corrected scan (see `OwnedScanFs.ScanDirectory`).
- OwnedScanFs.SpawnedScan: models the corrected scan (see `OwnedScanFs.ScanDirectory`), so on `OwnedScanFs.ReuseSubtreeMissesNewFile`'s tree it reports the new video where the source does not.
- OwnedScanFs.SpawnScan: models the corrected scan (see `OwnedScanFs.ScanDirectory`). It also does not send the per-directory notices "Stage 3/4 - Owned scan: reusing snapshot for {dir}" and "... walking {dir}" (owned_scan_fs.rs:425-428, 441-444), so the owned message log does not hold them.
- OwnedScanFs.SpawnedScanKeys: a property of the corrected scan; the source's scan can miss files below an unchanged directory.
- OwnedScanFs.WalkedFile: cleans titles with the character walk of `OwnedNames.CleanOwnedTitle` (see below).
- OwnedNames.CutYear: walks characters where the source walks bytes. The source panics on "Voilà (2005)" (no `Done` is sent and the channel disconnects), and turns "Foo (2005)\u00A0Bar" into "Foo Bar" where the model gives "FooBar" (see Findings).
- OwnedNames.CleanedTitle: built on `OwnedNames.CutYear`, with the same difference.
- OwnedNames.CleanOwnedTitle: built on `OwnedNames.CutYear`, with the same difference.
- Utils.HumanizedChannel: uses the intended HD spacing, so "Sky UHD" stays "Sky UHD" where the source gives "Sky U HD" (see Findings). `Prep.ItemToRow` names every row's channel through it.
- Utils.HumanizeChannel: computes `Utils.HumanizedChannel`, with the same difference.
- Utils.HayVerdict: counts "dv" only as a word of its own; the source matches it inside any word ("dvd", "adventures"). `Utils.HayVerdictAgrees` states where the two agree (see Findings).
- Utils.IsPathHd: built on `Utils.HayVerdict`, with the same difference.
- Prep.ItemToRow: a negative start time gives no airing time. In the source, `UNIX_EPOCH + Duration::from_secs(ts as u64)` overflows for a negative `ts` and panics. The row also drops the summary, audience rating, critic rating and channel title fields, which only the detail panel shows.
- Utils.CivilFromDays: computes the year as an unbounded integer. The source's `y as i32` truncation only matters for day numbers far outside any real timestamp.
- Cache.PosterDir.FindAnyByKey: does not run the first-call prune that the source runs inside `poster_cache_dir` (src/app/cache.rs:43-63), which `find_any_by_key` calls at src/app/cache.rs:141; that prune is `Cache.PosterDir.Open`.
- Cache.NormalizeDir: states only that no forward slash is left and that the path does not grow. The exact result for slash-only paths is stated by `Cache.NormalizeForwardSlashes`.

## Findings

| source | as written | input that shows it | evidently intended | confidence | as-written member | corrected member |
|---|---|---|---|---|---|---|
| src/app/utils.rs:215-223 | a label ending in "HD" gets a space before "HD" unless it ends in " HD". The check fails for " UHD", so an already spaced " UHD" is split | "Sky UHD" becomes "Sky U HD" | a label already ending in " UHD" is left alone | high (not executed) | Utils.SpaceBeforeSpacedUhdAsWritten | Utils.SpaceBeforeSpacedUhd |
| src/app/utils.rs:547-566 | the needle "dv" is matched anywhere in the lower-cased stem and folder name, so it fires inside words | a file in a "dvd" or "adventures" folder whose ffprobe answer is 720x576 is reported HD | "dv" counts only as a whole word, and otherwise ffprobe decides | medium (not executed) | Utils.DvInsideWordAsWritten | Utils.DvInsideWordCorrected |
| src/app/owned/owned_scan_fs.rs:271-288 | a directory whose time and listing are unchanged is reused together with its whole stored subtree, without checking the subdirectories | the manifest records "/lib" with subdirectory "/lib/a" and no files. "/lib" is unchanged, and a video file was since added to "/lib/a". The scan owns nothing | reuse a directory's own files and scan each subdirectory, which reuses it only when it is itself unchanged | high (not executed) | OwnedScanFs.ReuseSubtreeMissesNewFile | OwnedScanFs.RescanFindsNewFile |
| src/app/owned/owned_scan_fs.rs:556-576 | the walks around the year step over bytes and read each byte as a character. A UTF-8 continuation byte 0xA0 reads as a no-break space | for "Voilà (2005)" the backward walk stops inside "à", and `replace_range` is handed a range that is not on a character boundary, so it panics | the walks step over characters | high (not executed) | TitleBytes.AccentBeforeYearPanics | OwnedNames.CleanBracketYear |
