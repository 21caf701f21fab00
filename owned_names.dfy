// The filename helpers of src/app/owned/owned_scan_fs.rs (shared word for
// word by the version-1 scanner in src/app/owned.rs): which files count as
// videos, the year in a file stem, the title left once the year and a
// short trailing comment are cut off, and the year field of an owned key.

module OwnedNames {
  import opened Text
  import opened Paths
  import opened Utils
  import opened App

  // ---------------------------------------------------------------------
  // is_video_ext

  const VIDEO_EXTS: seq<string> := ["mkv", "mp4", "avi", "mov", "mpg", "mpeg", "m4v", "wmv"]

  /** `is_video_ext`: the lower-cased extension (empty when there is none)
      is one of the eight video extensions. */
  predicate IsVideoExt(p: string)
  {
    ToAsciiLower(match Extension(p) case Some(e) => e case None => "") in VIDEO_EXTS
  }

  /** A file without an extension is never a video, and the test ignores
      ASCII case. */
  lemma IsVideoExtNeedsExtension(p: string)
    ensures IsVideoExt(p) ==> Extension(p).Some? && 3 <= |Extension(p).value| <= 4
    ensures Extension(p).Some? && ToAsciiLower(Extension(p).value) == "mkv" ==> IsVideoExt(p)
  {
  }

  // ---------------------------------------------------------------------
  // owned_year_from_key

  /** `owned_year_from_key`: the second ':'-separated field of a key when it
      parses as a positive `i32`. */
  function OwnedYearFromKey(key: string): (r: Option<int>)
    ensures r.Some? ==> 0 < r.value <= I32_MAX
    ensures r.Some? ==> |Split(key, ':')| >= 2 && ParseI32(Split(key, ':')[1]) == r
  {
    var parts := Split(key, ':');
    if |parts| < 2 then None
    else
      match ParseI32(parts[1])
      case Some(y) => if y > 0 then Some(y) else None
      case None => None
  }

  /** A key made with a positive year gives that year back. */
  lemma OwnedYearFromYearKey(title: string, y: int, md5Hex: string -> string)
    requires 0 < y <= I32_MAX
    ensures OwnedYearFromKey(MakeOwnedKey(title, Some(y), md5Hex)) == Some(y)
  {
    OwnedKeyFieldsYear(title, Some(y), md5Hex);
    ParseIntToString(y, I32_MIN, I32_MAX);
  }

  /** A key made without any year (`title:0:hash`) has no year to give. */
  lemma OwnedYearFromDigestKey(title: string, md5Hex: string -> string)
    requires KeyYear(title, None).None? && ':' !in md5Hex(NormalizedTitle(title))
    ensures OwnedYearFromKey(MakeOwnedKey(title, None, md5Hex)) == None
  {
    OwnedKeyFieldsDigest(title, None, md5Hex);
    assert Split(MakeOwnedKey(title, None, md5Hex), ':')[1] == "0";
    assert "0"[0] == '0';
  }

  // ---------------------------------------------------------------------
  // extract_year_from_filename

  predicate IsOpener(c: char) { c == '(' || c == '[' || c == '{' }
  predicate IsCloser(c: char) { c == ')' || c == ']' || c == '}' }

  /** A bracketed four-digit token closes at `j`: an opening bracket, four
      ASCII digits and a closing bracket. */
  predicate BracketYearAt(s: string, j: int)
  {
    5 <= j < |s| && IsCloser(s[j]) && IsOpener(s[j - 5]) && AllDigits(s[j - 4..j])
  }

  /** The value of the last bracketed four-digit token. */
  function LastBracketYear(s: string): (r: Option<int>)
    ensures r.Some? ==> 0 <= r.value <= 9999
  {
    if s == [] then None
    else if BracketYearAt(s, |s| - 1) then
      DigitsBound4(s[|s| - 5..|s| - 1]);
      Some(DigitsValue(s[|s| - 5..|s| - 1]))
    else LastBracketYear(s[..|s| - 1])
  }

  lemma DigitsBound4(w: string)
    requires |w| == 4 && AllDigits(w)
    ensures DigitsValue(w) <= 9999
  {
    var w3 := w[..3];
    var w2 := w3[..2];
    var w1 := w2[..1];
    assert w1[..0] == [];
    assert DigitsValue(w1) <= 9;
    assert DigitsValue(w2) == DigitsValue(w1) * 10 + DigitValue(w2[1]) <= 99;
    assert DigitsValue(w3) == DigitsValue(w2) * 10 + DigitValue(w3[2]) <= 999;
    assert DigitsValue(w) == DigitsValue(w3) * 10 + DigitValue(w[3]);
  }

  /** `extract_year_from_filename`: the last bracketed four-digit token,
      else the first plausible year anywhere in the stem. */
  function ExtractedYear(stem: string): (r: Option<int>)
    ensures r.Some? ==> 0 <= r.value <= 9999
  {
    var b := LastBracketYear(stem);
    if b.Some? then b else YearInStr(stem)
  }

  /** The state of the character loop: the last year found, the text seen
      since the last opening bracket, and whether a bracket is open. */
  datatype BracketScan = BracketScan(candidate: Option<int>, buffer: string, inBracket: bool)

  /** One character of the loop. A four-character all-digit buffer always
      parses as an `i32`, and its byte length is its character count. */
  function BracketStep(st: BracketScan, ch: char): BracketScan
  {
    if IsOpener(ch) then BracketScan(st.candidate, [], true)
    else if IsCloser(ch) then
      var found := st.inBracket && |st.buffer| == 4 && AllDigits(st.buffer);
      BracketScan(if found then Some(DigitsValue(st.buffer)) else st.candidate, [], false)
    else if st.inBracket then st.(buffer := st.buffer + [ch])
    else st
  }

  function BracketScanOf(s: string): BracketScan
  {
    if s == [] then BracketScan(None, [], false)
    else BracketStep(BracketScanOf(s[..|s| - 1]), s[|s| - 1])
  }

  predicate IsBracket(c: char) { IsOpener(c) || IsCloser(c) }

  /** Where the last bracket of `s` is. */
  function LastBracketIdx(s: string): (r: Option<nat>)
    ensures r.Some? ==> r.value < |s| && IsBracket(s[r.value])
    ensures r.Some? ==> forall j :: r.value < j < |s| ==> !IsBracket(s[j])
    ensures r.None? ==> forall j :: 0 <= j < |s| ==> !IsBracket(s[j])
  {
    if s == [] then None
    else if IsBracket(s[|s| - 1]) then Some(|s| - 1)
    else LastBracketIdx(s[..|s| - 1])
  }

  /** What the loop state means: a bracket is open exactly when the last
      bracket seen opens, the buffer is the text after it, and the
      candidate is the last bracketed year so far. */
  ghost predicate ScanMeans(s: string, st: BracketScan)
  {
    && st.candidate == LastBracketYear(s)
    && (st.inBracket <==> LastBracketIdx(s).Some? && IsOpener(s[LastBracketIdx(s).value]))
    && (st.inBracket ==> st.buffer == s[LastBracketIdx(s).value + 1..])
    && (!st.inBracket ==> st.buffer == [])
  }

  lemma {:induction false} BracketScanMeans(s: string)
    ensures ScanMeans(s, BracketScanOf(s))
  {
    if s != [] {
      var p := s[..|s| - 1];
      var ch := s[|s| - 1];
      BracketScanMeans(p);
      BracketStepMeans(p, ch, BracketScanOf(p));
      assert s == p + [ch];
    }
  }

  lemma BracketStepMeans(p: string, ch: char, st: BracketScan)
    requires ScanMeans(p, st)
    ensures ScanMeans(p + [ch], BracketStep(st, ch))
  {
    var s := p + [ch];
    assert s[..|s| - 1] == p;
    if IsCloser(ch) {
      CloserStepMeans(p, ch, st);
    } else if IsOpener(ch) {
      assert LastBracketIdx(s) == Some(|p|);
    } else {
      assert LastBracketIdx(s) == LastBracketIdx(p);
      if st.inBracket {
        var k := LastBracketIdx(p).value;
        assert s[k + 1..] == p[k + 1..] + [ch];
      }
    }
  }

  /** A closing bracket records the buffer exactly when it ends a
      bracketed year. */
  lemma CloserStepMeans(p: string, ch: char, st: BracketScan)
    requires ScanMeans(p, st) && IsCloser(ch)
    ensures BracketStep(st, ch).candidate == LastBracketYear(p + [ch])
  {
    var s := p + [ch];
    var n := |s|;
    assert s[..n - 1] == p;
    var found := st.inBracket && |st.buffer| == 4 && AllDigits(st.buffer);
    if found {
      var k := LastBracketIdx(p).value;
      assert st.buffer == p[k + 1..];
      assert k == n - 6;
      assert s[n - 5..n - 1] == st.buffer;
      assert BracketYearAt(s, n - 1);
    }
  }

  /** `extract_year_from_filename`, the loop over the stem's characters. */
  method ExtractYearFromFilename(stem: string) returns (year: Option<int>)
    ensures year == ExtractedYear(stem)
    ensures year.Some? ==> 0 <= year.value <= 9999
  {
    var candidate: Option<int> := None;
    var buffer: string := [];
    var inBracket := false;
    for i := 0 to |stem|
      invariant BracketScan(candidate, buffer, inBracket) == BracketScanOf(stem[..i])
    {
      var ch := stem[i];
      if IsOpener(ch) {
        buffer := [];
        inBracket := true;
      } else if IsCloser(ch) {
        if inBracket && |buffer| == 4 && AllDigits(buffer) {
          candidate := Some(DigitsValue(buffer));
        }
        inBracket := false;
        buffer := [];
      } else if inBracket {
        buffer := buffer + [ch];
      }
      assert stem[..i + 1][..i] == stem[..i];
    }
    assert stem[..|stem|] == stem;
    BracketScanMeans(stem);
    if candidate.Some? {
      year := candidate;
    } else {
      year := FindYearInStr(stem);
    }
  }

  /** A suffix without closing brackets does not change the last bracketed
      year. */
  lemma {:induction false} LastBracketYearSuffix(a: string, b: string)
    requires forall j :: 0 <= j < |b| ==> !IsCloser(b[j])
    ensures LastBracketYear(a + b) == LastBracketYear(a)
    decreases |b|
  {
    if b != [] {
      var s := a + b;
      assert s[..|s| - 1] == a + b[..|b| - 1];
      assert s[|s| - 1] == b[|b| - 1];
      LastBracketYearSuffix(a, b[..|b| - 1]);
    } else {
      assert a + b == a;
    }
  }

  /** A year in brackets, followed by text without closing brackets, is
      the year found. */
  lemma BracketedYearFound(t: string, y: nat, rest: string)
    requires 1000 <= y <= 9999
    requires forall j :: 0 <= j < |rest| ==> !IsCloser(rest[j])
    ensures ExtractedYear(t + " (" + NatToString(y) + ")" + rest) == Some(y)
  {
    var ys := NatToString(y);
    NatToStringWidth4(y);
    var a := t + " (" + ys + ")";
    var n := |a|;
    assert a[n - 5..n - 1] == ys;
    assert a[n - 6] == '(';
    assert BracketYearAt(a, n - 1);
    LastBracketYearSuffix(a, rest);
  }

  lemma NatToStringWidth4(y: nat)
    requires 1000 <= y <= 9999
    ensures |NatToString(y)| == 4
  {
    assert NatToString(y) == NatToString(y / 10) + [DigitChar(y % 10)];
    assert NatToString(y / 10) == NatToString(y / 100) + [DigitChar(y / 10 % 10)];
    assert NatToString(y / 100) == NatToString(y / 1000) + [DigitChar(y / 100 % 10)];
  }

  /** Without closing brackets and without digits there is no year. */
  lemma NoYearWithoutDigits(s: string)
    requires forall j :: 0 <= j < |s| ==> !IsCloser(s[j]) && !IsAsciiDigit(s[j])
    ensures ExtractedYear(s) == None
  {
    LastBracketYearSuffix([], s);
    assert [] + s == s;
    assert forall i :: !YearAt(s, i);
  }

  // ---------------------------------------------------------------------
  // clean_owned_title

  predicate SkipBefore(c: char) { IsOpener(c) || IsWhitespace(c) }
  predicate SkipAfter(c: char) { IsCloser(c) || IsWhitespace(c) }

  /** The start of the run of opening brackets and whitespace that ends
      at `i`. */
  function BackOver(t: string, i: nat): (k: nat)
    requires i <= |t|
    ensures k <= i
    ensures forall j :: k <= j < i ==> SkipBefore(t[j])
    ensures k > 0 ==> !SkipBefore(t[k - 1])
  {
    if i > 0 && SkipBefore(t[i - 1]) then BackOver(t, i - 1) else i
  }

  /** The end of the run of closing brackets and whitespace that starts
      at `j`. */
  function ForwardOver(t: string, j: nat): (k: nat)
    requires j <= |t|
    ensures j <= k <= |t|
    ensures forall m :: j <= m < k ==> SkipAfter(t[m])
    ensures k < |t| ==> !SkipAfter(t[k])
    decreases |t| - j
  {
    if j < |t| && SkipAfter(t[j]) then ForwardOver(t, j + 1) else j
  }

  /** The span cut for a year: its first occurrence widened over the
      brackets and whitespace on either side. */
  function YearSpan(t: string, ys: string): (r: Option<(nat, nat)>)
    ensures r.Some? ==> r.value.0 <= r.value.1 <= |t|
  {
    match Find(t, ys)
    case None => None
    case Some(pos) => Some((BackOver(t, pos), ForwardOver(t, pos + |ys|)))
  }

  /** The title with the year's span removed. */
  function DropYear(t: string, year: Option<int>): string
  {
    if year.None? then t
    else
      match YearSpan(t, IntToString(year.value))
      case None => t
      case Some((start, end)) => if start < end then t[..start] + t[end..] else t
  }

  /** Every run of whitespace replaced by a single space. */
  function CollapseWs(t: string): string
  {
    if t == [] then []
    else
      var c := CollapseWs(t[..|t| - 1]);
      if IsWhitespace(t[|t| - 1]) then
        if c != [] && c[|c| - 1] == ' ' then c else c + [' ']
      else c + [t[|t| - 1]]
  }

  /** Whitespace only as single plain spaces. */
  ghost predicate Collapsed(s: string)
  {
    && (forall i :: 0 <= i < |s| && IsWhitespace(s[i]) ==> s[i] == ' ')
    && (forall i, j :: 0 <= i < j < |s| && j == i + 1 && s[i] == ' ' ==> s[j] != ' ')
  }

  /** The markers of a trailing comment, tried in this order. */
  const MARKERS: seq<string> := [" - ", " \U{2013} ", " \U{2014} ", " -- ", "- "]

  /** The title cut at the last occurrence of the first marker whose
      trimmed remainder is at most 24 bytes long. */
  function CutComment(t: string, markers: seq<string>): string
  {
    if markers == [] then t
    else
      match MarkerCut(t, markers[0])
      case Some(c) => c
      case None => CutComment(t, markers[1..])
  }

  /** The cut one marker makes: the text before its last occurrence, when
      what follows it, trimmed, is at most 24 bytes long. */
  function MarkerCut(t: string, m: string): Option<string>
  {
    match RFind(t, m)
    case Some(idx) => if Utf8Len(Trim(t[idx + |m|..])) <= 24 then Some(t[..idx]) else None
    case None => None
  }

  predicate TrailJunk(c: char) { IsWhitespace(c) || c == '-' || c == '_' || c == '.' || c == ',' }

  /** The title without its trailing whitespace and `-_.,`. */
  function DropTrailing(t: string): (r: string)
    ensures |r| <= |t| && r == t[..|r|]
    ensures r != [] ==> !TrailJunk(r[|r| - 1])
  {
    if t != [] && TrailJunk(t[|t| - 1]) then DropTrailing(t[..|t| - 1]) else t
  }

  /** `clean_owned_title`: the trimmed stem without the year and its
      brackets, with whitespace collapsed, a short trailing comment cut and
      trailing punctuation dropped; the trimmed stem itself when nothing is
      left. */
  function CleanedTitle(stem: string, year: Option<int>): string
  {
    var t := Trim(CollapseWs(DropYear(Trim(stem), year)));
    var u := DropTrailing(CutComment(t, MARKERS));
    if u == [] then Trim(stem) else u
  }

  /** The title is empty only when the stem is blank. */
  lemma CleanedTitleEmpty(stem: string, year: Option<int>)
    ensures CleanedTitle(stem, year) == [] <==> IsBlank(stem)
  {
    if Trim(stem) == [] {
      var ts := Trim(stem);
      if year.Some? {
        assert Find(ts, IntToString(year.value)).None?;
      }
      assert DropYear(ts, year) == [];
      assert CollapseWs([]) == [];
      assert Trim([]) == [];
      assert CutComment([], MARKERS) == [] by { CutCommentEmpty(MARKERS); }
    }
  }

  lemma {:induction false} CutCommentEmpty(markers: seq<string>)
    ensures CutComment([], markers) == []
  {
    if markers != [] {
      CutCommentEmpty(markers[1..]);
    }
  }

  /** `clean_owned_title`, step by step with the source's loops. */
  method CleanOwnedTitle(stem: string, year: Option<int>) returns (title: string)
    ensures title == CleanedTitle(stem, year)
    ensures title == [] <==> IsBlank(stem)
  {
    title := Trim(stem);
    ghost var trimmed := title;
    if year.Some? {
      title := CutYear(title, IntToString(year.value));
    }
    assert title == DropYear(trimmed, year);
    title := CollapseWhitespace(title);
    title := Trim(title);
    ghost var t := title;
    title := CutTrailingComment(title);
    title := PopTrailing(title);
    assert title == DropTrailing(CutComment(t, MARKERS));
    if title == [] {
      title := Trim(stem);
    }
    CleanedTitleEmpty(stem, year);
  }

  /** The year's span, found by walking back over opening brackets and
      whitespace and forward over closing brackets and whitespace. */
  method CutYear(t: string, ys: string) returns (title: string)
    ensures YearSpan(t, ys).None? ==> title == t
    ensures YearSpan(t, ys).Some? ==>
              var (start, end) := YearSpan(t, ys).value;
              title == if start < end then t[..start] + t[end..] else t
  {
    title := t;
    var found := Find(title, ys);
    if found.Some? {
      var pos := found.value;
      var start: nat := pos;
      while start > 0 && SkipBefore(title[start - 1])
        invariant start <= pos
        invariant BackOver(title, start) == BackOver(title, pos)
      {
        start := start - 1;
      }
      var end := pos + |ys|;
      while end < |title| && SkipAfter(title[end])
        invariant pos + |ys| <= end <= |title|
        invariant ForwardOver(title, end) == ForwardOver(title, pos + |ys|)
        decreases |title| - end
      {
        end := end + 1;
      }
      if start < end && end <= |title| {
        title := title[..start] + title[end..];
      }
    }
  }

  /** The loop that replaces each whitespace run by one space. */
  method CollapseWhitespace(title: string) returns (collapsed: string)
    ensures collapsed == CollapseWs(title)
  {
    collapsed := [];
    var prevSpace := false;
    for i := 0 to |title|
      invariant collapsed == CollapseWs(title[..i])
      invariant prevSpace <==> collapsed != [] && collapsed[|collapsed| - 1] == ' '
    {
      var ch := title[i];
      assert title[..i + 1][..i] == title[..i];
      if IsWhitespace(ch) {
        if !prevSpace {
          collapsed := collapsed + [' '];
          prevSpace := true;
        }
      } else {
        collapsed := collapsed + [ch];
        prevSpace := false;
      }
    }
    assert title[..|title|] == title;
  }

  /** The loop over the comment markers, stopping at the first cut. */
  method CutTrailingComment(t: string) returns (title: string)
    ensures title == CutComment(t, MARKERS)
  {
    title := t;
    var i := 0;
    while i < |MARKERS|
      invariant i <= |MARKERS|
      invariant title == t
      invariant CutComment(t, MARKERS[i..]) == CutComment(t, MARKERS)
    {
      var marker := MARKERS[i];
      assert MARKERS[i..][0] == marker && MARKERS[i..][1..] == MARKERS[i + 1..];
      var idx := RFind(title, marker);
      if idx.Some? {
        var remainder := Trim(title[idx.value + |marker|..]);
        if Utf8Len(remainder) <= 24 {
          title := title[..idx.value];
          return;
        }
      }
      i := i + 1;
    }
  }

  /** The loop that pops trailing whitespace and `-_.,`. */
  method PopTrailing(t: string) returns (title: string)
    ensures title == DropTrailing(t)
  {
    title := t;
    while title != [] && TrailJunk(title[|title| - 1])
      invariant DropTrailing(title) == DropTrailing(t)
    {
      title := title[..|title| - 1];
    }
  }

  // ------------------------------------------- what the cleaning keeps

  predicate IsDash(c: char) { c == '-' || c == '\U{2013}' || c == '\U{2014}' }

  /** A title the cleaning leaves alone: no surrounding whitespace, single
      spaces, no brackets or dashes, no trailing punctuation. */
  ghost predicate PlainTitle(t: string)
  {
    && t != [] && !IsWhitespace(t[0]) && !TrailJunk(t[|t| - 1]) && Collapsed(t)
    && forall i :: 0 <= i < |t| ==> !IsBracket(t[i]) && !IsDash(t[i])
  }

  /** A comment short enough to be cut: at most 24 bytes, no surrounding
      whitespace, single spaces and no dashes. */
  ghost predicate ShortComment(x: string)
  {
    && x != [] && !IsWhitespace(x[0]) && !IsWhitespace(x[|x| - 1]) && Collapsed(x) && Utf8Len(x) <= 24
    && forall i :: 0 <= i < |x| ==> !IsDash(x[i])
  }

  lemma TrimKeeps(s: string)
    requires s != [] && !IsWhitespace(s[0]) && !IsWhitespace(s[|s| - 1])
    ensures Trim(s) == s
  {
    assert LeadingWs(s) == 0;
    assert TrimStart(s) == s;
    assert TrailingWs(s) == 0;
  }

  lemma {:induction false} CollapseKeeps(s: string)
    requires Collapsed(s)
    ensures CollapseWs(s) == s
  {
    if s != [] {
      var p := s[..|s| - 1];
      assert Collapsed(p) by {
        assert forall i :: 0 <= i < |p| ==> p[i] == s[i];
      }
      CollapseKeeps(p);
      if IsWhitespace(s[|s| - 1]) && p != [] {
        assert s[|s| - 2] == p[|p| - 1];
      }
      assert s == p + [s[|s| - 1]];
    }
  }

  lemma CollapsedConcat(a: string, b: string)
    requires Collapsed(a) && Collapsed(b)
    requires a != [] && b != [] ==> a[|a| - 1] != ' ' || b[0] != ' '
    ensures Collapsed(a + b)
  {
    var s := a + b;
    assert forall i :: 0 <= i < |a| ==> s[i] == a[i];
    assert forall i :: |a| <= i < |s| ==> s[i] == b[i - |a|];
  }

  lemma FindIs(s: string, p: string, i: nat)
    requires OccursAt(s, p, i)
    requires forall j :: 0 <= j < i ==> !OccursAt(s, p, j)
    ensures Find(s, p) == Some(i)
  {
  }

  /** The only dash of `u` is at `d`. */
  predicate OnlyDashAt(u: string, d: nat)
  {
    d < |u| && IsDash(u[d]) && forall i :: 0 <= i < |u| && IsDash(u[i]) ==> i == d
  }

  /** A marker with a dash at `k` can only occur with that dash on the
      title's only dash. */
  lemma MarkerAtDash(u: string, m: string, k: nat, d: nat)
    requires OnlyDashAt(u, d) && k < |m| && IsDash(m[k])
    ensures forall j :: OccursAt(u, m, j) ==> j == d - k
  {
    forall j | OccursAt(u, m, j) ensures j == d - k {
      assert u[j..j + |m|][k] == m[k];
    }
  }

  lemma RFindAtDash(u: string, m: string, k: nat, d: nat)
    requires OnlyDashAt(u, d) && k < |m| && IsDash(m[k]) && k <= d && OccursAt(u, m, d - k)
    ensures RFind(u, m) == Some(d - k)
  {
    MarkerAtDash(u, m, k, d);
  }

  lemma RFindNoneAtDash(u: string, m: string, k: nat, d: nat)
    requires OnlyDashAt(u, d) && k < |m| && IsDash(m[k]) && (k <= d ==> !OccursAt(u, m, d - k))
    ensures RFind(u, m) == None
  {
    MarkerAtDash(u, m, k, d);
  }

  lemma {:induction false} CutCommentNone(t: string, markers: seq<string>)
    requires forall i :: 0 <= i < |markers| ==> RFind(t, markers[i]) == None
    ensures CutComment(t, markers) == t
    decreases |markers|
  {
    if markers != [] {
      assert RFind(t, markers[0]) == None;
      CutCommentNone(t, markers[1..]);
    }
  }

  predicate NoDash(t: string) { forall i :: 0 <= i < |t| ==> !IsDash(t[i]) }

  /** A marker holding a dash does not occur in a text without dashes. */
  lemma NoMarkerWithoutDash(t: string, m: string, k: nat)
    requires NoDash(t) && k < |m| && IsDash(m[k])
    ensures RFind(t, m) == None
  {
    forall j ensures !OccursAt(t, m, j) {
      if 0 <= j && j + |m| <= |t| {
        assert t[j..j + |m|][k] == t[j + k];
      }
    }
  }

  /** A title without dashes holds no comment marker. */
  lemma CutCommentPlain(t: string)
    requires NoDash(t)
    ensures CutComment(t, MARKERS) == t
  {
    NoMarkerWithoutDash(t, " - ", 1);
    NoMarkerWithoutDash(t, " \U{2013} ", 1);
    NoMarkerWithoutDash(t, " \U{2014} ", 1);
    NoMarkerWithoutDash(t, " -- ", 1);
    NoMarkerWithoutDash(t, "- ", 0);
    CutCommentNone(t, MARKERS);
  }

  /** `p` occurs nowhere in `t`. */
  ghost predicate Absent(t: string, p: string) { forall j :: !OccursAt(t, p, j) }

  /** The first occurrence of an all-digit year in a text whose first `n`
      characters do not hold it, followed by " (" and the year, is right
      after the " (". */
  lemma YearFirstAt(s: string, n: nat, ys: string)
    requires ys != [] && AllDigits(ys) && n + 2 + |ys| <= |s|
    requires s[n] == ' ' && s[n + 1] == '(' && s[n + 2..n + 2 + |ys|] == ys
    requires Absent(s[..n], ys)
    ensures Find(s, ys) == Some(n + 2)
  {
    forall j | 0 <= j < n + 2 ensures !OccursAt(s, ys, j) {
      if j + |ys| <= n {
        assert s[..n][j..j + |ys|] == s[j..j + |ys|];
        assert !OccursAt(s[..n], ys, j);
      } else if j + |ys| <= |s| {
        var k := if j <= n then n - j else 0;
        assert s[j..j + |ys|][k] == s[j + k];
        assert IsAsciiDigit(ys[k]);
      }
    }
    assert OccursAt(s, ys, n + 2);
    FindIs(s, ys, n + 2);
  }

  /** The year's span from `n` to `e` is what `DropYear` cuts. */
  lemma DropYearSpan(s: string, y: int, ys: string, n: nat, e: nat, r: string)
    requires ys == IntToString(y) && YearSpan(s, ys) == Some((n, e)) && n < e && s[..n] + s[e..] == r
    ensures DropYear(s, Some(y)) == r
  {
  }

  /** Walking back from the year over " (" stops at the end of a title
      that does not end in whitespace or an opening bracket. */
  lemma BackOverPlain(t: string, s: string)
    requires t != [] && !SkipBefore(t[|t| - 1])
    requires |s| >= |t| + 2 && s[..|t|] == t && s[|t|] == ' ' && s[|t| + 1] == '('
    ensures BackOver(s, |t| + 2) == |t|
  {
    assert s[|t| - 1] == t[|t| - 1];
  }

  /** What a plain title offers the cleaning: its end is no bracket,
      whitespace or dash. */
  lemma PlainEnds(t: string)
    requires PlainTitle(t)
    ensures !IsWhitespace(t[0]) && !SkipBefore(t[|t| - 1]) && t[|t| - 1] != ' ' && NoDash(t)
  {
    assert !IsBracket(t[|t| - 1]);
  }

  /** A plain title is its own cleaned form once the year is gone. */
  lemma PlainKept(t: string)
    requires PlainTitle(t)
    ensures DropTrailing(CutComment(Trim(CollapseWs(t)), MARKERS)) == t
  {
    CollapseKeeps(t);
    TrimKeeps(t);
    PlainEnds(t);
    CutCommentPlain(t);
  }

  /** Walking forward from after the year over ") " stops at the dash. */
  lemma ForwardOverCloseDash(s: string, j: nat)
    requires j + 2 < |s| && s[j] == ')' && s[j + 1] == ' ' && s[j + 2] == '-'
    ensures ForwardOver(s, j) == j + 2
  {
    assert ForwardOver(s, j + 2) == j + 2;
    assert ForwardOver(s, j + 1) == j + 2;
  }

  /** The characters around the year in title, bracketed year and comment. */
  lemma CloseDashAt(t: string, ys: string, x: string)
    ensures (t + " (" + ys + ") - " + x)[|t| + 2 + |ys|] == ')'
    ensures (t + " (" + ys + ") - " + x)[|t| + 3 + |ys|] == ' '
    ensures (t + " (" + ys + ") - " + x)[|t| + 4 + |ys|] == '-'
    ensures (t + " (" + ys + ") - " + x)[..|t|] == t
    ensures (t + " (" + ys + ") - " + x)[|t|] == ' '
    ensures (t + " (" + ys + ") - " + x)[|t| + 1] == '('
    ensures (t + " (" + ys + ") - " + x)[|t| + 2..|t| + 2 + |ys|] == ys
    ensures (t + " (" + ys + ") - " + x)[|t| + 4 + |ys|..] == "- " + x
  {
  }

  /** The year's span in title, bracketed year and " - " comment runs from
      the end of the title to the dash. */
  lemma YearSpanBeforeComment(t: string, ys: string, x: string)
    requires ys != [] && AllDigits(ys) && t != [] && !SkipBefore(t[|t| - 1])
    requires Absent(t, ys)
    ensures YearSpan(t + " (" + ys + ") - " + x, ys) == Some((|t|, |t| + 4 + |ys|))
  {
    var s := t + " (" + ys + ") - " + x;
    CloseDashAt(t, ys, x);
    YearFirstAt(s, |t|, ys);
    BackOverPlain(t, s);
    ForwardOverCloseDash(s, |t| + 2 + |ys|);
  }

  /** The characters around the year in title and bracketed year. */
  lemma CloseAt(t: string, ys: string)
    ensures (t + " (" + ys + ")")[|t| + 2 + |ys|] == ')'
    ensures (t + " (" + ys + ")")[..|t|] == t
    ensures (t + " (" + ys + ")")[|t|] == ' '
    ensures (t + " (" + ys + ")")[|t| + 1] == '('
    ensures (t + " (" + ys + ")")[|t| + 2..|t| + 2 + |ys|] == ys
  {
  }

  /** The year's span in title and bracketed year runs from the end of the
      title to the end. */
  lemma YearSpanAtEnd(t: string, ys: string)
    requires ys != [] && AllDigits(ys) && t != [] && !SkipBefore(t[|t| - 1])
    requires Absent(t, ys)
    ensures YearSpan(t + " (" + ys + ")", ys) == Some((|t|, |t| + 3 + |ys|))
  {
    var s := t + " (" + ys + ")";
    CloseAt(t, ys);
    YearFirstAt(s, |t|, ys);
    BackOverPlain(t, s);
    assert ForwardOver(s, |s|) == |s|;
  }

  /** The text of a year that is not negative is all digits. */
  lemma YearTextDigits(y: int, ys: string)
    requires y >= 0 && ys == IntToString(y)
    ensures ys != [] && AllDigits(ys)
  {
  }

  /** A plain title followed by a bracketed year (`ys` is the year's
      text): the year and its brackets are cut and the title is left. */
  lemma CleanBracketYear(t: string, y: nat, ys: string)
    requires ys == IntToString(y) && PlainTitle(t) && Absent(t, ys)
    ensures CleanedTitle(t + " (" + ys + ")", Some(y)) == t
  {
    PlainEnds(t);
    PlainKept(t);
    CleanBracketYearOf(t, y, ys);
  }

  lemma CleanBracketYearOf(t: string, y: nat, ys: string)
    requires ys == IntToString(y) && t != [] && !IsWhitespace(t[0]) && !SkipBefore(t[|t| - 1])
    requires Absent(t, ys)
    requires DropTrailing(CutComment(Trim(CollapseWs(t)), MARKERS)) == t
    ensures CleanedTitle(t + " (" + ys + ")", Some(y)) == t
  {
    BracketYearTrimmed(t, ys);
    DropBracketYear(t, y, ys);
    CleanedStages(t + " (" + ys + ")", Some(y), t, t);
  }

  /** Title and bracketed year are their own trimmed form. */
  lemma BracketYearTrimmed(t: string, ys: string)
    requires t != [] && !IsWhitespace(t[0])
    ensures Trim(t + " (" + ys + ")") == t + " (" + ys + ")"
  {
    EndsAt(t, ys);
    assert |t + " (" + ys + ")"| == |t| + 3 + |ys|;
    TrimKeeps(t + " (" + ys + ")");
  }

  /** Cutting the year out of title and bracketed year leaves the title. */
  lemma DropBracketYear(t: string, y: nat, ys: string)
    requires ys == IntToString(y) && t != [] && !SkipBefore(t[|t| - 1]) && Absent(t, ys)
    ensures DropYear(t + " (" + ys + ")", Some(y)) == t
  {
    YearTextDigits(y, ys);
    YearSpanAtEnd(t, ys);
    SplicedAtEnd(t, ys);
    DropYearSpan(t + " (" + ys + ")", y, ys, |t|, |t| + 3 + |ys|, t);
  }

  /** Cutting from the title's end to the end of title and bracketed year
      leaves the title. */
  lemma SplicedAtEnd(t: string, ys: string)
    ensures (t + " (" + ys + ")")[..|t|] + (t + " (" + ys + ")")[|t| + 3 + |ys|..] == t
  {
    var s := t + " (" + ys + ")";
    assert s[..|t|] == t && s[|t| + 3 + |ys|..] == [];
  }

  /** Title and bracketed year start with the title and end in ")". */
  lemma EndsAt(t: string, ys: string)
    requires t != []
    ensures (t + " (" + ys + ")")[0] == t[0]
    ensures (t + " (" + ys + ")")[|t| + 2 + |ys|] == ')'
  {
  }

  /** The stages of the cleaning, composed. */
  lemma CleanedStages(stem: string, year: Option<int>, v: string, c: string)
    requires Trim(stem) == stem && DropYear(stem, year) == v
    requires DropTrailing(CutComment(Trim(CollapseWs(v)), MARKERS)) == c && c != []
    ensures CleanedTitle(stem, year) == c
  {
  }

  /** Cutting the year out of title, bracketed year and " - " comment
      leaves the title, "- " and the comment. */
  lemma DropYearBeforeComment(t: string, y: nat, ys: string, x: string)
    requires ys == IntToString(y) && t != [] && !SkipBefore(t[|t| - 1]) && Absent(t, ys)
    ensures DropYear(t + " (" + ys + ") - " + x, Some(y)) == t + "- " + x
  {
    YearTextDigits(y, ys);
    YearSpanBeforeComment(t, ys, x);
    SplicedBeforeComment(t, ys, x);
    DropYearSpan(t + " (" + ys + ") - " + x, y, ys, |t|, |t| + 4 + |ys|, t + "- " + x);
  }

  /** Cutting from the title's end to the dash leaves title, "- " and
      comment. */
  lemma SplicedBeforeComment(t: string, ys: string, x: string)
    ensures (t + " (" + ys + ") - " + x)[..|t|] + (t + " (" + ys + ") - " + x)[|t| + 4 + |ys|..]
            == t + "- " + x
  {
    var s := t + " (" + ys + ") - " + x;
    CloseDashAt(t, ys, x);
    assert s[..|t|] + s[|t| + 4 + |ys|..] == t + ("- " + x);
    assert t + ("- " + x) == t + "- " + x;
  }

  /** Title, bracketed year and comment are their own trimmed form. */
  lemma CommentedTrimmed(t: string, ys: string, x: string)
    requires t != [] && !IsWhitespace(t[0]) && x != [] && !IsWhitespace(x[|x| - 1])
    ensures Trim(t + " (" + ys + ") - " + x) == t + " (" + ys + ") - " + x
  {
    var s := t + " (" + ys + ") - " + x;
    assert s[0] == t[0] && s[|s| - 1] == x[|x| - 1];
    TrimKeeps(s);
  }

  /** A plain title followed by a bracketed year (`ys` is the year's
      text) and a short " - " comment: both are cut and the title is
      left. */
  lemma CleanYearAndComment(t: string, y: nat, ys: string, x: string)
    requires ys == IntToString(y) && PlainTitle(t) && ShortComment(x) && Absent(t, ys)
    ensures CleanedTitle(t + " (" + ys + ") - " + x, Some(y)) == t
  {
    PlainEnds(t);
    CommentedTrimmed(t, ys, x);
    DropYearBeforeComment(t, y, ys, x);
    CommentAfterDash(t, x);
    PlainTrailing(t);
    CleanedStages(t + " (" + ys + ") - " + x, Some(y), t + "- " + x, t);
  }

  lemma PlainTrailing(t: string)
    requires PlainTitle(t)
    ensures DropTrailing(t) == t
  {
  }

  /** Title, `mid` and comment make a text with single spaces only. */
  lemma CollapsedJoin(t: string, mid: string, x: string)
    requires PlainTitle(t) && ShortComment(x) && Collapsed(mid) && mid != []
    ensures CollapseWs(t + mid + x) == t + mid + x
    ensures Trim(t + mid + x) == t + mid + x
  {
    CollapsedConcat(t, mid);
    CollapsedConcat(t + mid, x);
    CollapseKeeps(t + mid + x);
    var u := t + mid + x;
    assert u[0] == t[0] && u[|u| - 1] == x[|x| - 1];
    TrimKeeps(u);
  }

  /** The only dash of title, `mid` and comment is `mid`'s. */
  lemma OnlyDashJoin(t: string, mid: string, x: string, k: nat)
    requires NoDash(t) && NoDash(x) && k < |mid| && IsDash(mid[k])
    requires forall i :: 0 <= i < |mid| && i != k ==> !IsDash(mid[i])
    ensures OnlyDashAt(t + mid + x, |t| + k)
  {
    var u := t + mid + x;
    assert forall i :: 0 <= i < |u| && IsDash(u[i]) ==> i == |t| + k;
  }

  /** The pieces of title, `mid` and comment, read back from the join. */
  lemma JoinParts(t: string, mid: string, x: string)
    ensures (t + mid + x)[..|t|] == t
    ensures (t + mid + x)[|t| + |mid|..] == x
    ensures (t + mid + x)[|t|..|t| + |mid|] == mid
  {
  }

  /** What is left of the stem once the year is cut: the title, "- " and
      the comment; the comment is cut at the "- " marker. */
  lemma CommentAfterDash(t: string, x: string)
    requires PlainTitle(t) && ShortComment(x)
    ensures CutComment(Trim(CollapseWs(t + "- " + x)), MARKERS) == t
  {
    assert Collapsed("- ");
    CollapsedJoin(t, "- ", x);
    PlainEnds(t);
    ShortEnds(x);
    CutDashComment(t, x);
    CutAfterCollapse(t + "- " + x, t);
  }

  /** What a short comment offers the cleaning: no dashes, and it is its
      own trimmed form. */
  lemma ShortEnds(x: string)
    requires ShortComment(x)
    ensures NoDash(x) && Utf8Len(Trim(x)) <= 24
  {
    TrimKeeps(x);
  }

  /** The comment after the only dash, a "- " after the title, is cut. */
  lemma CutDashComment(t: string, x: string)
    requires NoDash(t) && NoDash(x) && t != [] && t[|t| - 1] != ' ' && Utf8Len(Trim(x)) <= 24
    ensures CutComment(t + "- " + x, MARKERS) == t
  {
    DashMarkerFound(t, x);
    JoinParts(t, "- ", x);
    CutAtFifth(t + "- " + x, |t|);
  }

  /** Collapsing and trimming a text they leave alone changes no cut. */
  lemma CutAfterCollapse(u: string, c: string)
    requires CollapseWs(u) == u && Trim(u) == u && CutComment(u, MARKERS) == c
    ensures CutComment(Trim(CollapseWs(u)), MARKERS) == c
  {
  }

  /** In title, "- " and comment, only the "- " marker occurs. */
  lemma DashMarkerFound(t: string, x: string)
    requires NoDash(t) && NoDash(x) && t != [] && t[|t| - 1] != ' '
    ensures var u := t + "- " + x;
      && RFind(u, " - ") == None && RFind(u, " \U{2013} ") == None
      && RFind(u, " \U{2014} ") == None && RFind(u, " -- ") == None
      && RFind(u, "- ") == Some(|t|)
  {
    var u := t + "- " + x;
    OnlyDashJoin(t, "- ", x, 0);
    JoinParts(t, "- ", x);
    assert u[|t| - 1] == t[|t| - 1];
    NoSpacedMarker(u, |t|, " - ");
    NoSpacedMarker(u, |t|, " \U{2013} ");
    NoSpacedMarker(u, |t|, " \U{2014} ");
    NoSpacedMarker(u, |t|, " -- ");
    RFindAtDash(u, "- ", 0, |t|);
  }

  /** In title, " - " and comment, the " - " marker is found after the
      title. */
  lemma SpacedMarkerFound(t: string, x: string)
    requires NoDash(t) && NoDash(x)
    ensures RFind(t + " - " + x, " - ") == Some(|t|)
  {
    var u := t + " - " + x;
    OnlyDashJoin(t, " - ", x, 1);
    JoinParts(t, " - ", x);
    RFindAtDash(u, " - ", 1, |t| + 1);
  }

  /** A marker " <dash>..." cannot occur when the only dash follows a
      non-space. */
  lemma NoSpacedMarker(u: string, d: nat, m: string)
    requires OnlyDashAt(u, d) && d >= 1 && u[d - 1] != ' '
    requires |m| >= 2 && m[0] == ' ' && IsDash(m[1])
    ensures RFind(u, m) == None
  {
    RFindNoneAtDash(u, m, 1, d);
  }

  /** The cut made by the first marker when it is found with a short
      remainder. */
  lemma CutCommentFirst(t: string, markers: seq<string>, idx: nat)
    requires markers != [] && RFind(t, markers[0]) == Some(idx)
    requires Utf8Len(Trim(t[idx + |markers[0]|..])) <= 24
    ensures CutComment(t, markers) == t[..idx]
  {
    var m := markers[0];
    var rest := t[idx + |m|..];
    assert Utf8Len(Trim(rest)) <= 24;
    MarkerCutAt(t, m, idx);
    CutByFirst(t, markers, t[..idx]);
  }

  lemma MarkerCutAt(t: string, m: string, idx: nat)
    requires RFind(t, m) == Some(idx) && Utf8Len(Trim(t[idx + |m|..])) <= 24
    ensures MarkerCut(t, m) == Some(t[..idx])
  {
    var r := RFind(t, m);
    assert r.value == idx;
    var rest := t[idx + |m|..];
    assert MarkerCut(t, m) == if Utf8Len(Trim(rest)) <= 24 then Some(t[..idx]) else None;
  }

  lemma CutByFirst(t: string, markers: seq<string>, c: string)
    requires markers != [] && MarkerCut(t, markers[0]) == Some(c)
    ensures CutComment(t, markers) == c
  {
  }

  /** Markers that do not occur are passed over. */
  lemma CutCommentSkip(t: string, markers: seq<string>)
    requires markers != [] && RFind(t, markers[0]) == None
    ensures CutComment(t, markers) == CutComment(t, markers[1..])
  {
  }

  lemma CutAtFifth(u: string, idx: nat)
    requires RFind(u, " - ") == None && RFind(u, " \U{2013} ") == None
    requires RFind(u, " \U{2014} ") == None && RFind(u, " -- ") == None
    requires RFind(u, "- ") == Some(idx) && Utf8Len(Trim(u[idx + 2..])) <= 24
    ensures CutComment(u, MARKERS) == u[..idx]
  {
    var m1 := [" \U{2013} ", " \U{2014} ", " -- ", "- "];
    var m2 := [" \U{2014} ", " -- ", "- "];
    var m3 := [" -- ", "- "];
    var m4 := ["- "];
    assert MARKERS[0] == " - " && MARKERS[1..] == m1;
    assert m1[0] == " \U{2013} " && m1[1..] == m2;
    assert m2[0] == " \U{2014} " && m2[1..] == m3;
    assert m3[0] == " -- " && m3[1..] == m4;
    assert m4[0] == "- ";
    CutCommentFirst(u, m4, idx);
    CutCommentSkip(u, m3);
    CutCommentSkip(u, m2);
    CutCommentSkip(u, m1);
    CutCommentSkip(u, MARKERS);
  }

  /** A plain title followed by a short " - " comment and no year: the
      comment is cut and the title is left. */
  lemma CleanComment(t: string, x: string)
    requires PlainTitle(t) && ShortComment(x)
    ensures CleanedTitle(t + " - " + x, None) == t
  {
    assert Collapsed(" - ");
    CollapsedJoin(t, " - ", x);
    PlainEnds(t);
    ShortEnds(x);
    PlainTrailing(t);
    CommentAfterSpacedDash(t, x);
    CleanedFromCut(t + " - " + x, t);
  }

  /** Title, " - " and comment, collapsed and trimmed, are cut at the
      " - ". */
  lemma CommentAfterSpacedDash(t: string, x: string)
    requires NoDash(t) && NoDash(x) && Utf8Len(Trim(x)) <= 24
    requires CollapseWs(t + " - " + x) == t + " - " + x && Trim(t + " - " + x) == t + " - " + x
    ensures CutComment(Trim(CollapseWs(t + " - " + x)), MARKERS) == t
  {
    CutSpacedComment(t, x);
    CutAfterCollapse(t + " - " + x, t);
  }

  /** The stages of the cleaning without a year, composed. */
  lemma CleanedFromCut(u: string, t: string)
    requires Trim(u) == u && CutComment(Trim(CollapseWs(u)), MARKERS) == t
    requires t != [] && DropTrailing(t) == t
    ensures CleanedTitle(u, None) == t
  {
    CleanedStages(u, None, u, t);
  }

  /** The comment after the only dash, inside a " - " after the title, is
      cut. */
  lemma CutSpacedComment(t: string, x: string)
    requires NoDash(t) && NoDash(x) && Utf8Len(Trim(x)) <= 24
    ensures CutComment(t + " - " + x, MARKERS) == t
  {
    var u := t + " - " + x;
    SpacedMarkerFound(t, x);
    JoinParts(t, " - ", x);
    assert MARKERS[0] == " - ";
    CutCommentFirst(u, MARKERS, |t|);
  }

  // ------------------------------------- the file names of the examples

  /** No closing bracket in `s`. */
  predicate NoCloser(s: string) { forall j :: 0 <= j < |s| ==> !IsCloser(s[j]) }

  /** The year in brackets before a " - " comment without closing
      brackets is the one extracted. */
  lemma YearBeforeComment(t: string, y: nat, ys: string, x: string)
    requires 1000 <= y <= 9999 && ys == IntToString(y) && NoCloser(x)
    ensures ExtractedYear(t + " (" + ys + ") - " + x) == Some(y)
  {
    var rest := " - " + x;
    assert forall j :: 0 <= j < |rest| ==> !IsCloser(rest[j]) by {
      assert forall j :: 3 <= j < |rest| ==> rest[j] == x[j - 3];
    }
    BracketedYearFound(t, y, rest);
    assert t + " (" + ys + ")" + rest == t + " (" + ys + ") - " + x;
  }

  /** A title, its year in brackets and a short comment, as in
      "Some Film (2000) - TVHD": the year is found, the title is left, and
      the key made from them is the key of the title and year. */
  lemma CommentedStemKey(t: string, y: nat, ys: string, x: string, md5Hex: string -> string)
    requires 1000 <= y <= 9999 && ys == IntToString(y)
    requires PlainTitle(t) && ShortComment(x) && Absent(t, ys) && NoCloser(x)
    ensures ExtractedYear(t + " (" + ys + ") - " + x) == Some(y)
    ensures CleanedTitle(t + " (" + ys + ") - " + x, Some(y)) == t
    ensures MakeOwnedKey(CleanedTitle(t + " (" + ys + ") - " + x, ExtractedYear(t + " (" + ys + ") - " + x)),
                         ExtractedYear(t + " (" + ys + ") - " + x), md5Hex)
            == MakeOwnedKey(t, Some(y), md5Hex)
  {
    YearBeforeComment(t, y, ys, x);
    CleanYearAndComment(t, y, ys, x);
  }

  /** A title in front of its year in brackets and nothing else, as in
      "2012 (2009)": the bracketed year is found even when the title holds
      digits, and the title is left. */
  lemma BracketedStemKey(t: string, y: nat, ys: string, md5Hex: string -> string)
    requires 1000 <= y <= 9999 && ys == IntToString(y) && PlainTitle(t) && Absent(t, ys)
    ensures ExtractedYear(t + " (" + ys + ")") == Some(y)
    ensures CleanedTitle(t + " (" + ys + ")", Some(y)) == t
    ensures MakeOwnedKey(CleanedTitle(t + " (" + ys + ")", ExtractedYear(t + " (" + ys + ")")),
                         ExtractedYear(t + " (" + ys + ")"), md5Hex)
            == MakeOwnedKey(t, Some(y), md5Hex)
  {
    BracketedYearFound(t, y, []);
    assert t + " (" + ys + ")" + [] == t + " (" + ys + ")";
    CleanBracketYear(t, y, ys);
  }

  /** No digits and no closing brackets. */
  predicate Undated(s: string) { forall j :: 0 <= j < |s| ==> !IsCloser(s[j]) && !IsAsciiDigit(s[j]) }

  /** A title and a short comment without any digits, as in
      "Example Movie - Director's Cut": no year is found and the comment
      is cut. */
  lemma UndatedStem(t: string, x: string)
    requires PlainTitle(t) && ShortComment(x) && Undated(t) && Undated(x)
    ensures ExtractedYear(t + " - " + x) == None
    ensures CleanedTitle(t + " - " + x, ExtractedYear(t + " - " + x)) == t
  {
    var s := t + " - " + x;
    assert Undated(s) by {
      assert forall j :: 0 <= j < |t| ==> s[j] == t[j];
      assert forall j :: |t| + 3 <= j < |s| ==> s[j] == x[j - |t| - 3];
    }
    NoYearWithoutDigits(s);
    CleanComment(t, x);
  }
}
