// Helpers of src/app/utils.rs: title normalisation, year detection, day
// buckets and civil dates, clock and label formatting, channel label
// cleaning, broadcast-HD inference, the ffprobe resolution cache and the
// filename HD heuristic.

module Utils {
  import opened Text
  import opened Paths

  // ---------------------------------------------------------------------
  // normalize_title

  predicate IsApostrophe(c: char) { c == '\'' || c == '\U{2019}' || c == '\U{2018}' || c == '`' }

  /** What one input character contributes before the whitespace split. */
  function NormalizeChar(c: char): string
  {
    if IsApostrophe(c) then ""
    else if c == '&' then " and "
    else if IsAsciiAlphanumeric(c) then [AsciiLowerChar(c)]
    else " "
  }

  predicate LowerAlnum(c: char) { IsAsciiLower(c) || IsAsciiDigit(c) }
  predicate LowerOrSpace(c: char) { LowerAlnum(c) || c == ' ' }

  /** The text the character loop pushes, before split/join. */
  function Expand(s: string): string
  {
    if s == [] then [] else Expand(s[..|s| - 1]) + NormalizeChar(s[|s| - 1])
  }

  lemma {:induction false} ExpandChars(s: string)
    ensures forall i :: 0 <= i < |Expand(s)| ==> LowerOrSpace(Expand(s)[i])
    decreases |s|
  {
    if s != [] {
      ExpandChars(s[..|s| - 1]);
      var e := Expand(s[..|s| - 1]);
      var c := s[|s| - 1];
      assert forall i :: 0 <= i < |NormalizeChar(c)| ==> LowerOrSpace(NormalizeChar(c)[i]);
      assert forall i :: |e| <= i < |Expand(s)| ==> Expand(s)[i] == NormalizeChar(c)[i - |e|];
    }
  }

  lemma ExpandOne(c: char)
    ensures Expand([c]) == NormalizeChar(c)
  {
    assert [c][..0] == [];
  }

  lemma {:induction false} ExpandConcat(a: string, b: string)
    ensures Expand(a + b) == Expand(a) + Expand(b)
    decreases |b|
  {
    if b != [] {
      assert (a + b)[..|a + b| - 1] == a + b[..|b| - 1];
      ExpandConcat(a, b[..|b| - 1]);
    } else {
      assert a + b == a;
    }
  }

  /** Lower-case letters, digits and spaces expand to themselves. */
  lemma {:induction false} ExpandFixed(s: string)
    requires forall i :: 0 <= i < |s| ==> LowerOrSpace(s[i])
    ensures Expand(s) == s
    decreases |s|
  {
    if s != [] {
      var init, c := s[..|s| - 1], s[|s| - 1];
      assert forall i :: 0 <= i < |init| ==> init[i] == s[i];
      ExpandFixed(init);
      NormalizeFixedChar(c);
      assert s == init + [c];
    }
  }

  lemma NormalizeFixedChar(c: char)
    requires LowerOrSpace(c)
    ensures NormalizeChar(c) == [c]
  {
  }

  predicate NoWhitespace(w: string) { forall i :: 0 <= i < |w| ==> !IsWhitespace(w[i]) }

  /** Length of the leading run of non-whitespace characters. */
  function WordLen(u: string): (n: nat)
    ensures n <= |u|
    ensures NoWhitespace(u[..n])
    ensures n < |u| ==> IsWhitespace(u[n])
  {
    if u == [] || IsWhitespace(u[0]) then 0
    else
      var m := WordLen(u[1..]);
      assert u[..m + 1] == [u[0]] + u[1..][..m];
      1 + m
  }

  /** `str::split_whitespace`: the maximal runs of non-whitespace. */
  function SplitWhitespace(t: string): (ws: seq<string>)
    ensures forall k :: 0 <= k < |ws| ==> ws[k] != [] && NoWhitespace(ws[k])
    decreases |t|
  {
    if t == [] then []
    else if IsWhitespace(t[0]) then SplitWhitespace(t[1..])
    else
      var n := WordLen(t);
      var rest := SplitWhitespace(t[n..]);
      var ws := [t[..n]] + rest;
      assert forall k :: 1 <= k < |ws| ==> ws[k] == rest[k - 1];
      ws
  }

  /** `normalize_title`: apostrophes dropped, `&` read as "and", letters
      and digits lower-cased, everything else a separator, and the words
      joined by single spaces. */
  function NormalizedTitle(s: string): string
  {
    Join(SplitWhitespace(Expand(s)), " ")
  }

  /** The shape every normalised title has: lower-case letters, digits and
      single separating spaces, none at either end. */
  predicate IsNormalized(r: string)
  {
    (forall i :: 0 <= i < |r| ==> LowerOrSpace(r[i]))
    && (r != [] ==> r[0] != ' ' && r[|r| - 1] != ' ')
    && NoDoubleSpace(r)
  }

  predicate NoDoubleSpace(s: string)
  {
    forall i :: 0 <= i < |s| - 1 ==> !(s[i] == ' ' && s[i + 1] == ' ')
  }

  predicate IsWord(w: string) { w != [] && forall i :: 0 <= i < |w| ==> LowerAlnum(w[i]) }

  predicate WordsOf(ws: seq<string>) { forall k :: 0 <= k < |ws| ==> IsWord(ws[k]) }

  lemma {:induction false} SplitWhitespaceWords(t: string)
    requires forall i :: 0 <= i < |t| ==> LowerOrSpace(t[i])
    ensures WordsOf(SplitWhitespace(t))
    decreases |t|
  {
    if t != [] {
      if IsWhitespace(t[0]) {
        SplitWhitespaceWords(t[1..]);
      } else {
        var n := WordLen(t);
        SplitWhitespaceWords(t[n..]);
        var w := t[..n];
        assert IsWord(w) by {
          forall i | 0 <= i < n ensures LowerAlnum(w[i]) {
            assert w[i] == t[i];
          }
        }
        var rest := SplitWhitespace(t[n..]);
        var ws := [w] + rest;
        assert forall k :: 1 <= k < |ws| ==> ws[k] == rest[k - 1];
      }
    }
  }

  lemma {:induction false} JoinWordsNormalized(ws: seq<string>)
    requires WordsOf(ws)
    ensures IsNormalized(Join(ws, " "))
    decreases |ws|
  {
    if |ws| >= 2 {
      JoinWordsNormalized(ws[1..]);
      var w := ws[0];
      var rest := Join(ws[1..], " ");
      var r := Join(ws, " ");
      assert r == w + " " + rest;
      assert IsWord(ws[1..][0]);
      JoinHeadPrefix(ws[1..]);
      assert rest != [] && rest[0] == ws[1][0];
      var n := |w|;
      forall i | 0 <= i < |r| ensures LowerOrSpace(r[i]) {
        if i < n { assert r[i] == w[i]; }
        else if i > n { assert r[i] == rest[i - n - 1]; }
      }
      forall i | 0 <= i < |r| - 1 ensures !(r[i] == ' ' && r[i + 1] == ' ') {
        if i < n { assert r[i] == w[i]; }
        else if i == n { assert r[i + 1] == rest[0]; }
        else { assert r[i] == rest[i - n - 1] && r[i + 1] == rest[i - n]; }
      }
      assert r[|r| - 1] == rest[|rest| - 1];
    } else if |ws| == 1 {
      assert Join(ws, " ") == ws[0];
    }
  }

  lemma JoinHeadPrefix(ws: seq<string>)
    requires |ws| >= 1
    ensures |ws[0]| <= |Join(ws, " ")| && Join(ws, " ")[..|ws[0]|] == ws[0]
  {
    if |ws| >= 2 {
      assert Join(ws, " ") == ws[0] + (" " + Join(ws[1..], " "));
    }
  }

  /** Every normalised title is lower-case alphanumeric words separated by
      single spaces, with no space at either end. */
  lemma NormalizedTitleShape(s: string)
    ensures IsNormalized(NormalizedTitle(s))
  {
    ExpandChars(s);
    SplitWhitespaceWords(Expand(s));
    JoinWordsNormalized(SplitWhitespace(Expand(s)));
  }

  /** The first word of a normalised text and what follows it. */
  lemma FirstWord(r: string)
    requires IsNormalized(r) && r != []
    ensures var n := WordLen(r);
            0 < n && (n < |r| ==> r[n] == ' ' && n + 1 < |r| && IsNormalized(r[n + 1..]) && r[n + 1..] != [])
  {
    var n := WordLen(r);
    OnlySpaceIsWhitespace(r[0]);
    if n < |r| {
      OnlySpaceIsWhitespace(r[n]);
      assert r[n] == ' ';
      assert n != |r| - 1;
      NormalizedSuffix(r, n + 1);
    }
  }

  /** Among lower-case letters, digits and space, only the space is whitespace. */
  lemma OnlySpaceIsWhitespace(c: char)
    requires LowerOrSpace(c)
    ensures IsWhitespace(c) <==> c == ' '
  {
  }

  /** What follows a space inside a normalised text is normalised. */
  lemma NormalizedSuffix(r: string, j: nat)
    requires IsNormalized(r) && 0 < j < |r| && r[j - 1] == ' '
    ensures IsNormalized(r[j..]) && r[j..] != []
  {
    var tail := r[j..];
    assert tail[0] == r[j] != ' ';
    forall i | 0 <= i < |tail| - 1 ensures !(tail[i] == ' ' && tail[i + 1] == ' ') {
      assert tail[i] == r[j + i] && tail[i + 1] == r[j + i + 1];
    }
    forall i | 0 <= i < |tail| ensures LowerOrSpace(tail[i]) {
      assert tail[i] == r[j + i];
    }
    assert tail[|tail| - 1] == r[|r| - 1];
  }

  /** Splitting a word, one space and a non-blank rest. */
  lemma SplitWhitespaceStep(r: string, n: nat)
    requires n == WordLen(r) && 0 < n < |r| - 1 && r[n] == ' ' && !IsWhitespace(r[n + 1])
    ensures SplitWhitespace(r) == [r[..n]] + SplitWhitespace(r[n + 1..])
  {
    assert r[n..][1..] == r[n + 1..];
  }

  lemma JoinCons(w: string, ws: seq<string>)
    requires ws != []
    ensures Join([w] + ws, " ") == w + " " + Join(ws, " ")
  {
    assert ([w] + ws)[1..] == ws;
  }

  lemma {:induction false} SplitJoinNormalized(r: string)
    requires IsNormalized(r)
    ensures Join(SplitWhitespace(r), " ") == r
    decreases |r|
  {
    if r != [] {
      FirstWord(r);
      var n := WordLen(r);
      if n < |r| {
        var tail := r[n + 1..];
        SplitJoinNormalized(tail);
        SplitWhitespaceStep(r, n);
        var ws := SplitWhitespace(tail);
        assert ws != [];
        JoinCons(r[..n], ws);
        assert r == r[..n] + " " + tail;
      } else {
        assert r[..n] == r;
        assert SplitWhitespace(r) == [r] + SplitWhitespace([]);
      }
    }
  }

  /** Normalising twice is normalising once. */
  lemma NormalizedTitleIdempotent(s: string)
    ensures NormalizedTitle(NormalizedTitle(s)) == NormalizedTitle(s)
  {
    var r := NormalizedTitle(s);
    NormalizedTitleShape(s);
    ExpandFixed(r);
    SplitJoinNormalized(r);
  }

  /** Titles with the same expansion normalise alike. */
  lemma SameExpansion(x: string, y: string)
    requires Expand(x) == Expand(y)
    ensures NormalizedTitle(x) == NormalizedTitle(y)
  {
  }

  /** An apostrophe anywhere in the title makes no difference. */
  lemma NormalizedTitleDropsApostrophe(a: string, c: char, b: string)
    requires IsApostrophe(c)
    ensures NormalizedTitle(a + [c] + b) == NormalizedTitle(a + b)
  {
    calc {
      Expand(a + [c] + b);
    == { ExpandConcat(a + [c], b); }
      Expand(a + [c]) + Expand(b);
    == { ExpandConcat(a, [c]); ExpandOne(c); assert Expand(a) + [] == Expand(a); }
      Expand(a) + Expand(b);
    == { ExpandConcat(a, b); }
      Expand(a + b);
    }
    SameExpansion(a + [c] + b, a + b);
  }

  /** `&` reads exactly like the word "and" between spaces. */
  lemma NormalizedTitleAmpersand(a: string, b: string)
    ensures NormalizedTitle(a + "&" + b) == NormalizedTitle(a + " and " + b)
  {
    calc {
      Expand(a + "&" + b);
    == { ExpandConcat(a + "&", b); }
      Expand(a + "&") + Expand(b);
    == { ExpandConcat(a, "&"); ExpandOne('&'); }
      Expand(a) + " and " + Expand(b);
    == { ExpandFixed(" and "); }
      Expand(a) + Expand(" and ") + Expand(b);
    == { ExpandConcat(a, " and "); }
      Expand(a + " and ") + Expand(b);
    == { ExpandConcat(a + " and ", b); }
      Expand(a + " and " + b);
    }
    SameExpansion(a + "&" + b, a + " and " + b);
  }

  lemma AndSpelled(t: string)
    ensures t + [' '] + "and" + [' '] == t + NormalizeChar('&')
  {
  }

  lemma ExpandStep(s: string, i: nat)
    requires i < |s|
    ensures Expand(s[..i + 1]) == Expand(s[..i]) + NormalizeChar(s[i])
  {
    assert s[..i + 1][..i] == s[..i];
  }

  /** The character loop of `normalize_title`, then split and join. */
  method NormalizeTitle(s: string) returns (r: string)
    ensures r == NormalizedTitle(s)
    ensures IsNormalized(r)
  {
    var normalized := "";
    var i := 0;
    while i < |s|
      invariant 0 <= i <= |s|
      invariant normalized == Expand(s[..i])
    {
      var ch := s[i];
      ExpandStep(s, i);
      if IsApostrophe(ch) {
      } else if ch == '&' {
        normalized := normalized + [' '];
        normalized := normalized + "and";
        normalized := normalized + [' '];
        AndSpelled(Expand(s[..i]));
      } else if IsAsciiAlphanumeric(ch) {
        normalized := normalized + [AsciiLowerChar(ch)];
      } else {
        normalized := normalized + [' '];
      }
      i := i + 1;
    }
    assert s[..|s|] == s;
    r := Join(SplitWhitespace(normalized), " ");
    NormalizedTitleShape(s);
  }

  // ---------------------------------------------------------------------
  // find_year_in_str

  /** Four ASCII digits at `i` whose value is a year 1900..=2099. */
  predicate YearAt(s: string, i: int)
  {
    0 <= i && i + 4 <= |s| && AllDigits(s[i..i + 4]) && 1900 <= DigitsValue(s[i..i + 4]) <= 2099
  }

  function FirstYearFrom(s: string, i: nat): (r: Option<nat>)
    ensures r.Some? ==> i <= r.value && YearAt(s, r.value)
    ensures r.Some? ==> forall j :: i <= j < r.value ==> !YearAt(s, j)
    ensures r.None? ==> forall j :: i <= j ==> !YearAt(s, j)
    decreases |s| - i
  {
    if i + 4 > |s| then None
    else if YearAt(s, i) then Some(i)
    else FirstYearFrom(s, i + 1)
  }

  /** `find_year_in_str`: the value of the first year window. */
  function YearInStr(s: string): (r: Option<int>)
    ensures r.Some? ==> 1900 <= r.value <= 2099
    ensures r.Some? <==> exists i :: YearAt(s, i)
  {
    match FirstYearFrom(s, 0)
    case None => None
    case Some(i) => Some(DigitsValue(s[i..i + 4]))
  }

  /** The index loop of `find_year_in_str`. */
  method FindYearInStr(s: string) returns (r: Option<int>)
    ensures r == YearInStr(s)
    ensures r.Some? ==> exists i :: YearAt(s, i) && r.value == DigitsValue(s[i..i + 4])
                                   && forall j :: 0 <= j < i ==> !YearAt(s, j)
  {
    var n := if |s| >= 3 then |s| - 3 else 0;
    var i := 0;
    while i < n
      invariant 0 <= i <= n
      invariant forall j :: 0 <= j < i ==> !YearAt(s, j)
    {
      if IsAsciiDigit(s[i]) && IsAsciiDigit(s[i + 1]) && IsAsciiDigit(s[i + 2]) && IsAsciiDigit(s[i + 3]) {
        var w := s[i..i + 4];
        assert AllDigits(w) by {
          forall k | 0 <= k < 4 ensures IsAsciiDigit(w[k]) { assert w[k] == s[i + k]; }
        }
        var val := DigitsValue(w);
        if 1900 <= val <= 2099 {
          assert YearAt(s, i);
          assert FirstYearFrom(s, 0) == Some(i);
          return Some(val);
        }
      } else {
        assert !AllDigits(s[i..i + 4]) by {
          assert s[i..i + 4][0] == s[i] && s[i..i + 4][1] == s[i + 1];
          assert s[i..i + 4][2] == s[i + 2] && s[i..i + 4][3] == s[i + 3];
        }
      }
      i := i + 1;
    }
    return None;
  }

  // ---------------------------------------------------------------------
  // Days, weekdays and civil dates

  const SECS_PER_DAY: nat := 86400

  /** `day_bucket` of a time `secs` seconds after the epoch. */
  function DayBucket(secs: nat): (b: nat)
    ensures b * SECS_PER_DAY <= secs < (b + 1) * SECS_PER_DAY
  {
    secs / SECS_PER_DAY
  }

  const WEEKDAY_NAMES: seq<string> := ["Sunday", "Monday", "Tuesday", "Wednesday", "Thursday", "Friday", "Saturday"]

  /** `weekday_full_from_bucket`: day 0 (1970-01-01) was a Thursday. */
  function WeekdayFullFromBucket(bucket: int): (r: string)
    ensures r in WEEKDAY_NAMES
  {
    WEEKDAY_NAMES[(bucket + 4) % 7]
  }

  lemma WeekdayOfEpoch()
    ensures WeekdayFullFromBucket(0) == "Thursday"
  {
  }

  /** The weekday repeats every seven days, before the epoch too. */
  lemma {:induction false} WeekdayPeriodic(bucket: int, k: int)
    ensures WeekdayFullFromBucket(bucket + 7 * k) == WeekdayFullFromBucket(bucket)
    decreases if k < 0 then -k else k
  {
    if k > 0 {
      WeekdayPeriodic(bucket, k - 1);
      ModSevenStep(bucket + 7 * (k - 1) + 4);
    } else if k < 0 {
      WeekdayPeriodic(bucket, k + 1);
      ModSevenStep(bucket + 7 * k + 4);
    }
  }

  lemma ModSevenStep(m: int)
    ensures (m + 7) % 7 == m % 7
  {
  }

  /** Rust's `/` on integers, which truncates toward zero. */
  function TDiv(a: int, b: int): (q: int)
    requires b > 0
    ensures a >= 0 ==> q == a / b
    ensures a < 0 ==> q == -((-a) / b)
  {
    if a >= 0 then a / b else -((-a) / b)
  }

  /** The day-of-year bound of `civil_from_days`, stated over the
      quotients so that it is linear. */
  lemma DayOfYearLower(doe: int, a: int, b: int, c: int, y: int, p: int, h: int)
    requires 0 <= doe <= 146096
    requires 1460 * a <= doe < 1460 * a + 1460
    requires 36524 * b <= doe < 36524 * b + 36524
    requires 146096 * c <= doe < 146096 * c + 146096
    requires 365 * y <= doe - a + b - c < 365 * y + 365
    requires 4 * p <= y < 4 * p + 4
    requires 100 * h <= y < 100 * h + 100
    ensures 0 <= doe - 365 * y - p + h
  {
    LeapsBelowQuadrennia(doe, a, b, c, y, p);
    CenturiesCovered(doe, a, b, c, y, h);
  }

  /** The leap days counted from the year, `yoe / 4`, never exceed the
      four-year cycles counted from the day, `doe / 1460`. */
  lemma LeapsBelowQuadrennia(doe: int, a: int, b: int, c: int, y: int, p: int)
    requires 0 <= doe <= 146096
    requires 1460 * a <= doe < 1460 * a + 1460
    requires 36524 * b <= doe < 36524 * b + 36524
    requires 146096 * c <= doe < 146096 * c + 146096
    requires 365 * y <= doe - a + b - c
    requires 4 * p <= y
    ensures p <= a
  {
    assert 0 <= c && c <= b && b <= a;
    assert 365 * y <= doe;
    assert 1460 * p <= doe;
  }

  /** The centuries counted from the year, `yoe / 100`, are at least the
      skipped leap days `doe / 36524 - doe / 146096`. */
  lemma CenturiesCovered(doe: int, a: int, b: int, c: int, y: int, h: int)
    requires 0 <= doe <= 146096
    requires 1460 * a <= doe < 1460 * a + 1460
    requires 36524 * b <= doe < 36524 * b + 36524
    requires 146096 * c <= doe < 146096 * c + 146096
    requires 365 * y <= doe - a + b - c < 365 * y + 365
    requires y < 100 * h + 100
    ensures b - c <= h
  {
    if c == 1 {
      assert doe == 146096 && a == 100 && b == 4;
      assert y == 399;
    } else {
      assert c == 0 && 0 <= b <= 3;
      assert doe - a >= 36499 * b;
      assert y >= 100 * b;
    }
  }

  lemma DayOfYearUpper(doe: int, a: int, b: int, c: int, y: int, p: int, h: int)
    requires 0 <= doe <= 146096
    requires 1460 * a <= doe < 1460 * a + 1460
    requires 36524 * b <= doe < 36524 * b + 36524
    requires 146096 * c <= doe < 146096 * c + 146096
    requires 365 * y <= doe - a + b - c < 365 * y + 365
    requires 4 * p <= y < 4 * p + 4
    requires 100 * h <= y < 100 * h + 100
    ensures 0 <= y <= 399 && doe - 365 * y - p + h <= 365
  {
    YearOfEraRange(doe, a, b, c, y);
  }

  lemma YearOfEraRange(doe: int, a: int, b: int, c: int, y: int)
    requires 0 <= doe <= 146096
    requires 1460 * a <= doe < 1460 * a + 1460
    requires 36524 * b <= doe < 36524 * b + 36524
    requires 146096 * c <= doe < 146096 * c + 146096
    requires 365 * y <= doe - a + b - c < 365 * y + 365
    ensures 0 <= y <= 399
  {
    assert 0 <= c <= 1 && c <= b <= 4 && b <= a;
    if c == 1 {
      assert doe == 146096 && a == 100 && b == 4;
    } else {
      assert b <= 3;
      assert doe - a + b - c < 146000;
    }
  }

  /** Day of era and year of era stay inside one 400-year era. */
  lemma YearOfEraBounds(doe: int)
    requires 0 <= doe <= 146096
    ensures var yoe := (doe - doe / 1460 + doe / 36524 - doe / 146096) / 365;
            0 <= yoe <= 399 && 0 <= doe - (365 * yoe + yoe / 4 - yoe / 100) <= 365
  {
    var a := doe / 1460;
    var b := doe / 36524;
    var c := doe / 146096;
    var y := (doe - a + b - c) / 365;
    DayOfYearLower(doe, a, b, c, y, y / 4, y / 100);
    DayOfYearUpper(doe, a, b, c, y, y / 4, y / 100);
  }

  lemma EraBounds(z: int)
    ensures var era := TDiv(if z >= 0 then z else z - 146096, 146097);
            0 <= z - era * 146097 <= 146096
  {
    var era := TDiv(if z >= 0 then z else z - 146096, 146097);
    if z < 0 {
      var q := (146096 - z) / 146097;
      assert 146097 * q <= 146096 - z < 146097 * q + 146097;
      assert era == -q;
    }
  }

  lemma MonthDayBounds(doy: int)
    requires 0 <= doy <= 365
    ensures var mp := (5 * doy + 2) / 153;
            0 <= mp <= 11 && 1 <= doy - (153 * mp + 2) / 5 + 1 <= 31
  {
    var mp := (5 * doy + 2) / 153;
    var q := (153 * mp + 2) / 5;
    assert 153 * mp <= 5 * doy + 2 < 153 * mp + 153;
    assert 5 * q <= 153 * mp + 2 < 5 * q + 5;
  }

  /** `civil_from_days`: the proleptic Gregorian (year, month, day) of a
      day number counted from 1970-01-01, with Rust's truncating `/`. */
  function CivilFromDays(z0: int): (r: (int, int, int))
    ensures 1 <= r.1 <= 12 && 1 <= r.2 <= 31
  {
    var z := z0 + 719468;
    var era := TDiv(if z >= 0 then z else z - 146096, 146097);
    var doe := z - era * 146097;
    EraBounds(z);
    YearOfEraBounds(doe);
    var yoe := TDiv(doe - TDiv(doe, 1460) + TDiv(doe, 36524) - TDiv(doe, 146096), 365);
    var y := yoe + era * 400;
    var doy := doe - (365 * yoe + TDiv(yoe, 4) - TDiv(yoe, 100));
    MonthDayBounds(doy);
    var mp := TDiv(5 * doy + 2, 153);
    var d := doy - TDiv(153 * mp + 2, 5) + 1;
    var m := mp + (if mp < 10 then 3 else -9);
    (y + (if m <= 2 then 1 else 0), m, d)
  }

  lemma CivilOfEpoch()
    ensures CivilFromDays(0) == (1970, 1, 1)
  {
    assert TDiv(719468, 146097) == 4;
    assert TDiv(135080, 1460) == 92 && TDiv(135080, 36524) == 3 && TDiv(135080, 146096) == 0;
    assert TDiv(134991, 365) == 369;
    assert TDiv(369, 4) == 92 && TDiv(369, 100) == 3;
    assert TDiv(5 * 306 + 2, 153) == 10;
    assert TDiv(153 * 10 + 2, 5) == 306;
  }

  const MONTH_NAMES: seq<string> := ["Jan", "Feb", "Mar", "Apr", "May", "Jun", "Jul", "Aug", "Sep", "Oct", "Nov", "Dec"]

  /** `month_short_name`: out-of-range months clamp to January/December. */
  function MonthShortName(m: nat): (r: string)
    ensures 1 <= m <= 12 ==> r == MONTH_NAMES[m - 1]
    ensures m == 0 ==> r == "Jan"
    ensures m > 12 ==> r == "Dec"
  {
    var i := if m == 0 then 0 else m - 1;
    MONTH_NAMES[if i < 11 then i else 11]
  }

  /** `ordinal_suffix` of a day of the month. */
  function OrdinalSuffix(d: nat): (r: string)
    ensures 11 <= d % 100 <= 13 ==> r == "th"
    ensures !(11 <= d % 100 <= 13) ==>
              r == (if d % 10 == 1 then "st" else if d % 10 == 2 then "nd" else if d % 10 == 3 then "rd" else "th")
  {
    if 11 <= d % 100 <= 13 then "th"
    else if d % 10 == 1 then "st"
    else if d % 10 == 2 then "nd"
    else if d % 10 == 3 then "rd"
    else "th"
  }

  /** `format_day_label`, e.g. "Thursday 1st Jan" for day 0. */
  function FormatDayLabel(bucket: int): (r: string)
    ensures StartsWith(r, WeekdayFullFromBucket(bucket) + " ")
  {
    var (_, m, d) := CivilFromDays(bucket);
    var prefix := WeekdayFullFromBucket(bucket) + " ";
    var r := prefix + NatToString(d) + OrdinalSuffix(d) + " " + MonthShortName(m);
    assert r[..|prefix|] == prefix;
    r
  }

  /** `{:02}` of a number below 100. */
  function Pad2(n: nat): (r: string)
    requires n < 100
    ensures |r| == 2 && AllDigits(r) && DigitsValue(r) == n
  {
    var r := [DigitChar(n / 10), DigitChar(n % 10)];
    assert r[..1] == [DigitChar(n / 10)];
    assert r[..1][..0] == [];
    assert DigitsValue(r[..1]) == n / 10;
    r
  }

  /** `hhmm_utc`: "HH:MM" of the UTC time of day. */
  function HhmmUtc(secs: nat): (r: string)
    ensures |r| == 5 && r[2] == ':' && AllDigits(r[..2]) && AllDigits(r[3..])
    ensures DigitsValue(r[..2]) < 24 && DigitsValue(r[3..]) < 60
    ensures var tod := secs % SECS_PER_DAY;
            DigitsValue(r[..2]) * 3600 + DigitsValue(r[3..]) * 60 <= tod < DigitsValue(r[..2]) * 3600 + DigitsValue(r[3..]) * 60 + 60
  {
    var hm := (secs % 86400 + 86400) % 86400;
    ModTwice(secs % 86400);
    var h := hm / 3600;
    var m := (hm % 3600) / 60;
    ClockSplit(hm, h, hm % 3600, m);
    var r := Pad2(h) + [':'] + Pad2(m);
    assert r[..2] == Pad2(h) && r[3..] == Pad2(m);
    r
  }

  lemma ModTwice(t: int)
    requires 0 <= t < 86400
    ensures (t + 86400) % 86400 == t
  {
  }

  /** Hours and minutes of a time of day, stated over the quotients. */
  lemma ClockSplit(tod: int, h: int, rest: int, m: int)
    requires 0 <= tod < 86400
    requires h == tod / 3600 && rest == tod % 3600 && m == rest / 60
    ensures 0 <= h < 24 && 0 <= m < 60
    ensures h * 3600 + m * 60 <= tod < h * 3600 + m * 60 + 60
  {
    assert tod == 3600 * h + rest && 0 <= rest < 3600;
    assert rest == 60 * m + rest % 60 && 0 <= rest % 60 < 60;
  }

  // ---------------------------------------------------------------------
  // host_from_url and parse_genres

  /** `host_from_url`: the first dot-separated label of the URL's host,
      upper-cased; None when the host is empty. */
  function HostFromUrl(u: string): (r: Option<string>)
    ensures r.Some? ==> '.' !in r.value && '/' !in r.value && |r.value| <= |u|
    ensures r.None? <==> (var rest := AfterScheme(u); rest == [] || rest[0] == '/')
    ensures r.Some? ==>
              var rest := AfterScheme(u);
              var n := |r.value|;
              n <= |rest| && r.value == ToAsciiUpper(rest[..n]) &&
              (n == |rest| || rest[n] == '.' || rest[n] == '/')
  {
    var rest := AfterScheme(u);
    var end := if '/' in rest then FirstIndexOf(rest, '/') else |rest|;
    if end == 0 then None
    else
      var host := rest[..end];
      var first := if '.' in host then host[..FirstIndexOf(host, '.')] else host;
      assert first == rest[..|first|];
      PrefixLacks(rest, end, '/');
      PrefixLacks(host, |first|, '/');
      PrefixLacks(host, |first|, '.');
      UpperLacks(first, '.');
      UpperLacks(first, '/');
      Some(ToAsciiUpper(first))
  }

  /** What follows the URL's first "://", or the whole URL without one. */
  function AfterScheme(u: string): (rest: string)
    ensures |rest| <= |u|
    ensures (forall j :: !OccursAt(u, "://", j)) ==> rest == u
    ensures (exists j :: OccursAt(u, "://", j)) ==>
              exists i :: OccursAt(u, "://", i) && (forall j :: 0 <= j < i ==> !OccursAt(u, "://", j)) && rest == u[i + 3..]
  {
    match Find(u, "://")
    case Some(i) => u[i + 3..]
    case None => u
  }

  /** A prefix before the first `c` (or of a text without `c`) has no `c`. */
  lemma PrefixLacks(s: string, n: nat, c: char)
    requires n <= |s|
    requires (c in s && n <= FirstIndexOf(s, c)) || c !in s
    ensures c !in s[..n]
  {
    forall j | 0 <= j < n ensures s[..n][j] != c {
      assert s[..n][j] == s[j] && s[j] in s;
      if c in s {
        var i := FirstIndexOf(s, c);
        assert s[..i][j] == s[j];
      }
    }
  }

  /** ASCII upper-casing never produces punctuation that was not there. */
  lemma UpperLacks(s: string, c: char)
    requires c !in s && !IsAsciiLower(c) && !IsAsciiUpper(c)
    ensures c !in ToAsciiUpper(s)
  {
    var u := ToAsciiUpper(s);
    forall j | 0 <= j < |u| ensures u[j] != c {
      assert s[j] in s;
    }
  }

  /** Each part, trimmed. */
  function TrimAll(parts: seq<string>): (ts: seq<string>)
    ensures |ts| == |parts| && forall k :: 0 <= k < |parts| ==> ts[k] == Trim(parts[k])
  {
    seq(|parts|, k requires 0 <= k < |parts| => Trim(parts[k]))
  }

  /** The non-empty pieces, in order. */
  function NonEmpty(ts: seq<string>): seq<string>
  {
    if ts == [] then []
    else
      var rest := NonEmpty(ts[..|ts| - 1]);
      var t := ts[|ts| - 1];
      if t == [] then rest else rest + [t]
  }

  /** The trimmed, non-empty pieces, in order. */
  function TrimmedPieces(parts: seq<string>): seq<string>
  {
    NonEmpty(TrimAll(parts))
  }

  /** `g` is one of the tags of `tags`: a trimmed, non-empty `|` piece. */
  predicate IsGenreOf(tags: string, g: string)
  {
    var parts := Split(tags, '|');
    g != [] && exists k :: 0 <= k < |parts| && Trim(parts[k]) == g
  }

  /** Every kept piece is one of the pieces. */
  lemma {:induction false} NonEmptySource(ts: seq<string>, g: string) returns (k: nat)
    requires g in NonEmpty(ts)
    ensures k < |ts| && ts[k] == g && g != []
    decreases |ts|
  {
    var init := ts[..|ts| - 1];
    if g in NonEmpty(init) {
      k := NonEmptySource(init, g);
      assert ts[k] == init[k];
    } else {
      k := |ts| - 1;
    }
  }

  /** Every non-empty piece is kept. */
  lemma {:induction false} NonEmptyKept(ts: seq<string>, k: nat)
    requires k < |ts| && ts[k] != []
    ensures ts[k] in NonEmpty(ts)
    decreases |ts|
  {
    var init := ts[..|ts| - 1];
    if k < |init| {
      assert init[k] == ts[k];
      NonEmptyKept(init, k);
    }
  }

  lemma TrimmedPieceSource(parts: seq<string>, g: string) returns (k: nat)
    requires g in TrimmedPieces(parts)
    ensures k < |parts| && Trim(parts[k]) == g && g != []
  {
    k := NonEmptySource(TrimAll(parts), g);
  }

  lemma TrimmedPieceKept(parts: seq<string>, k: nat)
    requires k < |parts| && Trim(parts[k]) != []
    ensures Trim(parts[k]) in TrimmedPieces(parts)
  {
    NonEmptyKept(TrimAll(parts), k);
  }

  /** A genre tag as `parse_genres` keeps it: non-empty, no whitespace at
      either end. */
  predicate IsTrimmedTag(t: string)
  {
    t != [] && !IsWhitespace(t[0]) && !IsWhitespace(t[|t| - 1])
  }

  /** `parse_genres`: the tags of a '|'-separated list, trimmed, without
      empty ones, sorted and without duplicates. */
  function ParseGenres(tags: string): (v: seq<string>)
    ensures StrictlySorted(v)
    ensures forall g :: g in v <==> IsGenreOf(tags, g)
    ensures forall k :: 0 <= k < |v| ==> IsTrimmedTag(v[k])
  {
    var parts := Split(tags, '|');
    var v := InsertAll([], TrimmedPieces(parts));
    GenresFound(tags, v);
    GenresTrimmed(parts, v);
    v
  }

  lemma GenresFound(tags: string, v: seq<string>)
    requires v == InsertAll([], TrimmedPieces(Split(tags, '|')))
    ensures forall g :: g in v <==> IsGenreOf(tags, g)
  {
    var parts := Split(tags, '|');
    forall g ensures g in v <==> IsGenreOf(tags, g) {
      if g in v {
        var k := TrimmedPieceSource(parts, g);
      }
      if IsGenreOf(tags, g) {
        var k :| 0 <= k < |parts| && Trim(parts[k]) == g;
        TrimmedPieceKept(parts, k);
      }
    }
  }

  lemma GenresTrimmed(parts: seq<string>, v: seq<string>)
    requires v == InsertAll([], TrimmedPieces(parts))
    ensures forall k :: 0 <= k < |v| ==> IsTrimmedTag(v[k])
  {
    forall k | 0 <= k < |v| ensures IsTrimmedTag(v[k]) {
      assert v[k] in v;
      var j := TrimmedPieceSource(parts, v[k]);
    }
  }

  // ---------------------------------------------------------------------
  // humanize_channel

  predicate DigitOrSpace(c: char) { IsAsciiDigit(c) || IsWhitespace(c) }

  /** Length of the leading run of digits and whitespace. */
  function LeadingNumberLen(s: string): (n: nat)
    ensures n <= |s|
    ensures forall j :: 0 <= j < n ==> DigitOrSpace(s[j])
    ensures n < |s| ==> !DigitOrSpace(s[n])
  {
    if s != [] && DigitOrSpace(s[0]) then 1 + LeadingNumberLen(s[1..]) else 0
  }

  /** A leading channel number such as "006 " is dropped unless it is the
      whole label. */
  function StripChannelNumber(s: string): (r: string)
    ensures |r| <= |s| && r == s[|s| - |r|..]
    ensures r != [] ==> (r == s || !DigitOrSpace(r[0]))
  {
    var cut := LeadingNumberLen(s);
    if cut > 0 && cut < |s| then s[cut..] else s
  }

  /** `replace(['_', '-'], " ")`. */
  function ReplaceSeparators(s: string): (r: string)
    ensures |r| == |s|
    ensures forall i :: 0 <= i < |s| ==> r[i] == (if s[i] == '_' || s[i] == '-' then ' ' else s[i])
  {
    seq(|s|, i requires 0 <= i < |s| => if s[i] == '_' || s[i] == '-' then ' ' else s[i])
  }

  /** One pass of `replace("  ", " ")`: non-overlapping, left to right. */
  function ReplaceDoubleSpace(s: string): (r: string)
    ensures |r| <= |s|
    ensures !NoDoubleSpace(s) ==> |r| < |s|
  {
    if |s| >= 2 && s[0] == ' ' && s[1] == ' ' then " " + ReplaceDoubleSpace(s[2..])
    else if s == [] then []
    else
      assert !NoDoubleSpace(s) ==> !NoDoubleSpace(s[1..]) by {
        if !NoDoubleSpace(s) {
          var i :| 0 <= i < |s| - 1 && s[i] == ' ' && s[i + 1] == ' ';
          assert s[1..][i - 1] == ' ' && s[1..][i] == ' ';
        }
      }
      [s[0]] + ReplaceDoubleSpace(s[1..])
  }

  /** Every run of spaces collapsed to a single space. */
  function SqueezeSpaces(s: string): (r: string)
    ensures NoDoubleSpace(r)
    ensures r != [] ==> s != [] && r[0] == s[0]
    decreases |s|
  {
    if |s| < 2 then s
    else if s[0] == ' ' && s[1] == ' ' then SqueezeSpaces(s[1..])
    else
      var rest := SqueezeSpaces(s[1..]);
      var r := [s[0]] + rest;
      assert forall i :: 1 <= i < |r| - 1 ==> r[i] == rest[i - 1] && r[i + 1] == rest[i];
      r
  }

  lemma {:induction false} SqueezeNoDouble(s: string)
    requires NoDoubleSpace(s)
    ensures SqueezeSpaces(s) == s
    decreases |s|
  {
    if |s| >= 2 {
      assert NoDoubleSpace(s[1..]) by {
        forall i | 0 <= i < |s[1..]| - 1 ensures !(s[1..][i] == ' ' && s[1..][i + 1] == ' ') {
          assert s[1..][i] == s[i + 1] && s[1..][i + 1] == s[i + 2];
        }
      }
      SqueezeNoDouble(s[1..]);
      assert s == [s[0]] + s[1..];
    }
  }

  lemma SqueezeSpaceCons(x: string)
    ensures SqueezeSpaces(" " + x) == if x != [] && x[0] == ' ' then SqueezeSpaces(x) else " " + SqueezeSpaces(x)
  {
    assert (" " + x)[1..] == x;
  }

  /** One `replace` pass leaves the squeezed text unchanged. */
  lemma {:induction false} SqueezeReplace(s: string)
    ensures SqueezeSpaces(ReplaceDoubleSpace(s)) == SqueezeSpaces(s)
    ensures (ReplaceDoubleSpace(s) != [] && ReplaceDoubleSpace(s)[0] == ' ') <==> (s != [] && s[0] == ' ')
    decreases |s|
  {
    if |s| >= 2 && s[0] == ' ' && s[1] == ' ' {
      var t := s[2..];
      SqueezeReplace(t);
      SqueezeSpaceCons(ReplaceDoubleSpace(t));
      SqueezeSpaceCons(t);
      assert s[1..] == " " + t;
    } else if s != [] {
      var t := s[1..];
      SqueezeReplace(t);
      var r := ReplaceDoubleSpace(s);
      assert r == [s[0]] + ReplaceDoubleSpace(t);
      if s[0] == ' ' {
        assert s == " " + t;
        assert r == " " + ReplaceDoubleSpace(t);
        SqueezeSpaceCons(ReplaceDoubleSpace(t));
        SqueezeSpaceCons(t);
      } else {
        SqueezeHead(s[0], t);
        SqueezeHead(s[0], ReplaceDoubleSpace(t));
      }
    }
  }

  /** Squeezing past a first character that is not a space. */
  lemma SqueezeHead(c: char, t: string)
    requires c != ' '
    ensures SqueezeSpaces([c] + t) == [c] + SqueezeSpaces(t)
  {
    assert ([c] + t)[1..] == t;
    if t == [] { assert [c] + t == [c]; }
  }

  /** The hostname rule: a label made only of letters, digits and dots
      names the channel by its first label other than "www", upper-cased,
      when that label has at least two characters. */
  function HostnameLabel(s: string): (r: Option<string>)
    ensures r.Some? ==> |r.value| >= 2 && forall i :: 0 <= i < |r.value| ==> IsAsciiAlphanumeric(r.value[i])
    ensures r.Some? ==> NoAsciiLower(r.value)
  {
    if '.' in s && (forall i :: 0 <= i < |s| ==> IsAsciiAlphanumeric(s[i]) || s[i] == '.') then
      var parts := HostLabels(Split(s, '.'));
      if parts != [] && |parts[0]| >= 2 then
        var first := parts[0];
        assert forall j :: 0 <= j < |first| ==> IsAsciiAlphanumeric(first[j]) by {
          forall j | 0 <= j < |first| ensures IsAsciiAlphanumeric(first[j]) {
            var k := HostLabelSource(Split(s, '.'), 0);
            assert first[j] in Split(s, '.')[k];
            SplitPieceIn(s, '.', k, first[j]);
          }
        }
        Some(ToAsciiUpper(first))
      else None
    else None
  }

  /** `parts.retain(|p| !p.is_empty() && *p != "www")`. */
  function HostLabels(parts: seq<string>): seq<string>
  {
    if parts == [] then []
    else
      var rest := HostLabels(parts[..|parts| - 1]);
      var p := parts[|parts| - 1];
      if p == [] || p == "www" then rest else rest + [p]
  }

  lemma {:induction false} HostLabelSource(parts: seq<string>, i: nat) returns (k: nat)
    requires i < |HostLabels(parts)|
    ensures k < |parts| && parts[k] == HostLabels(parts)[i]
    decreases |parts|
  {
    var init := parts[..|parts| - 1];
    if i < |HostLabels(init)| {
      k := HostLabelSource(init, i);
    } else {
      k := |parts| - 1;
    }
  }

  /** A part that `retain` drops: empty, or "www". */
  predicate SkippedLabel(p: string) { p == [] || p == "www" }

  /** Part `k` is the first part that is neither empty nor "www". */
  predicate FirstHostLabel(parts: seq<string>, k: int)
  {
    0 <= k < |parts| && !SkippedLabel(parts[k]) && forall j :: 0 <= j < k ==> SkippedLabel(parts[j])
  }

  /** What `retain` keeps first is the first part that is neither empty nor
      "www"; it keeps nothing exactly when every part is skipped. */
  lemma {:induction false} HostLabelsFirst(parts: seq<string>)
    ensures HostLabels(parts) == [] <==> forall j :: 0 <= j < |parts| ==> SkippedLabel(parts[j])
    ensures HostLabels(parts) != [] ==>
              exists k :: FirstHostLabel(parts, k) && parts[k] == HostLabels(parts)[0]
    decreases |parts|
  {
    if parts != [] {
      var init := parts[..|parts| - 1];
      var last := parts[|parts| - 1];
      HostLabelsFirst(init);
      assert forall j :: 0 <= j < |init| ==> init[j] == parts[j];
      if HostLabels(init) != [] {
        var k :| FirstHostLabel(init, k) && init[k] == HostLabels(init)[0];
        assert FirstHostLabel(parts, k) && parts[k] == HostLabels(parts)[0];
      } else if !SkippedLabel(last) {
        assert FirstHostLabel(parts, |parts| - 1) && last == HostLabels(parts)[0];
      }
    }
  }

  /** There is only one first kept part. */
  lemma FirstHostLabelUnique(parts: seq<string>, k: int, k': int)
    requires FirstHostLabel(parts, k) && FirstHostLabel(parts, k')
    ensures k == k'
  {
  }

  /** The hostname rule by value: a text of letters, digits and dots, with
      at least one dot, is named by its first part other than "" and
      "www", upper-cased, when that part has two characters or more
      ("itv.com" gives "ITV", "www.bbc.co.uk" gives "BBC"); every other
      text is not a hostname. */
  lemma HostnameLabelValue(s: string)
    ensures var parts := Split(s, '.');
            HostnameLabel(s).Some? <==>
              '.' in s && (forall i :: 0 <= i < |s| ==> IsAsciiAlphanumeric(s[i]) || s[i] == '.') &&
              exists k :: FirstHostLabel(parts, k) && |parts[k]| >= 2
    ensures var parts := Split(s, '.');
            HostnameLabel(s).Some? ==>
              exists k :: FirstHostLabel(parts, k) && HostnameLabel(s).value == ToAsciiUpper(parts[k])
  {
    var parts := Split(s, '.');
    HostLabelsFirst(parts);
    if HostLabels(parts) != [] {
      var k :| FirstHostLabel(parts, k) && parts[k] == HostLabels(parts)[0];
      forall k' | FirstHostLabel(parts, k') ensures k' == k {
        FirstHostLabelUnique(parts, k, k');
      }
    }
  }

  /** The documented example "itv.com". */
  lemma HostnameLabelItv()
    ensures HostnameLabel("itv.com") == Some("ITV")
  {
    var s := "itv.com";
    assert s[3] == '.' && '.' !in s[..3];
    assert FirstIndexOf(s, '.') == 3;
    assert s[..3] == "itv" && s[4..] == "com";
    assert '.' !in "com" && Split("com", '.') == ["com"];
    assert Split(s, '.') == ["itv", "com"];
    assert HostLabels(["itv"]) == ["itv"];
    assert HostLabels(Split(s, '.')) == ["itv", "com"];
    forall i | 0 <= i < |s| ensures IsAsciiAlphanumeric(s[i]) || s[i] == '.' {
      assert s[i] in "itvcom." by { assert s[i] in s; }
    }
    var u := ToAsciiUpper("itv");
    assert u[0] == 'I' && u[1] == 'T' && u[2] == 'V';
    assert u == "ITV";
  }

  /** A label is simple when it has a lower-case letter and nothing but
      lower-case letters, digits and whitespace. */
  predicate SimpleLowerLabel(s: string)
  {
    (exists i :: 0 <= i < |s| && IsAsciiLower(s[i]))
    && (forall i :: 0 <= i < |s| ==> IsAsciiLower(s[i]) || IsAsciiDigit(s[i]) || IsWhitespace(s[i]))
  }

  predicate NoAsciiLower(s: string) { forall i :: 0 <= i < |s| ==> !IsAsciiLower(s[i]) }

  /** Simple lower-case labels such as "itv2" are upper-cased letter by
      letter, leaving no lower-case letter; any other label is unchanged. */
  function UppercaseSimple(s: string): (r: string)
    ensures |r| == |s|
    ensures forall i :: 0 <= i < |s| ==> (r[i] == ' ' <==> s[i] == ' ')
    ensures SimpleLowerLabel(s) ==> NoAsciiLower(r) && forall i :: 0 <= i < |s| ==> r[i] == AsciiUpperChar(s[i])
    ensures !SimpleLowerLabel(s) ==> r == s
  {
    if SimpleLowerLabel(s) then ToAsciiUpper(s) else s
  }

  /** The documented example "itv2". */
  lemma UppercaseSimpleItv2()
    ensures UppercaseSimple("itv2") == "ITV2"
  {
    assert IsAsciiLower("itv2"[0]);
    var u := UppercaseSimple("itv2");
    assert u[0] == 'I' && u[1] == 'T' && u[2] == 'V' && u[3] == '2';
  }

  /** The trailing HD/UHD spacing step exactly as written: the "HD" branch
      also fires on a label that already ends in " UHD". */
  function SpaceBeforeHdAsWritten(s: string): string
  {
    var upper := ToAsciiUpper(s);
    if EndsWith(upper, "UHD") && !EndsWith(upper, " UHD") then
      TrimEnd(s[..|s| - 3]) + " UHD"
    else if EndsWith(upper, "HD") && !EndsWith(upper, " HD") then
      TrimEnd(s[..|s| - 2]) + " HD"
    else s
  }

  /** The trailing HD/UHD spacing step as intended: a missing space is put
      before a trailing "HD" or "UHD", and a label already ending in " HD"
      or " UHD" is left alone. */
  function SpaceBeforeHd(s: string): string
  {
    var upper := ToAsciiUpper(s);
    if EndsWith(upper, "UHD") && !EndsWith(upper, " UHD") then
      TrimEnd(s[..|s| - 3]) + " UHD"
    else if EndsWith(upper, "HD") && !EndsWith(upper, " HD") && !EndsWith(upper, " UHD") then
      TrimEnd(s[..|s| - 2]) + " HD"
    else s
  }

  /** A label ending in "HD" comes out ending in " HD" or " UHD"; one
      already spaced, or without a trailing HD, is unchanged. */
  lemma SpaceBeforeHdSpacing(s: string)
    ensures var r := SpaceBeforeHd(s);
            EndsWith(ToAsciiUpper(s), "HD") ==> EndsWith(ToAsciiUpper(r), " HD") || EndsWith(ToAsciiUpper(r), " UHD")
    ensures var r := SpaceBeforeHd(s);
            EndsWith(ToAsciiUpper(s), " HD") || EndsWith(ToAsciiUpper(s), " UHD") || !EndsWith(ToAsciiUpper(s), "HD") ==> r == s
  {
    var upper := ToAsciiUpper(s);
    UpperHdLiterals();
    SuffixTail(upper, "UHD", "HD");
    SuffixTail(upper, " UHD", "UHD");
    SuffixTail(upper, " HD", "HD");
    SpacedHdIsNotUhd(upper);
    if EndsWith(upper, "UHD") && !EndsWith(upper, " UHD") {
      UpperSuffix(TrimEnd(s[..|s| - 3]), " UHD");
    } else if EndsWith(upper, "HD") && !EndsWith(upper, " HD") && !EndsWith(upper, " UHD") {
      UpperSuffix(TrimEnd(s[..|s| - 2]), " HD");
    }
  }

  /** A text ending in `p` ends in every suffix of `p`. */
  lemma SuffixTail(u: string, p: string, q: string)
    requires |q| <= |p| && p[|p| - |q|..] == q
    ensures EndsWith(u, p) ==> EndsWith(u, q)
  {
    if EndsWith(u, p) {
      assert u[|u| - |q|..] == u[|u| - |p|..][|p| - |q|..];
    }
  }

  lemma SpacedHdIsNotUhd(u: string)
    ensures EndsWith(u, " HD") ==> !EndsWith(u, "UHD")
  {
    if EndsWith(u, " HD") && |u| >= 3 {
      assert u[|u| - 3] == u[|u| - 3..][0];
      assert u[|u| - 3..][0] == ' ';
    }
  }

  lemma UpperHdLiterals()
    ensures ToAsciiUpper(" UHD") == " UHD" && ToAsciiUpper(" HD") == " HD"
  {
    var u := ToAsciiUpper(" UHD");
    assert u[0] == ' ' && u[1] == 'U' && u[2] == 'H' && u[3] == 'D';
    var h := ToAsciiUpper(" HD");
    assert h[0] == ' ' && h[1] == 'H' && h[2] == 'D';
  }

  /** Upper-casing keeps an upper-case suffix. */
  lemma UpperSuffix(base: string, suffix: string)
    requires ToAsciiUpper(suffix) == suffix
    ensures EndsWith(ToAsciiUpper(base + suffix), suffix)
  {
    var u := ToAsciiUpper(base + suffix);
    assert u[|u| - |suffix|..] == ToAsciiUpper(suffix);
  }

  /** Applying the intended HD spacing twice changes nothing more. */
  lemma SpaceBeforeHdIdempotent(s: string)
    ensures SpaceBeforeHd(SpaceBeforeHd(s)) == SpaceBeforeHd(s)
  {
    var r := SpaceBeforeHd(s);
    var u := ToAsciiUpper(r);
    SpaceBeforeHdSpacing(s);
    SpaceBeforeHdSpacing(r);
    if r != s {
      if EndsWith(u, " HD") {
      } else {
        assert EndsWith(u, " UHD");
      }
    }
  }

  /** The intended HD spacing never creates a double space. */
  lemma SpaceBeforeHdKeepsSpacing(s: string)
    requires NoDoubleSpace(s)
    ensures NoDoubleSpace(SpaceBeforeHd(s))
  {
    var upper := ToAsciiUpper(s);
    if EndsWith(upper, "UHD") && !EndsWith(upper, " UHD") {
      SuffixAfterTrimmed(s, |s| - 3, " UHD");
    } else if EndsWith(upper, "HD") && !EndsWith(upper, " HD") && !EndsWith(upper, " UHD") {
      SuffixAfterTrimmed(s, |s| - 2, " HD");
    }
  }

  lemma SuffixAfterTrimmed(s: string, k: nat, suffix: string)
    requires k <= |s| && NoDoubleSpace(s)
    requires |suffix| >= 2 && suffix[0] == ' ' && NoDoubleSpace(suffix)
    ensures NoDoubleSpace(TrimEnd(s[..k]) + suffix)
  {
    var t := TrimEnd(s[..k]);
    var r := t + suffix;
    forall i | 0 <= i < |r| - 1 ensures !(r[i] == ' ' && r[i + 1] == ' ') {
      if i + 1 < |t| {
        assert r[i] == s[i] && r[i + 1] == s[i + 1];
      } else if i + 1 == |t| {
        assert r[i] == t[|t| - 1];
      } else {
        assert r[i] == suffix[i - |t|] && r[i + 1] == suffix[i + 1 - |t|];
      }
    }
  }

  /** The label after trimming, dropping the channel number, replacing
      separators, collapsing spaces and trimming again. */
  function CleanedChannel(raw: string): (s: string)
    ensures NoDoubleSpace(s)
  {
    var squeezed := SqueezeSpaces(ReplaceSeparators(StripChannelNumber(Trim(raw))));
    TrimKeepsSpacing(squeezed);
    Trim(squeezed)
  }

  lemma TrimKeepsSpacing(s: string)
    requires NoDoubleSpace(s)
    ensures NoDoubleSpace(Trim(s))
  {
    TrimInfix(s);
    NoDoubleSpaceSlice(s, TrimOffset(s), TrimOffset(s) + |Trim(s)|);
  }

  lemma NoDoubleSpaceSlice(s: string, a: nat, b: nat)
    requires a <= b <= |s| && NoDoubleSpace(s)
    ensures NoDoubleSpace(s[a..b])
  {
    var t := s[a..b];
    forall i | 0 <= i < |t| - 1 ensures !(t[i] == ' ' && t[i + 1] == ' ') {
      assert t[i] == s[a + i] && t[i + 1] == s[a + i + 1];
    }
  }

  const EM_DASH: string := "\U{2014}"

  /** `humanize_channel` with the intended HD spacing: never empty and
      never with two spaces in a row. */
  function HumanizedChannel(raw: string): (r: string)
    ensures r != [] && NoDoubleSpace(r)
  {
    var s := CleanedChannel(raw);
    match HostnameLabel(s)
    case Some(host) =>
      AlnumNoDoubleSpace(host);
      host
    case None =>
      var t := UppercaseSimple(s);
      UppercaseKeepsSpacing(s);
      SpaceBeforeHdKeepsSpacing(t);
      var u := SpaceBeforeHd(t);
      if u == [] then EM_DASH else u
  }

  lemma AlnumNoDoubleSpace(w: string)
    requires forall i :: 0 <= i < |w| ==> IsAsciiAlphanumeric(w[i])
    ensures NoDoubleSpace(w)
  {
  }

  lemma UppercaseKeepsSpacing(s: string)
    requires NoDoubleSpace(s)
    ensures NoDoubleSpace(UppercaseSimple(s))
  {
    var t := UppercaseSimple(s);
    forall i | 0 <= i < |t| - 1 ensures !(t[i] == ' ' && t[i + 1] == ' ') {
      assert (t[i] == ' ') == (s[i] == ' ');
      assert (t[i + 1] == ' ') == (s[i + 1] == ' ');
    }
  }

  // The rules `humanize_channel` documents, one lemma each.

  predicate NoSeparator(s: string) { forall i :: 0 <= i < |s| ==> s[i] != '_' && s[i] != '-' }

  /** Squeezing only drops characters. */
  lemma {:induction false} SqueezeChars(s: string)
    ensures forall i :: 0 <= i < |SqueezeSpaces(s)| ==> SqueezeSpaces(s)[i] in s
    ensures s != [] ==> SqueezeSpaces(s) != []
    decreases |s|
  {
    if |s| >= 2 {
      SqueezeChars(s[1..]);
      forall i | 0 <= i < |SqueezeSpaces(s[1..])| ensures SqueezeSpaces(s[1..])[i] in s {
        assert SqueezeSpaces(s[1..])[i] in s[1..];
      }
    }
  }

  /** Rule "replace '_' and '-' with spaces": the cleaned label has neither. */
  lemma CleanedHasNoSeparator(raw: string)
    ensures NoSeparator(CleanedChannel(raw))
  {
    var r := ReplaceSeparators(StripChannelNumber(Trim(raw)));
    assert NoSeparator(r);
    var q := SqueezeSpaces(r);
    assert NoSeparator(q) by {
      SqueezeChars(r);
      forall i | 0 <= i < |q| ensures q[i] != '_' && q[i] != '-' {
        var j :| 0 <= j < |r| && r[j] == q[i];
      }
    }
    var c := Trim(q);
    assert c == CleanedChannel(raw);
    TrimInfix(q);
    forall i | 0 <= i < |c| ensures c[i] != '_' && c[i] != '-' {
      assert c[i] == q[TrimOffset(q) + i];
    }
  }

  /** A label without separators keeps none through the HD spacing. */
  lemma SpaceBeforeHdChars(s: string, p: char -> bool)
    requires forall i :: 0 <= i < |s| ==> p(s[i])
    requires p(' ') && p('U') && p('H') && p('D')
    ensures forall i :: 0 <= i < |SpaceBeforeHd(s)| ==> p(SpaceBeforeHd(s)[i])
  {
    var upper := ToAsciiUpper(s);
    var k := if EndsWith(upper, "UHD") && !EndsWith(upper, " UHD") then |s| - 3 else |s| - 2;
    if SpaceBeforeHd(s) != s {
      var t := TrimEnd(s[..k]);
      var suffix := if k == |s| - 3 then " UHD" else " HD";
      assert SpaceBeforeHd(s) == t + suffix;
      forall i | 0 <= i < |t + suffix| ensures p((t + suffix)[i]) {
        if i < |t| {
          assert (t + suffix)[i] == s[i];
        } else {
          assert (t + suffix)[i] == suffix[i - |t|];
        }
      }
    }
  }

  /** Rule "replace '_' and '-' with spaces", for the whole label. */
  lemma HumanizedHasNoSeparator(raw: string)
    ensures NoSeparator(HumanizedChannel(raw))
  {
    var s := CleanedChannel(raw);
    var r := HumanizedChannel(raw);
    match HostnameLabel(s)
    case Some(host) =>
      assert r == host;
    case None =>
      CleanedHasNoSeparator(raw);
      var t := UppercaseSimple(s);
      assert NoSeparator(t);
      var p := (c: char) => c != '_' && c != '-';
      SpaceBeforeHdChars(t, p);
      var u := SpaceBeforeHd(t);
      assert r == if u == [] then EM_DASH else u;
  }

  /** Rule "drop leading virtual channel numbers like '006 '": when digits
      and whitespace lead to something else, the cleaned label begins with
      the first character after them. */
  lemma CleanedDropsChannelNumber(raw: string)
    requires var t := Trim(raw); 0 < LeadingNumberLen(t) < |t|
    requires var t := Trim(raw); t[LeadingNumberLen(t)] != '_' && t[LeadingNumberLen(t)] != '-'
    ensures var t := Trim(raw);
            CleanedChannel(raw) != [] && CleanedChannel(raw)[0] == t[LeadingNumberLen(t)]
  {
    var t := Trim(raw);
    var n := LeadingNumberLen(t);
    var r := ReplaceSeparators(StripChannelNumber(t));
    assert StripChannelNumber(t) == t[n..];
    assert r[0] == t[n] && !IsWhitespace(r[0]);
    var q := SqueezeSpaces(r);
    SqueezeChars(r);
    assert q[0] == t[n];
    assert LeadingWs(q) == 0;
    assert TrimStart(q) == q;
    TrimEndDrops(q);
    assert TrimEnd(q) != [];
  }

  /** Rule "uppercase simple lowercase words": a simple lower-case label
      comes out without any lower-case letter. */
  lemma HumanizedUppercase(raw: string)
    requires SimpleLowerLabel(CleanedChannel(raw))
    ensures NoAsciiLower(HumanizedChannel(raw))
  {
    var s := CleanedChannel(raw);
    var r := HumanizedChannel(raw);
    match HostnameLabel(s)
    case Some(host) =>
      assert r == host;
    case None =>
      var t := UppercaseSimple(s);
      assert NoAsciiLower(t);
      var p := (c: char) => !IsAsciiLower(c);
      SpaceBeforeHdChars(t, p);
      var u := SpaceBeforeHd(t);
      assert r == if u == [] then EM_DASH else u;
      assert !IsAsciiLower(EM_DASH[0]);
  }

  /** Upper-casing a simple label does not change its upper-cased form. */
  lemma UpperOfUppercaseSimple(s: string)
    ensures ToAsciiUpper(UppercaseSimple(s)) == ToAsciiUpper(s)
  {
  }

  /** Rule "ensure a space before trailing HD/UHD": a label that is not a
      hostname and ends in "HD" comes out ending in " HD" or " UHD". */
  lemma HumanizedSpacesHd(raw: string)
    requires HostnameLabel(CleanedChannel(raw)).None?
    requires EndsWith(ToAsciiUpper(CleanedChannel(raw)), "HD")
    ensures var u := ToAsciiUpper(HumanizedChannel(raw));
            EndsWith(u, " HD") || EndsWith(u, " UHD")
  {
    var t := UppercaseSimple(CleanedChannel(raw));
    UpperOfUppercaseSimple(CleanedChannel(raw));
    SpaceBeforeHdSpacing(t);
  }

  /** The documented example "ITVHD". */
  lemma SpaceBeforeHdItv()
    ensures SpaceBeforeHd("ITVHD") == "ITV HD"
  {
    var s := "ITVHD";
    var upper := ToAsciiUpper(s);
    assert upper == s by {
      assert upper[0] == 'I' && upper[1] == 'T' && upper[2] == 'V' && upper[3] == 'H' && upper[4] == 'D';
    }
    assert upper[2..] == "VHD" && upper[1..] == "TVHD";
    assert upper[3..] == "HD";
    assert TrailingWs("ITV") == 0;
    assert s[..3] == "ITV";
  }

  /** `humanize_channel` exactly as written. */
  function HumanizedChannelAsWritten(raw: string): string
  {
    var s := CleanedChannel(raw);
    match HostnameLabel(s)
    case Some(host) => host
    case None =>
      var u := SpaceBeforeHdAsWritten(UppercaseSimple(s));
      if u == [] then EM_DASH else u
  }

  /** The `humanize_channel` steps with its two loops: the scan for the
      leading channel number and the repeated double-space replacement. */
  method HumanizeChannel(raw: string) returns (r: string)
    ensures r == HumanizedChannel(raw)
  {
    var s := Trim(raw);
    var cut := 0;
    while cut < |s| && DigitOrSpace(s[cut])
      invariant 0 <= cut <= |s|
      invariant forall j :: 0 <= j < cut ==> DigitOrSpace(s[j])
    {
      cut := cut + 1;
    }
    assert cut == LeadingNumberLen(s);
    if cut > 0 && cut < |s| {
      s := s[cut..];
    }
    s := ReplaceSeparators(s);
    ghost var before := s;
    while !NoDoubleSpace(s)
      invariant SqueezeSpaces(s) == SqueezeSpaces(before)
      decreases |s|
    {
      SqueezeReplace(s);
      s := ReplaceDoubleSpace(s);
    }
    SqueezeNoDouble(s);
    s := Trim(s);
    assert s == CleanedChannel(raw);
    var host := HostnameLabel(s);
    if host.Some? {
      return host.value;
    }
    s := SpaceBeforeHd(UppercaseSimple(s));
    if s == [] {
      r := EM_DASH;
    } else {
      r := s;
    }
  }

  /** Whitespace-free ends make trimming a no-op. */
  lemma TrimSolid(s: string)
    requires s != [] && !IsWhitespace(s[0]) && !IsWhitespace(s[|s| - 1])
    ensures Trim(s) == s
  {
    assert LeadingWs(s) == 0 && TrailingWs(s) == 0;
  }

  /** A label glued to a trailing "UHD" gains the missing space. */
  lemma SpaceBeforeGluedUhd(base: string)
    requires base != [] && !IsWhitespace(base[|base| - 1])
    ensures SpaceBeforeHd(base + "UHD") == base + " UHD"
    ensures SpaceBeforeHdAsWritten(base + "UHD") == base + " UHD"
  {
    var s := base + "UHD";
    var upper := ToAsciiUpper(s);
    assert upper[|upper| - 3..] == "UHD";
    assert upper[|upper| - 4] == AsciiUpperChar(base[|base| - 1]);
    assert s[..|s| - 3] == base;
  }

  /** A label glued to a trailing "HD" (not "UHD") gains the missing space. */
  lemma SpaceBeforeGluedHd(base: string)
    requires base != [] && !IsWhitespace(base[|base| - 1]) && AsciiUpperChar(base[|base| - 1]) != 'U'
    ensures SpaceBeforeHd(base + "HD") == base + " HD"
    ensures SpaceBeforeHdAsWritten(base + "HD") == base + " HD"
  {
    var s := base + "HD";
    var upper := ToAsciiUpper(s);
    assert upper[|upper| - 2..] == "HD";
    assert upper[|upper| - 3] == AsciiUpperChar(base[|base| - 1]);
    assert s[..|s| - 2] == base;
  }

  /** A label that already ends in " UHD" keeps it under the intended rule. */
  lemma SpaceBeforeSpacedUhd(base: string)
    ensures SpaceBeforeHd(base + " UHD") == base + " UHD"
  {
    var s := base + " UHD";
    assert ToAsciiUpper(s)[|s| - 4..] == " UHD";
  }

  /** As written, the "HD" branch turns a label ending in " UHD" into one
      ending in " U HD". */
  lemma SpaceBeforeSpacedUhdAsWritten(base: string)
    requires base != [] && !IsWhitespace(base[|base| - 1])
    ensures SpaceBeforeHdAsWritten(base + " UHD") == base + " U HD"
  {
    var s := base + " UHD";
    var upper := ToAsciiUpper(s);
    assert upper[|upper| - 4..] == " UHD";
    assert upper[|upper| - 2..] == "HD";
    assert upper[|upper| - 3..] == "UHD";
    assert s[..|s| - 2] == base + " U";
    assert TrimEnd(base + " U") == base + " U";
  }

  /** The "Sky UHD" label of the finding. */
  lemma SkyUhdExample()
    ensures SpaceBeforeHd("Sky UHD") == "Sky UHD"
    ensures SpaceBeforeHdAsWritten("Sky UHD") == "Sky U HD"
  {
    SpaceBeforeSpacedUhd("Sky");
    SpaceBeforeSpacedUhdAsWritten("Sky");
    assert "Sky" + " UHD" == "Sky UHD";
    assert "Sky" + " U HD" == "Sky U HD";
  }

  // ---------------------------------------------------------------------
  // infer_broadcast_hd

  /** Some needle of `needles` occurs in `hay`. */
  predicate HasNeedle(hay: string, needles: seq<string>)
  {
    exists k :: 0 <= k < |needles| && Contains(hay, needles[k])
  }

  const TAG_HD_NEEDLES: seq<string> := ["2160", "uhd", "4k", "hdr", "1080", "720", " hd ", "(hd)", "[hd]"]

  /** The ASCII letters and digits of `s`, in order. */
  function CompactAlnum(s: string): (r: string)
    ensures |r| <= |s|
  {
    if s == [] then []
    else CompactAlnum(s[..|s| - 1]) + (if IsAsciiAlphanumeric(s[|s| - 1]) then [s[|s| - 1]] else [])
  }

  /** The channel-name rules: a spaced " hd" word, "UHD" or "4K" anywhere
      in the compacted name, or "HD" followed by at most three more
      letters or digits at its end. */
  predicate ChannelSaysHd(ch: string)
  {
    var spaced := ToAsciiLower(Trim(ch));
    EndsWith(spaced, " hd") || Contains(spaced, " hd ")
    || CompactSaysHd(ToAsciiUpper(CompactAlnum(spaced)))
  }

  /** The rules on the upper-cased, compacted channel name. */
  predicate CompactSaysHd(cc: string)
  {
    if Contains(cc, "UHD") || Contains(cc, "4K") then true
    else match RFind(cc, "HD")
      case Some(pos) => |cc| - (pos + 2) <= 3
      case None => false
  }

  /** `infer_broadcast_hd`: tags first, then the channel name. */
  function InferBroadcastHd(tags: Option<string>, channel: Option<string>): (r: bool)
    ensures tags.Some? && HasNeedle(ToAsciiLower(tags.value), TAG_HD_NEEDLES) ==> r
    ensures channel.None? && (tags.None? || !HasNeedle(ToAsciiLower(tags.value), TAG_HD_NEEDLES)) ==> !r
  {
    if tags.Some? && HasNeedle(ToAsciiLower(tags.value), TAG_HD_NEEDLES) then true
    else channel.Some? && ChannelSaysHd(channel.value)
  }

  /** Compacting keeps two trailing letters or digits at the end. */
  lemma CompactKeepsTail(s: string)
    requires |s| >= 2 && IsAsciiAlphanumeric(s[|s| - 2]) && IsAsciiAlphanumeric(s[|s| - 1])
    ensures var c := CompactAlnum(s);
            |c| >= 2 && c[|c| - 2] == s[|s| - 2] && c[|c| - 1] == s[|s| - 1]
  {
    var init := s[..|s| - 1];
    assert init[|init| - 1] == s[|s| - 2];
    assert CompactAlnum(init) == CompactAlnum(init[..|init| - 1]) + [s[|s| - 2]];
  }

  /** The last two characters of a text ending in two non-whitespace
      characters survive trimming. */
  lemma TrimKeepsSolidTail(s: string)
    requires |s| >= 2 && !IsWhitespace(s[|s| - 2]) && !IsWhitespace(s[|s| - 1])
    ensures var t := Trim(s);
            |t| >= 2 && t[|t| - 2] == s[|s| - 2] && t[|t| - 1] == s[|s| - 1]
  {
    var r := TrimStart(s);
    assert forall i :: 0 <= i < |s| - |r| ==> IsWhitespace(s[i]) by {
      forall i | 0 <= i < |s| - |r| ensures IsWhitespace(s[i]) {
        assert s[..|s| - |r|][i] == s[i];
      }
    }
    assert |r| >= 2;
    assert r[|r| - 1] == s[|s| - 1] && r[|r| - 2] == s[|s| - 2];
    assert TrimEnd(r) == r;
  }

  /** `t` ends in the letters h, d, each in either case. */
  predicate EndsInHdLetters(t: string)
  {
    |t| >= 2 && (t[|t| - 2] == 'h' || t[|t| - 2] == 'H') && (t[|t| - 1] == 'd' || t[|t| - 1] == 'D')
  }

  predicate EndsInLowerHd(t: string) { |t| >= 2 && t[|t| - 2] == 'h' && t[|t| - 1] == 'd' }

  predicate EndsInUpperHd(t: string) { |t| >= 2 && t[|t| - 2] == 'H' && t[|t| - 1] == 'D' }

  /** The compacted name ends in "HD", so the "HD near the end" rule fires. */
  lemma HdTailRule(cc: string)
    requires EndsInUpperHd(cc)
    ensures CompactSaysHd(cc)
  {
    assert cc[|cc| - 2..] == "HD";
    assert OccursAt(cc, "HD", |cc| - 2);
  }

  lemma UpperTailHd(ch: string)
    requires EndsWith(ToAsciiUpper(ch), "HD")
    ensures EndsInHdLetters(ch)
  {
    var u := ToAsciiUpper(ch);
    assert u[|u| - 2..][0] == u[|u| - 2] && u[|u| - 2..][1] == u[|u| - 1];
    assert AsciiUpperChar(ch[|ch| - 2]) == 'H' && AsciiUpperChar(ch[|ch| - 1]) == 'D';
  }

  lemma TrimTailHd(ch: string)
    requires EndsInHdLetters(ch)
    ensures EndsInHdLetters(Trim(ch))
  {
    assert !IsWhitespace(ch[|ch| - 2]) && !IsWhitespace(ch[|ch| - 1]);
    TrimKeepsSolidTail(ch);
  }

  lemma LowerTailHd(t: string)
    requires EndsInHdLetters(t)
    ensures EndsInLowerHd(ToAsciiLower(t))
  {
    var spaced := ToAsciiLower(t);
    assert spaced[|spaced| - 2] == AsciiLowerChar(t[|t| - 2]);
    assert spaced[|spaced| - 1] == AsciiLowerChar(t[|t| - 1]);
  }

  /** Compacting and upper-casing a text ending in "hd" leaves "HD" at its end. */
  lemma CompactTailHd(spaced: string)
    requires EndsInLowerHd(spaced)
    ensures EndsInUpperHd(ToAsciiUpper(CompactAlnum(spaced)))
  {
    CompactKeepsTail(spaced);
    var cc := ToAsciiUpper(CompactAlnum(spaced));
    assert cc[|cc| - 2] == AsciiUpperChar('h') && cc[|cc| - 1] == AsciiUpperChar('d');
  }

  /** Any channel name ending in "HD", in any case, counts as HD: the
      rule behind "ITVHD", "BBCONEHD" and every "... HD" label that
      `humanize_channel` produces. */
  lemma InferFromHdSuffix(ch: string)
    requires EndsWith(ToAsciiUpper(ch), "HD")
    ensures InferBroadcastHd(None, Some(ch))
  {
    UpperTailHd(ch);
    TrimTailHd(ch);
    LowerTailHd(Trim(ch));
    var spaced := ToAsciiLower(Trim(ch));
    CompactTailHd(spaced);
    HdTailRule(ToAsciiUpper(CompactAlnum(spaced)));
  }

  /** A humanised label that ends in " HD" is always inferred as HD. */
  lemma HumanizedHdLabelIsHd(raw: string)
    requires EndsWith(HumanizedChannel(raw), " HD")
    ensures InferBroadcastHd(None, Some(HumanizedChannel(raw)))
  {
    var h := HumanizedChannel(raw);
    SpacedHdUpper(h);
    InferFromHdSuffix(h);
  }

  lemma SpacedHdUpper(h: string)
    requires EndsWith(h, " HD")
    ensures EndsWith(ToAsciiUpper(h), "HD")
  {
    var u := ToAsciiUpper(h);
    assert h[|h| - 3..][1] == h[|h| - 2] && h[|h| - 3..][2] == h[|h| - 1];
    assert u[|u| - 2] == 'H' && u[|u| - 1] == 'D';
    assert u[|u| - 2..] == "HD";
  }

  // ---------------------------------------------------------------------
  // is_path_hd

  const SD_NEEDLES: seq<string> := ["480p", "576p", "sd ", "vhs", "svcd", "xvid", "divx", "dvdrip"]

  const HD_NEEDLES: seq<string> :=
    ["2160p", "uhd", "4k", "hdr", "dolby vision", "dv", "1080p", "720p",
     "blu-ray", "bluray", "bdrip", "hdtv", "web-dl", "webrip"]

  /** The HD markers other than "dv". */
  const HD_NEEDLES_WORDY: seq<string> :=
    ["2160p", "uhd", "4k", "hdr", "dolby vision", "1080p", "720p",
     "blu-ray", "bluray", "bdrip", "hdtv", "web-dl", "webrip"]

  /** What `is_path_hd` searches: the lower-cased file stem, a space and
      the lower-cased name of the folder holding the file. */
  function PathHay(p: string): string
  {
    var stem := match FileStem(p) case Some(x) => x case None => "";
    var parent := match ParentFileName(p) case Some(x) => x case None => "";
    ToAsciiLower(stem) + " " + ToAsciiLower(parent)
  }

  /** Known, non-zero video dimensions decide: at least 1280 wide or 720
      high is HD. */
  function DimsVerdict(dims: Option<(nat, nat)>): (r: Option<bool>)
    ensures r.Some? <==> dims.Some? && dims.value.0 > 0 && dims.value.1 > 0
    ensures r == Some(true) <==> dims.Some? && dims.value.0 > 0 && dims.value.1 > 0 && (dims.value.0 >= 1280 || dims.value.1 >= 720)
  {
    match dims
    case Some((w, h)) => if w > 0 && h > 0 then Some(w >= 1280 || h >= 720) else None
    case None => None
  }

  /** `is_path_hd` on the text it searches, exactly as written. `cached`
      is the ffprobe cache's answer for the file and `probed` the answer of
      a fresh ffprobe run (which consults the cache first). */
  function HayVerdictAsWritten(hay: string, cached: Option<(nat, nat)>, probed: Option<(nat, nat)>): Option<bool>
  {
    if HasNeedle(hay, SD_NEEDLES) then Some(false)
    else if DimsVerdict(cached).Some? then DimsVerdict(cached)
    else if HasNeedle(hay, HD_NEEDLES) then Some(true)
    else DimsVerdict(probed)
  }

  function IsPathHdAsWritten(p: string, cached: Option<(nat, nat)>, probed: Option<(nat, nat)>): Option<bool>
  {
    HayVerdictAsWritten(PathHay(p), cached, probed)
  }

  /** `w` occurs in `hay` as a word of its own: no letter or digit right
      before or right after it. */
  predicate HasToken(hay: string, w: string)
  {
    exists i :: 0 <= i <= |hay| && OccursAt(hay, w, i)
                && (i == 0 || !IsAsciiAlphanumeric(hay[i - 1]))
                && (i + |w| == |hay| || !IsAsciiAlphanumeric(hay[i + |w|]))
  }

  /** The filename HD heuristic as intended: "dv" (Dolby Vision) is a
      marker only as a word of its own, not inside "dvd" or "adventures". */
  function HayVerdict(hay: string, cached: Option<(nat, nat)>, probed: Option<(nat, nat)>): (r: Option<bool>)
    ensures HasNeedle(hay, SD_NEEDLES) ==> r == Some(false)
    ensures !HasNeedle(hay, SD_NEEDLES) && DimsVerdict(cached).Some? ==> r == DimsVerdict(cached)
    ensures r == Some(true) ==> !HasNeedle(hay, SD_NEEDLES)
    ensures !HasNeedle(hay, SD_NEEDLES) && DimsVerdict(cached).None? ==>
              (r == Some(true) <==> HasNeedle(hay, HD_NEEDLES_WORDY) || HasToken(hay, "dv") || DimsVerdict(probed) == Some(true))
    ensures !HasNeedle(hay, SD_NEEDLES) && DimsVerdict(cached).None? && !HasNeedle(hay, HD_NEEDLES_WORDY) && !HasToken(hay, "dv") ==>
              r == DimsVerdict(probed)
  {
    if HasNeedle(hay, SD_NEEDLES) then Some(false)
    else if DimsVerdict(cached).Some? then DimsVerdict(cached)
    else if HasNeedle(hay, HD_NEEDLES_WORDY) || HasToken(hay, "dv") then Some(true)
    else DimsVerdict(probed)
  }

  /** `is_path_hd` with the intended "dv" rule. */
  function IsPathHd(p: string, cached: Option<(nat, nat)>, probed: Option<(nat, nat)>): (r: Option<bool>)
    ensures HasNeedle(PathHay(p), SD_NEEDLES) ==> r == Some(false)
    ensures !HasNeedle(PathHay(p), SD_NEEDLES) && DimsVerdict(cached).Some? ==> r == DimsVerdict(cached)
    ensures !HasNeedle(PathHay(p), SD_NEEDLES) && DimsVerdict(cached).None? ==>
              (r == Some(true) <==>
                 HasNeedle(PathHay(p), HD_NEEDLES_WORDY) || HasToken(PathHay(p), "dv") || DimsVerdict(probed) == Some(true))
  {
    HayVerdict(PathHay(p), cached, probed)
  }

  /** The HD markers are the wordy ones and "dv". */
  lemma HdNeedlesSplit(hay: string)
    ensures HasNeedle(hay, HD_NEEDLES) <==> HasNeedle(hay, HD_NEEDLES_WORDY) || Contains(hay, "dv")
  {
    assert HD_NEEDLES == HD_NEEDLES_WORDY[..5] + ["dv"] + HD_NEEDLES_WORDY[5..];
    if HasNeedle(hay, HD_NEEDLES) {
      var k :| 0 <= k < |HD_NEEDLES| && Contains(hay, HD_NEEDLES[k]);
      if k < 5 {
        assert HD_NEEDLES_WORDY[k] == HD_NEEDLES[k];
      } else if k > 5 {
        assert HD_NEEDLES_WORDY[k - 1] == HD_NEEDLES[k];
      }
    }
    if HasNeedle(hay, HD_NEEDLES_WORDY) {
      var k :| 0 <= k < |HD_NEEDLES_WORDY| && Contains(hay, HD_NEEDLES_WORDY[k]);
      if k < 5 {
        assert HD_NEEDLES[k] == HD_NEEDLES_WORDY[k];
      } else {
        assert HD_NEEDLES[k + 1] == HD_NEEDLES_WORDY[k];
      }
    }
    if Contains(hay, "dv") {
      assert HD_NEEDLES[5] == "dv";
    }
  }

  /** The intended rule and the rule as written disagree only on a "dv"
      that is not a word of its own: wherever every "dv" stands alone, or
      none occurs, the two verdicts are the same. */
  lemma HayVerdictAgrees(hay: string, cached: Option<(nat, nat)>, probed: Option<(nat, nat)>)
    requires Contains(hay, "dv") ==> HasToken(hay, "dv")
    ensures HayVerdict(hay, cached, probed) == HayVerdictAsWritten(hay, cached, probed)
  {
    HdNeedlesSplit(hay);
    if HasToken(hay, "dv") {
      var i :| 0 <= i <= |hay| && OccursAt(hay, "dv", i)
               && (i == 0 || !IsAsciiAlphanumeric(hay[i - 1]))
               && (i + 2 == |hay| || !IsAsciiAlphanumeric(hay[i + 2]));
      assert Find(hay, "dv").Some?;
    }
  }

  /** As written, "dv" inside any word ("dvd", "adventures") marks the
      file HD before ffprobe is asked, so an SD file whose probe would
      say 720x576 is reported HD. */
  lemma DvInsideWordAsWritten(hay: string, i: nat, cached: Option<(nat, nat)>)
    requires !HasNeedle(hay, SD_NEEDLES) && DimsVerdict(cached).None?
    requires OccursAt(hay, "dv", i)
    ensures HayVerdictAsWritten(hay, cached, Some((720, 576))) == Some(true)
    ensures DimsVerdict(Some((720, 576))) == Some(false)
  {
    assert HD_NEEDLES[5] == "dv";
    assert Find(hay, "dv").Some?;
  }

  /** With the intended rule, a "dv" that is part of a longer word leaves
      the decision to ffprobe. */
  lemma DvInsideWordCorrected(hay: string, cached: Option<(nat, nat)>, probed: Option<(nat, nat)>)
    requires !HasNeedle(hay, SD_NEEDLES) && DimsVerdict(cached).None?
    requires !HasNeedle(hay, HD_NEEDLES_WORDY) && !HasToken(hay, "dv")
    ensures HayVerdict(hay, cached, probed) == DimsVerdict(probed)
  {
  }

  /** The "dvd" folder of the finding: "dv" occurs, but not as a word. */
  lemma DvdHasNoDvToken()
    ensures OccursAt("dvd ", "dv", 0)
    ensures !HasToken("dvd ", "dv")
  {
    var hay := "dvd ";
    assert hay[0..2] == "dv";
    forall i | 0 <= i <= |hay| && OccursAt(hay, "dv", i) ensures i == 0 {
      assert hay[i..i + 2][1] == hay[i + 1] == 'v';
    }
    assert IsAsciiAlphanumeric(hay[2]);
  }

  // ---------------------------------------------------------------------
  // The ffprobe resolution cache

  /** One cached probe: the file's modification time and size when it was
      probed, and the video dimensions found. */
  datatype ProbeEntry = ProbeEntry(mtime: Option<nat>, size: Option<nat>, width: nat, height: nat)

  /** What a file's metadata says now: modification time and size. */
  type FileStat = (Option<nat>, Option<nat>)

  predicate EntryMatches(e: ProbeEntry, st: FileStat) { e.mtime == st.0 && e.size == st.1 }

  /** The entries whose file still has the recorded time and size. */
  function FreshEntries(entries: map<string, ProbeEntry>, stat: string -> FileStat): (f: map<string, ProbeEntry>)
    ensures forall k :: k in f <==> k in entries && EntryMatches(entries[k], stat(k))
    ensures forall k :: k in f ==> f[k] == entries[k]
  {
    map k | k in entries && EntryMatches(entries[k], stat(k)) :: entries[k]
  }

  function StaleKeys(entries: map<string, ProbeEntry>, stat: string -> FileStat): (st: set<string>)
    ensures forall k :: k in st <==> k in entries && !EntryMatches(entries[k], stat(k))
  {
    set k | k in entries && !EntryMatches(entries[k], stat(k))
  }

  /** Refreshing splits the cache into the entries kept and the stale
      ones, and nothing else. */
  lemma RefreshPartition(entries: map<string, ProbeEntry>, stat: string -> FileStat)
    ensures FreshEntries(entries, stat).Keys + StaleKeys(entries, stat) == entries.Keys
    ensures FreshEntries(entries, stat).Keys * StaleKeys(entries, stat) == {}
    ensures |entries| == |FreshEntries(entries, stat)| + |StaleKeys(entries, stat)|
  {
    var f := FreshEntries(entries, stat).Keys;
    var st := StaleKeys(entries, stat);
    assert f + st == entries.Keys;
    assert f * st == {};
    assert |f + st| == |f| + |st| - |f * st|;
    assert |entries.Keys| == |entries|;
    assert |FreshEntries(entries, stat).Keys| == |FreshEntries(entries, stat)|;
  }

  /** Stats path-keyed ffprobe results. */
  class ProbeCache {
    var entries: map<string, ProbeEntry>

    constructor ()
      ensures entries == map[]
    {
      entries := map[];
    }

    /** `lookup`: a hit only when both the time and the size match. */
    function Lookup(key: string, st: FileStat): (r: Option<ProbeEntry>)
      reads this
      ensures r.Some? <==> key in entries && EntryMatches(entries[key], st)
      ensures r.Some? ==> r.value == entries[key]
    {
      if key in entries && EntryMatches(entries[key], st) then Some(entries[key]) else None
    }

    /** `update`: insert or replace one entry. */
    method Update(key: string, entry: ProbeEntry)
      modifies this
      ensures entries == old(entries)[key := entry]
      ensures Lookup(key, (entry.mtime, entry.size)) == Some(entry)
    {
      entries := entries[key := entry];
    }

    /** `refresh_stale_entries`: drop every entry whose file changed time
        or size (or vanished), save when something was dropped, and
        return how many were dropped. `stat` stands for the file metadata
        and `saveOk` for whether writing the cache file succeeds. */
    method RefreshStaleEntries(stat: string -> FileStat, saveOk: bool) returns (r: Result<nat>)
      modifies this
      ensures entries == FreshEntries(old(entries), stat)
      ensures forall k :: k in entries ==> Lookup(k, stat(k)).Some?
      ensures StaleKeys(old(entries), stat) == {} || saveOk ==> r == Ok(|StaleKeys(old(entries), stat)|)
      ensures StaleKeys(old(entries), stat) != {} && !saveOk ==> r.Err?
    {
      var es := entries;
      ghost var allStale := StaleKeys(es, stat);
      var stale: set<string> := {};
      var todo := es.Keys;
      while todo != {}
        invariant todo <= es.Keys
        invariant stale == allStale - todo
        decreases |todo|
      {
        var key :| key in todo;
        if !EntryMatches(es[key], stat(key)) {
          assert key in allStale;
          stale := stale + {key};
        } else {
          assert key !in allStale;
        }
        todo := todo - {key};
      }
      entries := map k | k in es && k !in stale :: es[k];
      assert entries == FreshEntries(es, stat);
      if stale != {} && !saveOk {
        return Err("failed to save the ffprobe cache");
      }
      return Ok(|stale|);
    }

    /** `ffprobe_resolution` for a file whose current time and size are
        `st`: a cache hit answers at once; otherwise, when ffprobe is
        available and its run succeeded with output `output`, the parsed
        dimensions are cached under the path key, if the path has one. A
        failed save of the cache file is only logged, so it is not modelled. */
    method Resolution(key: Option<string>, st: FileStat, available: bool, output: Option<string>)
      returns (dims: Option<(nat, nat)>)
      modifies this
      ensures IsHit(old(entries), key, st) ==>
                dims == Some((old(entries)[key.value].width, old(entries)[key.value].height)) && entries == old(entries)
      ensures !IsHit(old(entries), key, st) && (!available || output.None?) ==> dims == None && entries == old(entries)
      ensures !IsHit(old(entries), key, st) && available && output.Some? ==>
                dims == ParseProbeOutput(output.value)
                && entries == ProbeStored(old(entries), key, st, dims)
    {
      if key.Some? {
        var hit := Lookup(key.value, st);
        if hit.Some? {
          return Some((hit.value.width, hit.value.height));
        }
      }
      if !available || output.None? {
        return None;
      }
      dims := ParseProbeOutput(output.value);
      if dims.Some? && key.Some? {
        Update(key.value, ProbeEntry(st.0, st.1, dims.value.0, dims.value.1));
      }
    }
  }

  /** The cache answers for `key` at time and size `st`. */
  predicate IsHit(entries: map<string, ProbeEntry>, key: Option<string>, st: FileStat)
  {
    key.Some? && key.value in entries && EntryMatches(entries[key.value], st)
  }

  /** The cache after storing fresh probe dimensions. */
  function ProbeStored(entries: map<string, ProbeEntry>, key: Option<string>, st: FileStat, dims: Option<(nat, nat)>): (e: map<string, ProbeEntry>)
    ensures key.Some? && dims.Some? ==> IsHit(e, key, st) && e[key.value].width == dims.value.0 && e[key.value].height == dims.value.1
    ensures forall k :: k in entries && (key.None? || k != key.value) ==> k in e && e[k] == entries[k]
  {
    if key.Some? && dims.Some? then entries[key.value := ProbeEntry(st.0, st.1, dims.value.0, dims.value.1)] else entries
  }

  const U32_MAX: int := 0xFFFF_FFFF

  /** The first line that is not blank. */
  function FirstNonBlank(ls: seq<string>): (r: Option<string>)
    ensures r.Some? ==> r.value in ls && !IsBlank(r.value)
  {
    if ls == [] then None
    else if !IsBlank(ls[0]) then Some(ls[0])
    else FirstNonBlank(ls[1..])
  }

  /** `s.parse::<u32>()`. */
  function ParseU32(s: string): (r: Option<nat>)
    ensures r.Some? ==> r.value <= U32_MAX
    ensures r.Some? <==> ParseInt(s, 0, U32_MAX).Some?
    ensures r.Some? ==> r.value == ParseInt(s, 0, U32_MAX).value
  {
    match ParseInt(s, 0, U32_MAX)
    case Some(v) => Some(v)
    case None => None
  }

  /** "<width>x<height>", each side trimmed and read as a `u32`. */
  function ParseDims(line: string): (r: Option<(nat, nat)>)
    ensures r.Some? ==> r.value.0 <= U32_MAX && r.value.1 <= U32_MAX
  {
    match SplitOnce(line, 'x')
    case None => None
    case Some((w, h)) =>
      var wv := ParseU32(Trim(w));
      var hv := ParseU32(Trim(h));
      if wv.Some? && hv.Some? then Some((wv.value, hv.value)) else None
  }

  /** The output parsing of `ffprobe_resolution`: the first non-blank
      line, trimmed, read as dimensions. */
  function ParseProbeOutput(stdout: string): (r: Option<(nat, nat)>)
    ensures r.Some? ==> r.value.0 <= U32_MAX && r.value.1 <= U32_MAX
  {
    match FirstNonBlank(Lines(stdout))
    case None => None
    case Some(line) => ParseDims(Trim(line))
  }

  lemma TrimDigits(s: string)
    requires s != [] && AllDigits(s)
    ensures Trim(s) == s
  {
    assert IsAsciiDigit(s[0]) && IsAsciiDigit(s[|s| - 1]);
    TrimSolid(s);
  }

  /** A number printed in decimal reads back as a `u32`. */
  lemma ParseU32RoundTrip(n: nat)
    requires n <= U32_MAX
    ensures ParseU32(Trim(NatToString(n))) == Some(n)
  {
    var t := NatToString(n);
    TrimDigits(t);
    ParseIntToString(n, 0, U32_MAX);
    assert IntToString(n) == t;
    assert ParseInt(t, 0, U32_MAX) == Some(n);
  }

  lemma SplitOnceAt(a: string, c: char, b: string)
    requires c !in a
    ensures SplitOnce(a + [c] + b, c) == Some((a, b))
  {
    var s := a + [c] + b;
    assert s[|a|] == c;
    FirstIndexOfConcat(a, c, b);
    assert s[..|a|] == a && s[|a| + 1..] == b;
  }

  lemma DigitsHaveNoX(s: string)
    requires AllDigits(s)
    ensures 'x' !in s
  {
    forall i | 0 <= i < |s| ensures s[i] != 'x' {
      assert IsAsciiDigit(s[i]);
    }
  }

  lemma ParseDimsRoundTrip(w: nat, h: nat)
    requires w <= U32_MAX && h <= U32_MAX
    ensures ParseDims(NatToString(w) + "x" + NatToString(h)) == Some((w, h))
  {
    var ws, hs := NatToString(w), NatToString(h);
    DigitsHaveNoX(ws);
    SplitOnceAt(ws, 'x', hs);
    assert ws + "x" + hs == ws + ['x'] + hs;
    ParseU32RoundTrip(w);
    ParseU32RoundTrip(h);
  }

  /** One digit line followed by a newline is read as exactly that line. */
  lemma SingleLine(line: string)
    requires line != [] && IsAsciiDigit(line[0]) && IsAsciiDigit(line[|line| - 1]) && '\n' !in line
    ensures FirstNonBlank(Lines(line + "\n")) == Some(line)
    ensures Trim(line) == line
  {
    var s := line + "\n";
    assert s == line + ['\n'] + [];
    FirstIndexOfConcat(line, '\n', []);
    assert s[..|line|] == line && s[|line| + 1..] == [];
    assert StripCr(line) == line;
    assert Lines(s) == [line];
    TrimSolid(line);
  }

  /** The "<width>x<height>" line ffprobe prints reads back as the same
      dimensions. */
  lemma ParseProbeOutputRoundTrip(w: nat, h: nat)
    requires w <= U32_MAX && h <= U32_MAX
    ensures ParseProbeOutput(NatToString(w) + "x" + NatToString(h) + "\n") == Some((w, h))
  {
    var ws, hs := NatToString(w), NatToString(h);
    var line := ws + "x" + hs;
    assert line[0] == ws[0] && line[|line| - 1] == hs[|hs| - 1];
    assert '\n' !in line by {
      assert forall i :: 0 <= i < |line| ==> line[i] == 'x' || IsAsciiDigit(line[i]);
    }
    SingleLine(line);
    ParseDimsRoundTrip(w, h);
  }
}
