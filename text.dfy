// Text helpers shared by every module: Rust's str operations over
// `seq<char>` (trim, find, split, join), ASCII case mapping, UTF-8 byte
// lengths and decimal integers as `str::parse` reads them.

module Text {

  datatype Option<T> = None | Some(value: T)

  datatype Result<T> = Ok(value: T) | Err(error: string)

  /** `char::is_whitespace`: the Unicode White_Space property. */
  predicate IsWhitespace(c: char)
  {
    ('\t' <= c <= '\r') || c == ' ' || c == '\U{0085}' || c == '\U{00A0}'
    || c == '\U{1680}' || ('\U{2000}' <= c <= '\U{200A}') || c == '\U{2028}'
    || c == '\U{2029}' || c == '\U{202F}' || c == '\U{205F}' || c == '\U{3000}'
  }

  predicate IsAsciiDigit(c: char) { '0' <= c <= '9' }
  predicate IsAsciiLower(c: char) { 'a' <= c <= 'z' }
  predicate IsAsciiUpper(c: char) { 'A' <= c <= 'Z' }
  predicate IsAsciiAlphanumeric(c: char) { IsAsciiDigit(c) || IsAsciiLower(c) || IsAsciiUpper(c) }

  function AsciiLowerChar(c: char): (r: char)
    ensures IsAsciiUpper(c) ==> IsAsciiLower(r)
    ensures !IsAsciiUpper(c) ==> r == c
  {
    if IsAsciiUpper(c) then (c as int + 32) as char else c
  }

  function AsciiUpperChar(c: char): (r: char)
    ensures IsAsciiLower(c) ==> IsAsciiUpper(r)
    ensures !IsAsciiLower(c) ==> r == c
  {
    if IsAsciiLower(c) then (c as int - 32) as char else c
  }

  /** `str::to_ascii_lowercase`. */
  function ToAsciiLower(s: string): (r: string)
    ensures |r| == |s|
    ensures forall i :: 0 <= i < |s| ==> r[i] == AsciiLowerChar(s[i])
  {
    seq(|s|, i requires 0 <= i < |s| => AsciiLowerChar(s[i]))
  }

  /** `str::to_ascii_uppercase`. */
  function ToAsciiUpper(s: string): (r: string)
    ensures |r| == |s|
    ensures forall i :: 0 <= i < |s| ==> r[i] == AsciiUpperChar(s[i])
  {
    seq(|s|, i requires 0 <= i < |s| => AsciiUpperChar(s[i]))
  }

  predicate AllWhitespace(s: string) { forall i :: 0 <= i < |s| ==> IsWhitespace(s[i]) }

  /** Length of the leading whitespace run of `s`. */
  function LeadingWs(s: string): (n: nat)
    ensures n <= |s|
    ensures forall i :: 0 <= i < n ==> IsWhitespace(s[i])
    ensures n < |s| ==> !IsWhitespace(s[n])
  {
    if s != [] && IsWhitespace(s[0]) then 1 + LeadingWs(s[1..]) else 0
  }

  /** Length of the trailing whitespace run of `s`. */
  function TrailingWs(s: string): (n: nat)
    ensures n <= |s|
    ensures forall i :: |s| - n <= i < |s| ==> IsWhitespace(s[i])
    ensures n < |s| ==> !IsWhitespace(s[|s| - n - 1])
  {
    if s != [] && IsWhitespace(s[|s| - 1]) then 1 + TrailingWs(s[..|s| - 1]) else 0
  }

  /** `str::trim_start`: drops the leading whitespace run. */
  function TrimStart(s: string): (r: string)
    ensures |r| <= |s| && r == s[|s| - |r|..]
    ensures r != [] ==> !IsWhitespace(r[0])
  {
    s[LeadingWs(s)..]
  }

  /** `str::trim_end`: drops the trailing whitespace run. */
  function TrimEnd(s: string): (r: string)
    ensures |r| <= |s| && r == s[..|r|]
    ensures r != [] ==> !IsWhitespace(r[|r| - 1])
  {
    s[..|s| - TrailingWs(s)]
  }

  /** `str::trim`. */
  function Trim(s: string): (r: string)
    ensures |r| <= |s|
    ensures r != [] ==> !IsWhitespace(r[0]) && !IsWhitespace(r[|r| - 1])
  {
    TrimEnd(TrimStart(s))
  }

  /** What trimming drops is whitespace. */
  lemma TrimStartDrops(s: string)
    ensures AllWhitespace(s[..|s| - |TrimStart(s)|])
  {
    var n := LeadingWs(s);
    assert forall i :: 0 <= i < n ==> s[..n][i] == s[i];
  }

  lemma TrimEndDrops(s: string)
    ensures AllWhitespace(s[|TrimEnd(s)|..])
  {
    var n := TrailingWs(s);
    var tail := s[|s| - n..];
    assert forall i :: 0 <= i < |tail| ==> tail[i] == s[|s| - n + i];
  }

  /** Trimming leaves nothing exactly when the text is all whitespace. */
  lemma TrimEmpty(s: string)
    ensures Trim(s) == [] <==> AllWhitespace(s)
  {
    var n := LeadingWs(s);
    var t := s[n..];
    assert TrimStart(s) == t;
    var m := TrailingWs(t);
    assert t != [] ==> m < |t| by {
      if t != [] { assert t[0] == s[n]; }
    }
    assert n < |s| ==> !IsWhitespace(s[n]);
  }

  /** `Trim(s)` is the part of `s` between two whitespace runs. */
  lemma TrimInfix(s: string)
    ensures TrimOffset(s) + |Trim(s)| <= |s|
    ensures Trim(s) == s[TrimOffset(s)..TrimOffset(s) + |Trim(s)|]
    ensures AllWhitespace(s[..TrimOffset(s)]) && AllWhitespace(s[TrimOffset(s) + |Trim(s)|..])
  {
    var t := TrimStart(s);
    var r := TrimEnd(t);
    var k := |s| - |t|;
    TrimStartDrops(s);
    TrimEndDrops(t);
    assert r == s[k..][..|r|] == s[k..k + |r|];
    assert s[k + |r|..] == t[|r|..];
  }

  /** Where `Trim(s)` starts inside `s`. */
  function TrimOffset(s: string): (k: nat)
    ensures k <= |s|
  {
    |s| - |TrimStart(s)|
  }

  /** A string is blank when trimming leaves nothing. */
  predicate IsBlank(s: string) { Trim(s) == [] }


  predicate StartsWith(s: string, p: string) { |p| <= |s| && s[..|p|] == p }
  predicate EndsWith(s: string, p: string) { |p| <= |s| && s[|s| - |p|..] == p }

  predicate OccursAt(s: string, p: string, i: int)
  {
    0 <= i && i + |p| <= |s| && s[i..i + |p|] == p
  }

  /** The first occurrence of `p` at or after `i`. */
  function FindFrom(s: string, p: string, i: nat): (r: Option<nat>)
    ensures r.Some? ==> i <= r.value && OccursAt(s, p, r.value)
    ensures r.Some? ==> forall j :: i <= j < r.value ==> !OccursAt(s, p, j)
    ensures r.None? ==> forall j :: i <= j ==> !OccursAt(s, p, j)
    decreases |s| - i
  {
    if i + |p| > |s| then None
    else if s[i..i + |p|] == p then Some(i)
    else FindFrom(s, p, i + 1)
  }

  /** `str::find`: the first occurrence of `p`. */
  function Find(s: string, p: string): (r: Option<nat>)
    ensures r.Some? ==> OccursAt(s, p, r.value) && forall j :: 0 <= j < r.value ==> !OccursAt(s, p, j)
    ensures r.None? ==> forall j :: !OccursAt(s, p, j)
  {
    FindFrom(s, p, 0)
  }

  /** The last occurrence of `p` starting at or before `i`. */
  function RFindUpTo(s: string, p: string, i: int): (r: Option<nat>)
    ensures r.Some? ==> r.value <= i && OccursAt(s, p, r.value)
    ensures r.Some? ==> forall j :: r.value < j <= i ==> !OccursAt(s, p, j)
    ensures r.None? ==> forall j :: j <= i ==> !OccursAt(s, p, j)
    decreases i + 1
  {
    if i < 0 then None
    else if OccursAt(s, p, i) then Some(i)
    else RFindUpTo(s, p, i - 1)
  }

  /** `str::rfind`: the last occurrence of `p`. */
  function RFind(s: string, p: string): (r: Option<nat>)
    ensures r.Some? ==> OccursAt(s, p, r.value) && forall j :: r.value < j ==> !OccursAt(s, p, j)
    ensures r.None? ==> forall j :: !OccursAt(s, p, j)
  {
    RFindUpTo(s, p, |s| - |p|)
  }

  predicate Contains(s: string, p: string) { Find(s, p).Some? }

  predicate ContainsChar(s: string, c: char) { c in s }

  /** `str::split(c)`: the pieces between the occurrences of `c`. */
  function Split(s: string, c: char): (r: seq<string>)
    ensures |r| >= 1
    ensures forall k :: 0 <= k < |r| ==> c !in r[k]
    decreases |s|
  {
    if c !in s then [s]
    else
      var i := FirstIndexOf(s, c);
      [s[..i]] + Split(s[i + 1..], c)
  }

  function FirstIndexOf(s: string, c: char): (i: nat)
    requires c in s
    ensures i < |s| && s[i] == c && c !in s[..i]
  {
    if s[0] == c then 0 else
      var j := FirstIndexOf(s[1..], c);
      assert s[1..][..j] == s[1..j + 1];
      1 + j
  }

  lemma {:induction false} FirstIndexOfConcat(a: string, c: char, b: string)
    requires c !in a
    ensures FirstIndexOf(a + [c] + b, c) == |a|
    decreases |a|
  {
    if a != [] {
      assert (a + [c] + b)[1..] == a[1..] + [c] + b;
      FirstIndexOfConcat(a[1..], c, b);
    }
  }

  /** Splitting at a separator that `a` lacks yields `a` first. */
  lemma SplitConcat(a: string, c: char, b: string)
    requires c !in a
    ensures Split(a + [c] + b, c) == [a] + Split(b, c)
  {
    var s := a + [c] + b;
    FirstIndexOfConcat(a, c, b);
    assert s[..|a|] == a;
    assert s[|a| + 1..] == b;
  }

  /** `slice.join(sep)`. */
  function Join(parts: seq<string>, sep: string): string
  {
    if |parts| == 0 then []
    else if |parts| == 1 then parts[0]
    else parts[0] + sep + Join(parts[1..], sep)
  }

  lemma {:induction false} SplitJoin(parts: seq<string>, c: char)
    requires |parts| >= 1
    requires forall k :: 0 <= k < |parts| ==> c !in parts[k]
    ensures Split(Join(parts, [c]), c) == parts
    decreases |parts|
  {
    if |parts| == 1 {
    } else {
      var s := Join(parts, [c]);
      var rest := Join(parts[1..], [c]);
      assert s == parts[0] + [c] + rest;
      FirstIndexOfConcat(parts[0], c, rest);
      assert s[..|parts[0]|] == parts[0];
      assert s[|parts[0]| + 1..] == rest;
      SplitJoin(parts[1..], c);
    }
  }

  /** Joining the pieces of a split with the separator gives the text back. */
  lemma {:induction false} JoinSplit(s: string, c: char)
    ensures Join(Split(s, c), [c]) == s
    decreases |s|
  {
    if c in s {
      var i := FirstIndexOf(s, c);
      JoinSplit(s[i + 1..], c);
      var rest := Split(s[i + 1..], c);
      assert Split(s, c) == [s[..i]] + rest;
      assert Join([s[..i]] + rest, [c]) == s[..i] + [c] + Join(rest, [c]);
      assert s == s[..i] + [c] + s[i + 1..];
    }
  }

  lemma {:induction false} JoinPartIn(parts: seq<string>, sep: string, k: nat, x: char)
    requires k < |parts| && x in parts[k]
    ensures x in Join(parts, sep)
    decreases |parts|
  {
    if |parts| >= 2 {
      var j := Join(parts, sep);
      assert j == parts[0] + sep + Join(parts[1..], sep);
      if k > 0 {
        JoinPartIn(parts[1..], sep, k - 1, x);
      }
    }
  }

  /** Every character of a piece of a split comes from the split text. */
  lemma SplitPieceIn(s: string, c: char, k: nat, x: char)
    requires k < |Split(s, c)| && x in Split(s, c)[k]
    ensures x in s
  {
    JoinSplit(s, c);
    JoinPartIn(Split(s, c), [c], k, x);
  }

  /** `str::split_once(c)`: the text before and after the first `c`. */
  function SplitOnce(s: string, c: char): (r: Option<(string, string)>)
    ensures r.None? <==> c !in s
    ensures r.Some? ==> c !in r.value.0 && s == r.value.0 + [c] + r.value.1
  {
    if c !in s then None
    else
      var i := FirstIndexOf(s, c);
      assert s == s[..i] + [c] + s[i + 1..];
      Some((s[..i], s[i + 1..]))
  }

  /** `str::lines`: split on '\n', drop one trailing '\r' per line, and no
      final empty line when the text ends with '\n'. */
  function Lines(s: string): seq<string>
    decreases |s|
  {
    if s == [] then []
    else if '\n' !in s then [StripCr(s)]
    else
      var i := FirstIndexOf(s, '\n');
      [StripCr(s[..i])] + Lines(s[i + 1..])
  }

  function StripCr(l: string): string
  {
    if l != [] && l[|l| - 1] == '\r' then l[..|l| - 1] else l
  }

  /** One line of text: no line break inside it. */
  predicate IsLine(l: string) { '\n' !in l && (l == [] || l[|l| - 1] != '\r') }

  /** The text of `ls`, each line followed by '\n'. */
  function Unlines(ls: seq<string>): string
  {
    if ls == [] then [] else ls[0] + "\n" + Unlines(ls[1..])
  }

  lemma {:induction false} LinesUnlines(ls: seq<string>)
    requires forall k :: 0 <= k < |ls| ==> IsLine(ls[k])
    ensures Lines(Unlines(ls)) == ls
    decreases |ls|
  {
    if ls != [] {
      var s := Unlines(ls);
      var rest := Unlines(ls[1..]);
      assert s == ls[0] + "\n" + rest;
      assert s == ls[0] + ['\n'] + rest;
      FirstIndexOfConcat(ls[0], '\n', rest);
      assert s[..|ls[0]|] == ls[0];
      assert s[|ls[0]| + 1..] == rest;
      LinesUnlines(ls[1..]);
    }
  }

  /** Number of bytes `c` takes in UTF-8 (what Rust's `str::len` counts). */
  function CharUtf8Len(c: char): (n: nat)
    ensures 1 <= n <= 4
  {
    if c as int < 0x80 then 1
    else if c as int < 0x800 then 2
    else if c as int < 0x10000 then 3
    else 4
  }

  function Utf8Len(s: string): (n: nat)
    ensures n >= |s|
  {
    Utf8LenUpTo(s, |s|)
  }

  function Utf8LenUpTo(s: string, k: nat): (n: nat)
    requires k <= |s|
    ensures n >= k
  {
    if k == 0 then 0 else Utf8LenUpTo(s, k - 1) + CharUtf8Len(s[k - 1])
  }

  // ---------------------------------------------------------------------
  // String order and sorted string sets.

  /** `Ord for str`: byte-wise lexicographic order of the UTF-8 forms, which
      is the lexicographic order of the code points. */
  predicate StrLt(a: string, b: string)
    decreases |a|
  {
    if a == [] then b != []
    else if b == [] then false
    else if a[0] != b[0] then a[0] < b[0]
    else StrLt(a[1..], b[1..])
  }

  lemma {:induction false} StrLtIrreflexive(a: string)
    ensures !StrLt(a, a)
    decreases |a|
  {
    if a != [] { StrLtIrreflexive(a[1..]); }
  }

  lemma {:induction false} StrLtTransitive(a: string, b: string, c: string)
    requires StrLt(a, b) && StrLt(b, c)
    ensures StrLt(a, c)
    decreases |a|
  {
    if a != [] && b != [] && c != [] && a[0] == b[0] && b[0] == c[0] {
      StrLtTransitive(a[1..], b[1..], c[1..]);
    }
  }

  lemma {:induction false} StrLtTotal(a: string, b: string)
    ensures a == b || StrLt(a, b) || StrLt(b, a)
    decreases |a|
  {
    if a != [] && b != [] && a[0] == b[0] {
      StrLtTotal(a[1..], b[1..]);
      if a[1..] == b[1..] { assert a == [a[0]] + a[1..] && b == [b[0]] + b[1..]; }
    }
  }

  /** A `BTreeSet<String>` as the ascending sequence of its elements. */
  predicate StrictlySorted(v: seq<string>)
  {
    forall i, j :: 0 <= i < j < |v| ==> StrLt(v[i], v[j])
  }

  /** `BTreeSet::insert` on the ascending sequence of a set. */
  function SortedInsert(v: seq<string>, x: string): (r: seq<string>)
    requires StrictlySorted(v)
    ensures StrictlySorted(r)
    ensures forall y :: y in r <==> y in v || y == x
    decreases |v|
  {
    if v == [] then [x]
    else if x == v[0] then v
    else if StrLt(x, v[0]) then
      assert forall j :: 0 <= j < |v| ==> StrLt(x, v[j]) by {
        forall j | 0 <= j < |v| ensures StrLt(x, v[j]) {
          if j > 0 { StrLtTransitive(x, v[0], v[j]); }
        }
      }
      [x] + v
    else
      StrLtTotal(x, v[0]);
      var rest := SortedInsert(v[1..], x);
      assert forall y :: y in rest ==> StrLt(v[0], y) by {
        forall y | y in rest ensures StrLt(v[0], y) {
          if y != x {
            var j :| 0 <= j < |v[1..]| && v[1..][j] == y;
            assert v[j + 1] == y;
          }
        }
      }
      [v[0]] + rest
  }

  /** Inserting the elements of `xs` one by one, starting from `v`. */
  function InsertAll(v: seq<string>, xs: seq<string>): (r: seq<string>)
    requires StrictlySorted(v)
    ensures StrictlySorted(r)
    ensures forall y :: y in r <==> y in v || y in xs
    decreases |xs|
  {
    if xs == [] then v
    else
      var w := InsertAll(v, xs[..|xs| - 1]);
      assert forall y :: y in xs <==> y in xs[..|xs| - 1] || y == xs[|xs| - 1] by {
        assert xs == xs[..|xs| - 1] + [xs[|xs| - 1]];
      }
      SortedInsert(w, xs[|xs| - 1])
  }

  lemma HeadIn(v: seq<string>)
    requires v != []
    ensures v[0] in v
  {
  }

  lemma SortedHead(v: seq<string>, y: string)
    requires StrictlySorted(v) && y in v
    ensures y == v[0] || StrLt(v[0], y)
  {
  }

  /** Two ascending sequences with the same elements are equal. */
  lemma {:induction false} StrictlySortedUnique(a: seq<string>, b: seq<string>)
    requires StrictlySorted(a) && StrictlySorted(b)
    requires forall y :: y in a <==> y in b
    ensures a == b
    decreases |a|
  {
    if a != [] && b == [] {
      HeadIn(a);
      assert false;
    } else if a == [] && b != [] {
      HeadIn(b);
      assert false;
    } else if a != [] && b != [] {
      SortedHead(a, b[0]);
      SortedHead(b, a[0]);
      if a[0] != b[0] {
        StrLtTransitive(a[0], b[0], a[0]);
        StrLtIrreflexive(a[0]);
        assert false;
      }
      assert a == [a[0]] + a[1..] && b == [b[0]] + b[1..];
      forall y ensures y in a[1..] <==> y in b[1..] {
        if y in a[1..] {
          var j :| 0 <= j < |a[1..]| && a[1..][j] == y;
          assert a[j + 1] == y;
          if y == b[0] { StrLtIrreflexive(y); }
          assert y in b;
        }
        if y in b[1..] {
          var j :| 0 <= j < |b[1..]| && b[1..][j] == y;
          assert b[j + 1] == y;
          if y == a[0] { StrLtIrreflexive(y); }
          assert y in a;
        }
      }
      StrictlySortedUnique(a[1..], b[1..]);
    }
  }

  // ---------------------------------------------------------------------
  // Decimal integers.

  function DigitValue(c: char): nat requires IsAsciiDigit(c) { c as int - '0' as int }

  function DigitChar(d: nat): (c: char)
    requires d < 10
    ensures IsAsciiDigit(c) && DigitValue(c) == d
  {
    ('0' as int + d) as char
  }

  predicate AllDigits(s: string) { forall i :: 0 <= i < |s| ==> IsAsciiDigit(s[i]) }

  /** The value of a run of decimal digits, most significant first. */
  function DigitsValue(s: string): nat
    requires AllDigits(s)
  {
    if s == [] then 0 else DigitsValue(s[..|s| - 1]) * 10 + DigitValue(s[|s| - 1])
  }

  /** `u64::to_string` / `usize::to_string`. */
  function NatToString(n: nat): (s: string)
    ensures s != [] && AllDigits(s)
    ensures DigitsValue(s) == n
    ensures n > 0 ==> s[0] != '0'
  {
    if n < 10 then [DigitChar(n)]
    else
      var s := NatToString(n / 10) + [DigitChar(n % 10)];
      assert s[..|s| - 1] == NatToString(n / 10);
      s
  }

  /** `i32::to_string` / `i64::to_string`. */
  function IntToString(i: int): (s: string)
    ensures s != []
  {
    if i < 0 then "-" + NatToString(-i) else NatToString(i)
  }

  /** Rust's `str::parse` for an integer type with range `lo..=hi`: an
      optional sign ('-' only for signed types), at least one ASCII digit,
      nothing else, and a value inside the range. */
  function ParseInt(s: string, lo: int, hi: int): (r: Option<int>)
    ensures r.Some? ==> lo <= r.value <= hi
  {
    if s == [] then None
    else
      var neg := s[0] == '-' && lo < 0;
      var digits := if s[0] == '+' || neg then s[1..] else s;
      if digits == [] || !AllDigits(digits) then None
      else
        var v: int := if neg then -(DigitsValue(digits) as int) else DigitsValue(digits);
        if lo <= v <= hi then Some(v) else None
  }

  const I32_MIN: int := -0x8000_0000
  const I32_MAX: int := 0x7FFF_FFFF
  const I64_MIN: int := -0x8000_0000_0000_0000
  const I64_MAX: int := 0x7FFF_FFFF_FFFF_FFFF
  const U64_MAX: int := 0xFFFF_FFFF_FFFF_FFFF

  /** `s.parse::<i32>()`. */
  function ParseI32(s: string): Option<int> { ParseInt(s, I32_MIN, I32_MAX) }
  /** `s.parse::<i64>()`. */
  function ParseI64(s: string): Option<int> { ParseInt(s, I64_MIN, I64_MAX) }
  /** `s.parse::<u64>()` / `s.parse::<usize>()` on a 64-bit target. */
  function ParseU64(s: string): Option<int> { ParseInt(s, 0, U64_MAX) }

  lemma ParseIntToString(n: int, lo: int, hi: int)
    requires lo <= n <= hi
    requires n < 0 ==> lo < 0
    ensures ParseInt(IntToString(n), lo, hi) == Some(n)
  {
    var s := IntToString(n);
    if n < 0 {
      assert s[1..] == NatToString(-n);
    }
  }
}
