/** Ownership matching for poster rows (`owned/mod.rs`): the fuzzy title and
    key variants a row is looked up under, applying owned flags to the rows,
    the guards of the HD-flag refresh and the handling of owned-scan
    messages. */
module Owned {
  import opened Text
  import opened Types
  import opened App

  // ------------------------------------------------------ title variants

  const POSSESSIVE_NEEDLES: seq<string> := ["'s ", "\U{2019}s "]
  const ARTICLES: seq<string> := ["the ", "a ", "an "]

  /** The candidate before the first ':' of the trimmed title. */
  function ColonHead(trimmed: string): (r: seq<string>)
    ensures |r| <= 1
    ensures r != [] ==> ':' in trimmed && r[0] != [] && ':' !in r[0]
  {
    if ':' in trimmed then
      var head := Trim(trimmed[..FirstIndexOf(trimmed, ':')]);
      if head != [] && head != trimmed then [head] else []
    else []
  }

  /** The candidate after a possessive `needle` found at `pos`: offered only
      when the text before the needle holds a space. */
  function PossessiveTail(trimmed: string, needle: string, pos: Option<nat>): (r: seq<string>)
    requires pos.Some? ==> pos.value + |needle| <= |trimmed|
    ensures |r| <= 1
    ensures r != [] ==> pos.Some? && ' ' in trimmed[..pos.value] && r[0] != [] && r[0] != trimmed
  {
    if pos.Some? && ' ' in trimmed[..pos.value] then
      var candidate := TrimStart(trimmed[pos.value + |needle|..]);
      if candidate != [] && candidate != trimmed then [candidate] else []
    else []
  }

  /** The candidate after the first occurrence of a possessive `needle`. */
  function PossessiveCandidate(trimmed: string, needle: string): seq<string>
  {
    PossessiveTail(trimmed, needle, Find(trimmed, needle))
  }

  /** The candidate with a leading `article` dropped. `trimmed.len()` is the
      UTF-8 length; the article is ASCII, so its length is its byte length. */
  function ArticleCandidate(trimmed: string, lower: string, article: string): (r: seq<string>)
    requires |lower| == |trimmed|
    ensures |r| <= 1
    ensures r != [] ==> StartsWith(lower, article) && r[0] != [] && r[0] != trimmed
  {
    if StartsWith(lower, article) && Utf8Len(trimmed) > |article| then
      var candidate := TrimStart(trimmed[|article|..]);
      if candidate != [] && candidate != trimmed then [candidate] else []
    else []
  }

  function PossessiveParts(trimmed: string, needles: seq<string>): seq<string>
  {
    if needles == [] then []
    else PossessiveParts(trimmed, needles[..|needles| - 1]) + PossessiveCandidate(trimmed, needles[|needles| - 1])
  }

  function ArticleParts(trimmed: string, lower: string, articles: seq<string>): seq<string>
    requires |lower| == |trimmed|
  {
    if articles == [] then []
    else ArticleParts(trimmed, lower, articles[..|articles| - 1]) + ArticleCandidate(trimmed, lower, articles[|articles| - 1])
  }

  /** `owned_title_variants`: the trimmed title, then its colon head, its
      possessive tails and its article-less forms. */
  function TitleVariants(title: string): seq<string>
  {
    var trimmed := Trim(title);
    if trimmed == [] then []
    else [trimmed] + ColonHead(trimmed) + PossessiveParts(trimmed, POSSESSIVE_NEEDLES)
         + ArticleParts(trimmed, ToAsciiLower(trimmed), ARTICLES)
  }

  /** No variants for a blank title; otherwise the trimmed title comes
      first, and it is followed by the colon head whenever that is not blank. */
  lemma TitleVariantsHead(title: string)
    ensures TitleVariants(title) == [] <==> IsBlank(title)
    ensures !IsBlank(title) ==> TitleVariants(title)[0] == Trim(title)
    ensures var t := Trim(title);
            t != [] && ':' in t && !IsBlank(t[..FirstIndexOf(t, ':')]) ==>
              TitleVariants(title)[1] == Trim(t[..FirstIndexOf(t, ':')])
  {
    var t := Trim(title);
    if t != [] {
      var p := PossessiveParts(t, POSSESSIVE_NEEDLES);
      var a := ArticleParts(t, ToAsciiLower(t), ARTICLES);
      FrontOfVariants(t, ColonHead(t), p, a);
      if ':' in t {
        var i := FirstIndexOf(t, ':');
        assert t[i] == ':';
        TrimInfix(t[..i]);
        assert |Trim(t[..i])| < |t|;
      }
    }
  }

  lemma FrontOfVariants(t: string, c: seq<string>, p: seq<string>, a: seq<string>)
    ensures ([t] + c + p + a)[0] == t
    ensures c != [] ==> ([t] + c + p + a)[1] == c[0]
  {
  }

  /** Every entry is a non-empty text. */
  predicate NonEmptyEntries(s: seq<string>)
  {
    forall k :: 0 <= k < |s| ==> s[k] != []
  }

  lemma NonEmptyEntriesConcat(a: seq<string>, b: seq<string>)
    requires NonEmptyEntries(a) && NonEmptyEntries(b)
    ensures NonEmptyEntries(a + b)
  {
    assert forall k :: |a| <= k < |a + b| ==> (a + b)[k] == b[k - |a|];
  }

  /** Every variant is a non-empty text. */
  lemma TitleVariantsNonEmpty(title: string)
    ensures NonEmptyEntries(TitleVariants(title))
  {
    var t := Trim(title);
    if t != [] {
      var lower := ToAsciiLower(t);
      PossessivePartsNonEmpty(t, POSSESSIVE_NEEDLES);
      ArticlePartsNonEmpty(t, lower, ARTICLES);
      VariantPartsNonEmpty(t, ColonHead(t), PossessiveParts(t, POSSESSIVE_NEEDLES), ArticleParts(t, lower, ARTICLES));
    }
  }

  lemma VariantPartsNonEmpty(t: string, colon: seq<string>, possessive: seq<string>, article: seq<string>)
    requires t != [] && |colon| <= 1 && (colon != [] ==> colon[0] != [])
    requires NonEmptyEntries(possessive) && NonEmptyEntries(article)
    ensures NonEmptyEntries([t] + colon + possessive + article)
  {
    NonEmptyEntriesConcat([t], colon);
    NonEmptyEntriesConcat([t] + colon, possessive);
    NonEmptyEntriesConcat([t] + colon + possessive, article);
  }

  lemma {:induction false} PossessivePartsNonEmpty(t: string, needles: seq<string>)
    ensures NonEmptyEntries(PossessiveParts(t, needles))
  {
    if needles != [] {
      PossessivePartsNonEmpty(t, needles[..|needles| - 1]);
      NonEmptyEntriesConcat(PossessiveParts(t, needles[..|needles| - 1]), PossessiveCandidate(t, needles[|needles| - 1]));
    }
  }

  lemma {:induction false} ArticlePartsNonEmpty(t: string, lower: string, articles: seq<string>)
    requires |lower| == |t|
    ensures NonEmptyEntries(ArticleParts(t, lower, articles))
  {
    if articles != [] {
      ArticlePartsNonEmpty(t, lower, articles[..|articles| - 1]);
      NonEmptyEntriesConcat(ArticleParts(t, lower, articles[..|articles| - 1]),
                            ArticleCandidate(t, lower, articles[|articles| - 1]));
    }
  }

  /** "The Return of Sabata" is also looked up as "Return of Sabata". */
  lemma ArticleDropped(title: string, rest: string)
    requires Trim(title) == "The " + rest && TrimStart(rest) == rest && rest != []
    ensures rest in TitleVariants(title)
  {
    var t := Trim(title);
    var lower := ToAsciiLower(t);
    TheCandidate(t, lower, rest);
    assert ArticleParts(t, lower, ARTICLES[..1]) == [rest] by {
      assert ARTICLES[..1][..0] == [];
      assert ARTICLES[..1][0] == "the ";
    }
    ArticlePartsKeep(t, lower, ARTICLES, 1);
    var parts := ArticleParts(t, lower, ARTICLES);
    assert rest in parts;
    assert TitleVariants(title) == [t] + ColonHead(t) + PossessiveParts(t, POSSESSIVE_NEEDLES) + parts;
  }

  /** The "the " article offers the rest of the title. */
  lemma TheCandidate(t: string, lower: string, rest: string)
    requires t == "The " + rest && lower == ToAsciiLower(t) && TrimStart(rest) == rest && rest != []
    ensures ArticleCandidate(t, lower, "the ") == [rest]
  {
    assert lower[..4] == "the ";
    assert t[4..] == rest;
    assert Utf8Len(t) >= |t| > 4;
  }

  lemma {:induction false} ArticlePartsKeep(t: string, lower: string, articles: seq<string>, n: nat)
    requires |lower| == |t| && n <= |articles|
    ensures forall x :: x in ArticleParts(t, lower, articles[..n]) ==> x in ArticleParts(t, lower, articles)
    decreases |articles| - n
  {
    if n < |articles| {
      assert articles[..n + 1][..n] == articles[..n];
      ArticlePartsKeep(t, lower, articles, n + 1);
    } else {
      assert articles[..n] == articles;
    }
  }

  /** `owned_title_variants`, pushing the candidates in order. */
  method OwnedTitleVariants(title: string) returns (titles: seq<string>)
    ensures titles == TitleVariants(title)
  {
    var trimmed := Trim(title);
    if trimmed == [] {
      return [];
    }
    var head := ColonStep(trimmed);
    titles := [trimmed] + head;
    titles := PushPossessives(titles, trimmed, POSSESSIVE_NEEDLES);
    titles := PushArticles(titles, trimmed, ARTICLES);
  }

  /** The colon-head step of `owned_title_variants`. */
  method ColonStep(trimmed: string) returns (found: seq<string>)
    ensures found == ColonHead(trimmed)
  {
    found := [];
    if ':' in trimmed {
      var head := Trim(trimmed[..FirstIndexOf(trimmed, ':')]);
      if head != [] && head != trimmed {
        found := [head];
      }
    }
  }

  /** The possessive loop of `owned_title_variants`. */
  method PushPossessives(titles0: seq<string>, trimmed: string, needles: seq<string>) returns (titles: seq<string>)
    ensures titles == titles0 + PossessiveParts(trimmed, needles)
  {
    titles := titles0;
    var i := 0;
    while i < |needles|
      invariant 0 <= i <= |needles|
      invariant titles == titles0 + PossessiveParts(trimmed, needles[..i])
    {
      var found := PossessiveStep(trimmed, needles[i]);
      assert needles[..i + 1][..i] == needles[..i];
      ConcatAssoc(titles0, PossessiveParts(trimmed, needles[..i]), found);
      titles := titles + found;
      i := i + 1;
    }
    assert needles[..i] == needles;
  }

  /** One needle of the possessive loop. */
  method PossessiveStep(trimmed: string, needle: string) returns (found: seq<string>)
    ensures found == PossessiveCandidate(trimmed, needle)
  {
    var pos := Find(trimmed, needle);
    found := TailStep(trimmed, needle, pos);
  }

  /** The candidate after a needle found at `pos`. */
  method TailStep(trimmed: string, needle: string, pos: Option<nat>) returns (found: seq<string>)
    requires pos.Some? ==> pos.value + |needle| <= |trimmed|
    ensures found == PossessiveTail(trimmed, needle, pos)
  {
    found := [];
    if pos.Some? && ' ' in trimmed[..pos.value] {
      var candidate := TrimStart(trimmed[pos.value + |needle|..]);
      if candidate != [] && candidate != trimmed {
        found := [candidate];
      }
    }
  }

  /** The article loop of `owned_title_variants`. */
  method PushArticles(titles0: seq<string>, trimmed: string, articles: seq<string>) returns (titles: seq<string>)
    ensures titles == titles0 + ArticleParts(trimmed, ToAsciiLower(trimmed), articles)
  {
    var lower := ToAsciiLower(trimmed);
    titles := titles0;
    var i := 0;
    while i < |articles|
      invariant 0 <= i <= |articles|
      invariant titles == titles0 + ArticleParts(trimmed, lower, articles[..i])
    {
      var found := ArticleStep(trimmed, lower, articles[i]);
      assert articles[..i + 1][..i] == articles[..i];
      ConcatAssoc(titles0, ArticleParts(trimmed, lower, articles[..i]), found);
      titles := titles + found;
      i := i + 1;
    }
    assert articles[..i] == articles;
  }

  /** One article of the article loop. */
  method ArticleStep(trimmed: string, lower: string, article: string) returns (found: seq<string>)
    requires |lower| == |trimmed|
    ensures found == ArticleCandidate(trimmed, lower, article)
  {
    found := [];
    if StartsWith(lower, article) && Utf8Len(trimmed) > |article| {
      var candidate := TrimStart(trimmed[|article|..]);
      if candidate != [] && candidate != trimmed {
        found := [candidate];
      }
    }
  }

  lemma ConcatAssoc<T>(a: seq<T>, b: seq<T>, c: seq<T>)
    ensures (a + b) + c == a + (b + c)
  {
  }

  // -------------------------------------------------------- key variants

  const YEAR_OFFSETS: seq<int> := [0, -1, 1]

  /** `i32::saturating_add`. */
  function SaturatingAddI32(a: int, b: int): (r: int)
    ensures I32_MIN <= r <= I32_MAX
    ensures I32_MIN <= a + b <= I32_MAX ==> r == a + b
    ensures a + b > I32_MAX ==> r == I32_MAX
  {
    if a + b > I32_MAX then I32_MAX else if a + b < I32_MIN then I32_MIN else a + b
  }

  function OffsetYears(y: int, offsets: seq<int>): seq<Option<int>>
  {
    if offsets == [] then []
    else
      var c := SaturatingAddI32(y, offsets[|offsets| - 1]);
      OffsetYears(y, offsets[..|offsets| - 1]) + (if c > 0 then [Some(c)] else [])
  }

  /** The years a row is looked up under: the shifted positive years, then
      no year at all. */
  function YearCandidates(year: Option<int>): seq<Option<int>>
  {
    (if year.Some? then OffsetYears(year.value, YEAR_OFFSETS) else []) + [None]
  }

  /** The three shifts, unrolled. */
  lemma OffsetYearsUnrolled(y: int)
    ensures var c0, c1, c2 := SaturatingAddI32(y, 0), SaturatingAddI32(y, -1), SaturatingAddI32(y, 1);
            OffsetYears(y, YEAR_OFFSETS) ==
              (if c0 > 0 then [Some(c0)] else []) + (if c1 > 0 then [Some(c1)] else []) + (if c2 > 0 then [Some(c2)] else [])
  {
    var c0, c1, c2 := SaturatingAddI32(y, 0), SaturatingAddI32(y, -1), SaturatingAddI32(y, 1);
    var offs := YEAR_OFFSETS;
    assert offs[..2] == [0, -1];
    assert [0, -1][..1] == [0];
    assert [0][..0] == [];
    assert OffsetYears(y, [0]) == (if c0 > 0 then [Some(c0)] else []);
    assert OffsetYears(y, [0, -1]) == OffsetYears(y, [0]) + (if c1 > 0 then [Some(c1)] else []);
    assert OffsetYears(y, offs) == OffsetYears(y, [0, -1]) + (if c2 > 0 then [Some(c2)] else []);
  }

  /** For a year y the candidates are y, y-1 and y+1, each kept only when
      positive, followed by None; without a year only None. */
  lemma YearCandidatesOrder(year: Option<int>)
    ensures year.None? ==> YearCandidates(year) == [None]
    ensures year.Some? && 1 < year.value < I32_MAX ==>
              YearCandidates(year) == [Some(year.value), Some(year.value - 1), Some(year.value + 1), None]
    ensures year.Some? && year.value == 1 ==> YearCandidates(year) == [Some(1), Some(2), None]
    ensures year.Some? && year.value < 0 ==> YearCandidates(year) == [None]
  {
    if year.Some? {
      OffsetYearsUnrolled(year.value);
    }
  }

  /** Every proper year candidate is positive, and the last one is None. */
  lemma {:induction false} OffsetYearsPositive(y: int, offsets: seq<int>)
    ensures forall k :: 0 <= k < |OffsetYears(y, offsets)| ==>
              OffsetYears(y, offsets)[k].Some? && OffsetYears(y, offsets)[k].value > 0
  {
    if offsets != [] {
      OffsetYearsPositive(y, offsets[..|offsets| - 1]);
    }
  }

  /** `make_owned_key` as a function of a title and a year. */
  function OwnedKeyOf(md5Hex: string -> string): (string, Option<int>) -> string
  {
    (t: string, y: Option<int>) => MakeOwnedKey(t, y, md5Hex)
  }

  /** The keys of one title under each year candidate, in order. */
  function KeysFor(t: string, years: seq<Option<int>>, keyOf: (string, Option<int>) -> string): (r: seq<string>)
    ensures |r| == |years|
    ensures forall j :: 0 <= j < |years| ==> r[j] == keyOf(t, years[j])
  {
    if years == [] then []
    else KeysFor(t, years[..|years| - 1], keyOf) + [keyOf(t, years[|years| - 1])]
  }

  /** The keys of every title under every year candidate, title by title. */
  function AllKeys(titles: seq<string>, years: seq<Option<int>>, keyOf: (string, Option<int>) -> string): seq<string>
  {
    if titles == [] then []
    else AllKeys(titles[..|titles| - 1], years, keyOf) + KeysFor(titles[|titles| - 1], years, keyOf)
  }

  /** `seen.insert(key)` followed by a push when the key was new. */
  function AddNew(vs: seq<string>, k: string): seq<string>
  {
    if k in vs then vs else vs + [k]
  }

  function AddAll(vs: seq<string>, ks: seq<string>): seq<string>
  {
    if ks == [] then vs else AddNew(AddAll(vs, ks[..|ks| - 1]), ks[|ks| - 1])
  }

  predicate Distinct(s: seq<string>)
  {
    forall i, j :: 0 <= i < j < |s| ==> s[i] != s[j]
  }

  /** `owned_key_variants`: the distinct keys of every title variant under
      every year candidate, in first-seen order; the plain key when there
      are none. */
  function KeyVariants(title: string, year: Option<int>, md5Hex: string -> string): seq<string>
  {
    var vs := AddAll([], AllKeys(TitleVariants(title), YearCandidates(year), OwnedKeyOf(md5Hex)));
    if vs == [] then [MakeOwnedKey(title, year, md5Hex)] else vs
  }

  /** Adding keys keeps a list distinct, and it then holds exactly the old
      entries and the added keys. */
  lemma {:induction false} AddAllKeeps(vs: seq<string>, ks: seq<string>)
    requires Distinct(vs)
    ensures Distinct(AddAll(vs, ks))
    ensures forall x :: x in AddAll(vs, ks) <==> x in vs || x in ks
  {
    if ks != [] {
      var init := ks[..|ks| - 1];
      AddAllKeeps(vs, init);
      assert ks == init + [ks[|ks| - 1]];
    }
  }

  lemma {:induction false} AddAllConcat(vs: seq<string>, a: seq<string>, b: seq<string>)
    ensures AddAll(vs, a + b) == AddAll(AddAll(vs, a), b)
  {
    if b == [] {
      assert a + b == a;
    } else {
      assert (a + b)[..|a + b| - 1] == a + b[..|b| - 1];
      AddAllConcat(vs, a, b[..|b| - 1]);
    }
  }

  /** The first key added to an empty list stays first. */
  lemma {:induction false} AddAllFirst(ks: seq<string>)
    requires ks != []
    ensures AddAll([], ks) != [] && AddAll([], ks)[0] == ks[0]
  {
    if |ks| > 1 {
      AddAllFirst(ks[..|ks| - 1]);
    }
  }

  /** The keys are exactly those of some title variant under the year
      candidates. */
  lemma {:induction false} AllKeysMember(titles: seq<string>, years: seq<Option<int>>, keyOf: (string, Option<int>) -> string, x: string)
    ensures x in AllKeys(titles, years, keyOf) <==>
              exists i :: 0 <= i < |titles| && x in KeysFor(titles[i], years, keyOf)
  {
    if titles != [] {
      var init := titles[..|titles| - 1];
      AllKeysMember(init, years, keyOf, x);
      assert forall i :: 0 <= i < |init| ==> init[i] == titles[i];
      if x in AllKeys(titles, years, keyOf) && x !in AllKeys(init, years, keyOf) {
        assert x in KeysFor(titles[|titles| - 1], years, keyOf);
      }
    }
  }

  lemma {:induction false} AllKeysFirst(titles: seq<string>, years: seq<Option<int>>, keyOf: (string, Option<int>) -> string)
    requires titles != [] && years != []
    ensures AllKeys(titles, years, keyOf) != []
    ensures AllKeys(titles, years, keyOf)[0] == keyOf(titles[0], years[0])
  {
    if |titles| > 1 {
      AllKeysFirst(titles[..|titles| - 1], years, keyOf);
    } else {
      assert titles[..0] == [];
    }
  }

  /** `owned_key_variants` returns a non-empty list without duplicates
      whose keys are exactly those of a title variant under a year
      candidate; the first is the trimmed title under the first candidate. */
  lemma KeyVariantsShape(title: string, year: Option<int>, md5Hex: string -> string)
    ensures KeyVariants(title, year, md5Hex) != []
    ensures Distinct(KeyVariants(title, year, md5Hex))
    ensures IsBlank(title) ==> KeyVariants(title, year, md5Hex) == [MakeOwnedKey(title, year, md5Hex)]
    ensures !IsBlank(title) ==> KeyVariants(title, year, md5Hex)[0] == MakeOwnedKey(Trim(title), YearCandidates(year)[0], md5Hex)
    ensures !IsBlank(title) ==> forall x :: x in KeyVariants(title, year, md5Hex) <==>
              exists i :: 0 <= i < |TitleVariants(title)| &&
                x in KeysFor(TitleVariants(title)[i], YearCandidates(year), OwnedKeyOf(md5Hex))
  {
    TitleVariantsHead(title);
    CollectedKeysShape(TitleVariants(title), YearCandidates(year), OwnedKeyOf(md5Hex));
  }

  /** The distinct keys of the titles under the years: without duplicates,
      exactly those of some title, and led by the first title under the
      first year. */
  lemma CollectedKeysShape(titles: seq<string>, years: seq<Option<int>>, keyOf: (string, Option<int>) -> string)
    requires years != []
    ensures Distinct(AddAll([], AllKeys(titles, years, keyOf)))
    ensures titles == [] <==> AddAll([], AllKeys(titles, years, keyOf)) == []
    ensures titles != [] ==> AddAll([], AllKeys(titles, years, keyOf))[0] == keyOf(titles[0], years[0])
    ensures forall x :: x in AddAll([], AllKeys(titles, years, keyOf)) <==>
              exists i :: 0 <= i < |titles| && x in KeysFor(titles[i], years, keyOf)
  {
    var ks := AllKeys(titles, years, keyOf);
    AddAllKeeps([], ks);
    forall x {
      AllKeysMember(titles, years, keyOf, x);
    }
    if titles != [] {
      AllKeysFirst(titles, years, keyOf);
      AddAllFirst(ks);
    } else {
      assert ks == [];
    }
  }

  /** The year loop of `owned_key_variants`. */
  method OwnedYearCandidates(year: Option<int>) returns (yearCandidates: seq<Option<int>>)
    ensures yearCandidates == YearCandidates(year)
  {
    yearCandidates := [];
    if year.Some? {
      var i := 0;
      while i < |YEAR_OFFSETS|
        invariant 0 <= i <= |YEAR_OFFSETS|
        invariant yearCandidates == OffsetYears(year.value, YEAR_OFFSETS[..i])
      {
        var candidate := SaturatingAddI32(year.value, YEAR_OFFSETS[i]);
        if candidate > 0 {
          yearCandidates := yearCandidates + [Some(candidate)];
        }
        assert YEAR_OFFSETS[..i + 1][..i] == YEAR_OFFSETS[..i];
        i := i + 1;
      }
      assert YEAR_OFFSETS[..i] == YEAR_OFFSETS;
    }
    yearCandidates := yearCandidates + [None];
  }

  /** `owned_key_variants`, with the `seen` set and the pushes. */
  method OwnedKeyVariants(title: string, year: Option<int>, md5Hex: string -> string) returns (variants: seq<string>)
    ensures variants == KeyVariants(title, year, md5Hex)
  {
    var titles := OwnedTitleVariants(title);
    var yearCandidates := OwnedYearCandidates(year);
    variants := CollectKeys(titles, yearCandidates, OwnedKeyOf(md5Hex));
    if variants == [] {
      variants := [MakeOwnedKey(title, year, md5Hex)];
    }
  }

  /** The two nested loops of `owned_key_variants`, for any key function. */
  method CollectKeys(titles: seq<string>, yearCandidates: seq<Option<int>>, keyOf: (string, Option<int>) -> string)
    returns (variants: seq<string>)
    ensures variants == AddAll([], AllKeys(titles, yearCandidates, keyOf))
  {
    var seen: set<string> := {};
    variants := [];
    var t := 0;
    while t < |titles|
      invariant 0 <= t <= |titles|
      invariant variants == AddAll([], AllKeys(titles[..t], yearCandidates, keyOf))
      invariant forall x :: x in seen <==> x in variants
    {
      variants, seen := AddTitleKeys(variants, seen, titles[t], yearCandidates, keyOf);
      AddAllConcat([], AllKeys(titles[..t], yearCandidates, keyOf), KeysFor(titles[t], yearCandidates, keyOf));
      assert titles[..t + 1][..t] == titles[..t];
      t := t + 1;
    }
    assert titles[..t] == titles;
  }

  /** The inner loop of `owned_key_variants`: one title under each year. */
  method AddTitleKeys(variants0: seq<string>, seen0: set<string>, t: string, years: seq<Option<int>>,
                      keyOf: (string, Option<int>) -> string)
    returns (variants: seq<string>, seen: set<string>)
    requires forall x :: x in seen0 <==> x in variants0
    ensures variants == AddAll(variants0, KeysFor(t, years, keyOf))
    ensures forall x :: x in seen <==> x in variants
  {
    variants, seen := variants0, seen0;
    var j := 0;
    while j < |years|
      invariant 0 <= j <= |years|
      invariant variants == AddAll(variants0, KeysFor(t, years[..j], keyOf))
      invariant forall x :: x in seen <==> x in variants
    {
      var key := keyOf(t, years[j]);
      if key !in seen {
        seen := seen + {key};
        variants := variants + [key];
      }
      assert years[..j + 1][..j] == years[..j];
      j := j + 1;
    }
    assert years[..j] == years;
  }

  // ------------------------------------------------------- owned flags

  /** The first candidate the key set holds. */
  function FirstOwned(cands: seq<string>, keys: set<string>): (r: Option<string>)
    ensures r.Some? ==> r.value in keys && r.value in cands
    ensures r.None? <==> forall k :: 0 <= k < |cands| ==> cands[k] !in keys
  {
    if cands == [] then None
    else if cands[0] in keys then Some(cands[0])
    else
      var r := FirstOwned(cands[1..], keys);
      assert forall k :: 1 <= k < |cands| ==> cands[k] == cands[1..][k - 1];
      r
  }

  /** The key variants of a title and a year. */
  type VariantsOf = (string, Option<int>) -> seq<string>

  /** `owned_key_variants` as a value. */
  function OwnedVariantsOf(md5Hex: string -> string): VariantsOf
  {
    (t: string, y: Option<int>) => KeyVariants(t, y, md5Hex)
  }

  /** The key a row is matched under: the first owned variant, else its
      current key when that is owned. */
  function MatchedKey(row: PosterRow, keys: set<string>, vf: VariantsOf): Option<string>
  {
    var m := FirstOwned(vf(row.title, row.year), keys);
    if m.None? && row.ownedKey in keys then Some(row.ownedKey) else m
  }

  /** A row after `apply_owned_flags`, given how variants are computed. */
  function FlagRow(row: PosterRow, keys: set<string>, modified: Option<map<string, Option<nat>>>, vf: VariantsOf): PosterRow
  {
    match MatchedKey(row, keys, vf)
    case Some(found) =>
      row.(owned := true, ownedKey := found,
           ownedModified := if modified.Some? && found in modified.value then modified.value[found] else None)
    case None => row.(owned := false, ownedModified := None)
  }

  /** A row is owned exactly when one of its key variants or its current key
      is in the set. An owned row's key is in the set and is dated from the
      map; an unowned row keeps its key and loses its date. Nothing else in
      the row changes. */
  lemma FlagRowOwned(row: PosterRow, keys: set<string>, modified: Option<map<string, Option<nat>>>, vf: VariantsOf)
    ensures var r := FlagRow(row, keys, modified, vf);
            var vs := vf(row.title, row.year);
            r.owned <==> (exists k :: 0 <= k < |vs| && vs[k] in keys) || row.ownedKey in keys
    ensures var r := FlagRow(row, keys, modified, vf);
            r.owned ==> r.ownedKey in keys &&
                        r.ownedModified == (if modified.Some? && r.ownedKey in modified.value then modified.value[r.ownedKey] else None)
    ensures var r := FlagRow(row, keys, modified, vf);
            !r.owned ==> r.ownedKey == row.ownedKey && r.ownedModified.None?
    ensures var r := FlagRow(row, keys, modified, vf);
            r.(owned := row.owned, ownedKey := row.ownedKey, ownedModified := row.ownedModified) == row
  {
  }

  /** The variant `apply_owned_flags` records is the first one owned. */
  lemma FlagRowFirstVariant(row: PosterRow, keys: set<string>, modified: Option<map<string, Option<nat>>>, vf: VariantsOf, k: nat)
    requires var vs := vf(row.title, row.year); k < |vs| && vs[k] in keys
    requires forall j :: 0 <= j < k ==> vf(row.title, row.year)[j] !in keys
    ensures FlagRow(row, keys, modified, vf).ownedKey == vf(row.title, row.year)[k]
  {
    FirstOwnedAt(vf(row.title, row.year), keys, k);
  }

  lemma {:induction false} FirstOwnedAt(cands: seq<string>, keys: set<string>, k: nat)
    requires k < |cands| && cands[k] in keys
    requires forall j :: 0 <= j < k ==> cands[j] !in keys
    ensures FirstOwned(cands, keys) == Some(cands[k])
  {
    if k > 0 {
      FirstOwnedAt(cands[1..], keys, k - 1);
    }
  }

  /** `apply_owned_flags` on one row: the first owned variant, else the
      current key. `variantsOf` computes `owned_key_variants`. */
  method MatchRow(row: PosterRow, keys: set<string>, variantsOf: VariantsOf) returns (matched: Option<string>)
    ensures matched == MatchedKey(row, keys, variantsOf)
  {
    var variants := variantsOf(row.title, row.year);
    var i := 0;
    while i < |variants| && variants[i] !in keys
      invariant 0 <= i <= |variants|
      invariant FirstOwned(variants, keys) == FirstOwned(variants[i..], keys)
    {
      assert variants[i..][1..] == variants[i + 1..];
      i := i + 1;
    }
    matched := if i < |variants| then Some(variants[i]) else None;
    if matched.None? && row.ownedKey in keys {
      matched := Some(row.ownedKey);
    }
  }

  /** The body of the row loop of `apply_owned_flags`. */
  method FlagOne(row: PosterRow, keys: set<string>, modified: Option<map<string, Option<nat>>>, variantsOf: VariantsOf)
    returns (flagged: PosterRow)
    ensures flagged == FlagRow(row, keys, modified, variantsOf)
  {
    var matched := MatchRow(row, keys, variantsOf);
    if matched.Some? {
      var found := matched.value;
      flagged := row.(owned := true, ownedKey := found,
                      ownedModified := if modified.Some? && found in modified.value then modified.value[found] else None);
    } else {
      flagged := row.(owned := false, ownedModified := None);
    }
  }

  /** Every row flagged against the key set, in order. */
  function FlaggedRows(rows: seq<PosterRow>, keys: set<string>, modified: Option<map<string, Option<nat>>>,
                       vf: VariantsOf): (r: seq<PosterRow>)
    ensures |r| == |rows|
  {
    if rows == [] then []
    else FlaggedRows(rows[..|rows| - 1], keys, modified, vf) + [FlagRow(rows[|rows| - 1], keys, modified, vf)]
  }

  /** Row `k` of the flagged rows is row `k` flagged. */
  lemma {:induction false} FlaggedRowsAt(rows: seq<PosterRow>, keys: set<string>, modified: Option<map<string, Option<nat>>>,
                                         vf: VariantsOf, k: nat)
    requires k < |rows|
    ensures FlaggedRows(rows, keys, modified, vf)[k] == FlagRow(rows[k], keys, modified, vf)
  {
    if k < |rows| - 1 {
      FlaggedRowsAt(rows[..|rows| - 1], keys, modified, vf, k);
    }
  }

  /** The row loop of `apply_owned_flags`. */
  method FlagRows(rows: seq<PosterRow>, keys: set<string>, modified: Option<map<string, Option<nat>>>, variantsOf: VariantsOf)
    returns (rs: seq<PosterRow>)
    ensures rs == FlaggedRows(rows, keys, modified, variantsOf)
  {
    rs := [];
    var i := 0;
    while i < |rows|
      invariant 0 <= i <= |rows|
      invariant rs == FlaggedRows(rows[..i], keys, modified, variantsOf)
    {
      var flagged := FlagOne(rows[i], keys, modified, variantsOf);
      assert rows[..i + 1][..i] == rows[..i];
      rs := rs + [flagged];
      i := i + 1;
    }
    assert rows[..i] == rows;
  }

  /** `apply_owned_flags`: nothing without a key set; otherwise every row
      is flagged against it. `variantsOf` computes `owned_key_variants`
      (`OwnedVariantsOf`). */
  method ApplyOwnedFlags(app: PexApp, variantsOf: VariantsOf)
    modifies app`rows
    ensures app.ownedKeys.None? ==> app.rows == old(app.rows)
    ensures app.ownedKeys.Some? ==> app.rows == FlaggedRows(old(app.rows), app.ownedKeys.value, app.ownedModified, variantsOf)
    ensures app.ownedKeys == old(app.ownedKeys) && app.ownedModified == old(app.ownedModified)
    ensures app.ownedHdKeys == old(app.ownedHdKeys) && app.ownedScanMessages == old(app.ownedScanMessages)
    ensures app.ownedScanInProgress == old(app.ownedScanInProgress) && app.bootPhase == old(app.bootPhase)
    ensures app.prefsDirty == old(app.prefsDirty)
  {
    if app.ownedKeys.None? {
      return;
    }
    var rs := FlagRows(app.rows, app.ownedKeys.value, app.ownedModified, variantsOf);
    app.rows := rs;
  }

  /** The rows as `apply_owned_flags` leaves them: unchanged without a key
      set, flagged against it otherwise. */
  function OwnedFlagged(rows: seq<PosterRow>, keys: Option<set<string>>, modified: Option<map<string, Option<nat>>>,
                        vf: VariantsOf): (r: seq<PosterRow>)
    ensures |r| == |rows|
  {
    if keys.None? then rows else FlaggedRows(rows, keys.value, modified, vf)
  }

  // ----------------------------------------------------- HD-flag refresh

  /** `config::OwnedSourceKind`. */
  datatype OwnedSourceKind = Filesystem | PlexLibrary

  const BUSY_ERROR: string := "Another owned-library operation is already running; please wait."
  const PLEX_HD_ERROR: string := "HD flags are sourced directly from the Plex library database; rerun the owned scan instead."
  const EMPTY_MANIFEST_ERROR: string := "Owned manifest is empty. Run 'Refresh owned scan' once before refreshing HD flags."
  const HD_REFRESH_MESSAGE: string := "Stage 3/4 - Refreshing HD flags using cached manifest."

  /** The guards of `start_owned_hd_refresh`: a running scan, a Plex-library
      source and an empty manifest are refused without starting anything;
      otherwise a scan is marked as running and announced. The configured
      source and whether the stored manifest is empty are inputs. */
  method StartOwnedHdRefresh(app: PexApp, source: OwnedSourceKind, manifestEmpty: bool) returns (r: Result<()>)
    modifies app`ownedScanInProgress, app`ownedScanMessages
    ensures r.Err? <==> old(app.ownedScanInProgress) || source == PlexLibrary || manifestEmpty
    ensures old(app.ownedScanInProgress) ==> r == Err(BUSY_ERROR)
    ensures !old(app.ownedScanInProgress) && source == PlexLibrary ==> r == Err(PLEX_HD_ERROR)
    ensures !old(app.ownedScanInProgress) && source == Filesystem && manifestEmpty ==> r == Err(EMPTY_MANIFEST_ERROR)
    ensures r.Err? ==> app.ownedScanInProgress == old(app.ownedScanInProgress) &&
                       app.ownedScanMessages == old(app.ownedScanMessages)
    ensures r.Ok? ==> app.ownedScanInProgress &&
                      app.ownedScanMessages == PushMessage(old(app.ownedScanMessages), HD_REFRESH_MESSAGE)
    ensures app.rows == old(app.rows) && app.ownedKeys == old(app.ownedKeys)
  {
    if app.ownedScanInProgress {
      return Err(BUSY_ERROR);
    }
    if source == PlexLibrary {
      return Err(PLEX_HD_ERROR);
    }
    if manifestEmpty {
      return Err(EMPTY_MANIFEST_ERROR);
    }
    app.ownedScanInProgress := true;
    app.RecordOwnedMessage(HD_REFRESH_MESSAGE);
    return Ok(());
  }

  // --------------------------------------------------- owned-scan polling

  function ScanErrorText(e: string): string { "Owned scan error: " + e }

  function ScanCompleteText(count: nat): string
  {
    "Owned scan complete (" + IntToString(count) + " titles)."
  }

  /** The line `poll_owned_scan` records for a message. */
  function MessageText(m: OwnedMsg): string
  {
    match m
    case OwnedInfo(s) => s
    case OwnedError(e) => ScanErrorText(e)
    case OwnedDone(keys, _) => ScanCompleteText(|keys|)
  }

  /** The message log after recording each message in turn. */
  function LogAfter(log: seq<string>, msgs: seq<OwnedMsg>): (r: seq<string>)
    ensures msgs != [] ==> r != [] && r[0] == MessageText(msgs[|msgs| - 1])
    ensures |r| <= MAX_MESSAGES || r == log
  {
    if msgs == [] then log else PushMessage(LogAfter(log, msgs[..|msgs| - 1]), MessageText(msgs[|msgs| - 1]))
  }

  /** The last `Done` among the messages, if any: the scan result whose
      keys and dates stay in place after `poll_owned_scan`. */
  function LastDone(msgs: seq<OwnedMsg>): (r: Option<OwnedMsg>)
    ensures r.Some? ==> r.value.OwnedDone? &&
                        exists k :: 0 <= k < |msgs| && msgs[k] == r.value &&
                                    forall j :: k < j < |msgs| ==> !msgs[j].OwnedDone?
    ensures r.None? ==> forall k :: 0 <= k < |msgs| ==> !msgs[k].OwnedDone?
  {
    if msgs == [] then None
    else if msgs[|msgs| - 1].OwnedDone? then Some(msgs[|msgs| - 1])
    else
      var r := LastDone(msgs[..|msgs| - 1]);
      assert forall k :: 0 <= k < |msgs| - 1 ==> msgs[..|msgs| - 1][k] == msgs[k];
      r
  }

  /** The key set after the messages: that of the last `Done`, if any. */
  function KeysAfter(keys: Option<set<string>>, msgs: seq<OwnedMsg>): (r: Option<set<string>>)
    ensures r != keys ==> exists k :: 0 <= k < |msgs| && msgs[k].OwnedDone? && r == Some(msgs[k].keys)
  {
    match LastDone(msgs)
    case None => keys
    case Some(m) => Some(m.keys)
  }

  /** The dates after the messages: those of the last `Done`, if any. */
  function ModifiedAfter(modified: Option<map<string, Option<nat>>>, msgs: seq<OwnedMsg>): (r: Option<map<string, Option<nat>>>)
    ensures r != modified ==> exists k :: 0 <= k < |msgs| && msgs[k].OwnedDone? && r == Some(msgs[k].modified)
  {
    match LastDone(msgs)
    case None => modified
    case Some(m) => Some(m.modified)
  }

  /** The rows after the messages: each `Done` flags them against its keys
      and dates. */
  function RowsAfter(rows: seq<PosterRow>, msgs: seq<OwnedMsg>, vf: VariantsOf): (r: seq<PosterRow>)
    ensures |r| == |rows|
  {
    if msgs == [] then rows
    else
      var prev := RowsAfter(rows, msgs[..|msgs| - 1], vf);
      var m := msgs[|msgs| - 1];
      if m.OwnedDone? then FlaggedRows(prev, m.keys, Some(m.modified), vf) else prev
  }

  /** Once a scan has finished, every owned row's key is in the reported
      key set and its date is the one reported for that key, and a row that
      is not owned has no date; the other fields of the rows are as they
      were. */
  lemma {:induction false} RowsAfterConsistent(rows: seq<PosterRow>, msgs: seq<OwnedMsg>, vf: VariantsOf, i: nat)
    requires AnyDone(msgs) && i < |rows|
    ensures KeysAfter(None, msgs).Some? && ModifiedAfter(None, msgs).Some?
    ensures var r := RowsAfter(rows, msgs, vf)[i];
            var modified := ModifiedAfter(None, msgs).value;
            (r.owned ==> r.ownedKey in KeysAfter(None, msgs).value &&
                         r.ownedModified == (if r.ownedKey in modified then modified[r.ownedKey] else None)) &&
            (!r.owned ==> r.ownedModified.None?)
    ensures RowsAfter(rows, msgs, vf)[i].(owned := rows[i].owned, ownedKey := rows[i].ownedKey,
                                          ownedModified := rows[i].ownedModified) == rows[i]
  {
    var init := msgs[..|msgs| - 1];
    var m := msgs[|msgs| - 1];
    var prev := RowsAfter(rows, init, vf);
    if m.OwnedDone? {
      FlaggedRowsAt(prev, m.keys, Some(m.modified), vf, i);
      FlagRowOwned(prev[i], m.keys, Some(m.modified), vf);
      if AnyDone(init) {
        RowsAfterConsistent(rows, init, vf, i);
      } else {
        RowsAfterNoDone(rows, init, vf);
      }
    } else {
      RowsAfterConsistent(rows, init, vf, i);
    }
  }

  /** Without a `Done` the rows are untouched. */
  lemma {:induction false} RowsAfterNoDone(rows: seq<PosterRow>, msgs: seq<OwnedMsg>, vf: VariantsOf)
    requires !AnyDone(msgs)
    ensures RowsAfter(rows, msgs, vf) == rows
  {
    if msgs != [] {
      RowsAfterNoDone(rows, msgs[..|msgs| - 1], vf);
    }
  }

  /** Whether a scan is running after the messages: the last one decides
      (`Info` starts, `Error` and `Done` end). */
  function InProgressAfter(running: bool, msgs: seq<OwnedMsg>): bool
  {
    if msgs == [] then running else msgs[|msgs| - 1].OwnedInfo?
  }

  /** Whether some message reports a finished scan. */
  predicate AnyDone(msgs: seq<OwnedMsg>)
  {
    msgs != [] && (AnyDone(msgs[..|msgs| - 1]) || msgs[|msgs| - 1].OwnedDone?)
  }

  lemma {:induction false} AnyDoneExists(msgs: seq<OwnedMsg>)
    ensures AnyDone(msgs) <==> exists k :: 0 <= k < |msgs| && msgs[k].OwnedDone?
  {
    if msgs != [] {
      var init := msgs[..|msgs| - 1];
      AnyDoneExists(init);
      assert forall k :: 0 <= k < |init| ==> init[k] == msgs[k];
    }
  }

  /** The fields `poll_owned_scan` reads and writes. */
  datatype OwnedView = OwnedView(
    rows: seq<PosterRow>, ownedKeys: Option<set<string>>, ownedHdKeys: Option<set<string>>,
    ownedModified: Option<map<string, Option<nat>>>, inProgress: bool, messages: seq<string>,
    bootPhase: BootPhase, prefsDirty: bool)

  function OwnedViewOf(app: PexApp): OwnedView
    reads app
  {
    OwnedView(app.rows, app.ownedKeys, app.ownedHdKeys, app.ownedModified, app.ownedScanInProgress,
              app.ownedScanMessages, app.bootPhase, app.prefsDirty)
  }

  /** What one message does to those fields. */
  function AfterMsg(v: OwnedView, m: OwnedMsg, hdTxt: Option<string>, vf: VariantsOf): OwnedView
  {
    var logged := v.(messages := PushMessage(v.messages, MessageText(m)), inProgress := m.OwnedInfo?);
    if m.OwnedDone? then
      logged.(rows := FlaggedRows(v.rows, m.keys, Some(m.modified), vf), ownedKeys := Some(m.keys),
              ownedHdKeys := SidecarSet(hdTxt), ownedModified := Some(m.modified), prefsDirty := true,
              bootPhase := BootReady)
    else logged
  }

  /** What the messages do, first to last. */
  function AfterMsgs(v: OwnedView, msgs: seq<OwnedMsg>, hdTxt: Option<string>, vf: VariantsOf): OwnedView
  {
    if msgs == [] then v else AfterMsg(AfterMsgs(v, msgs[..|msgs| - 1], hdTxt, vf), msgs[|msgs| - 1], hdTxt, vf)
  }

  /** After the messages the log holds each of them, newest first; the
      key set and the dates are those of the last `Done`, the rows are
      flagged by each `Done` in turn, the HD keys are reread from the
      sidecar when some `Done` came, and a `Done` ends the boot phase and
      marks the preferences dirty. */
  lemma {:induction false} AfterMsgsFields(v: OwnedView, msgs: seq<OwnedMsg>, hdTxt: Option<string>, vf: VariantsOf)
    ensures var w := AfterMsgs(v, msgs, hdTxt, vf);
            w.messages == LogAfter(v.messages, msgs) && w.ownedKeys == KeysAfter(v.ownedKeys, msgs) &&
            w.ownedModified == ModifiedAfter(v.ownedModified, msgs) && w.rows == RowsAfter(v.rows, msgs, vf) &&
            w.inProgress == InProgressAfter(v.inProgress, msgs) &&
            w.ownedHdKeys == (if AnyDone(msgs) then SidecarSet(hdTxt) else v.ownedHdKeys)
    ensures AnyDone(msgs) ==> AfterMsgs(v, msgs, hdTxt, vf).bootPhase == BootReady && AfterMsgs(v, msgs, hdTxt, vf).prefsDirty
    ensures !AnyDone(msgs) ==> AfterMsgs(v, msgs, hdTxt, vf).bootPhase == v.bootPhase &&
                               AfterMsgs(v, msgs, hdTxt, vf).prefsDirty == v.prefsDirty
  {
    if msgs != [] {
      AfterMsgsFields(v, msgs[..|msgs| - 1], hdTxt, vf);
    }
  }

  /** One message of `poll_owned_scan`. `hdTxt` is the text of the HD
      sidecar file that `load_owned_hd_sidecar` reads (None when it cannot
      be read). */
  method HandleOwnedMsg(app: PexApp, msg: OwnedMsg, hdTxt: Option<string>, variantsOf: VariantsOf)
    modifies app`rows, app`ownedKeys, app`ownedHdKeys, app`ownedModified, app`prefsDirty,
             app`ownedScanInProgress, app`ownedScanMessages, app`bootPhase
    ensures app.ownedScanMessages == PushMessage(old(app.ownedScanMessages), MessageText(msg))
    ensures app.ownedScanInProgress == msg.OwnedInfo?
    ensures !msg.OwnedDone? ==>
              app.rows == old(app.rows) && app.ownedKeys == old(app.ownedKeys) &&
              app.ownedHdKeys == old(app.ownedHdKeys) && app.ownedModified == old(app.ownedModified) &&
              app.bootPhase == old(app.bootPhase) && app.prefsDirty == old(app.prefsDirty)
    ensures msg.OwnedDone? ==>
              app.ownedKeys == Some(msg.keys) && app.ownedHdKeys == SidecarSet(hdTxt) &&
              app.ownedModified == Some(msg.modified) && app.prefsDirty && app.bootPhase == BootReady &&
              app.rows == FlaggedRows(old(app.rows), msg.keys, Some(msg.modified), variantsOf)
    ensures OwnedViewOf(app) == AfterMsg(old(OwnedViewOf(app)), msg, hdTxt, variantsOf)
  {
    match msg {
      case OwnedInfo(s) =>
        app.RecordOwnedMessage(s);
        app.ownedScanInProgress := true;
      case OwnedError(e) =>
        app.RecordOwnedMessage(ScanErrorText(e));
        app.ownedScanInProgress := false;
      case OwnedDone(keys, modified) =>
        FinishOwnedScan(app, keys, modified, hdTxt, variantsOf);
    }
  }

  /** The `Done` arm of `poll_owned_scan`: stores the scan's keys, flags the
      rows, marks the preferences dirty and ends the boot phase. */
  method FinishOwnedScan(app: PexApp, keys: set<string>, modified: map<string, Option<nat>>,
                         hdTxt: Option<string>, variantsOf: VariantsOf)
    modifies app`rows, app`ownedKeys, app`ownedHdKeys, app`ownedModified, app`prefsDirty,
             app`ownedScanInProgress, app`ownedScanMessages, app`bootPhase
    ensures app.ownedScanMessages == PushMessage(old(app.ownedScanMessages), ScanCompleteText(|keys|))
    ensures !app.ownedScanInProgress
    ensures app.ownedKeys == Some(keys) && app.ownedHdKeys == SidecarSet(hdTxt)
    ensures app.ownedModified == Some(modified) && app.prefsDirty && app.bootPhase == BootReady
    ensures app.rows == FlaggedRows(old(app.rows), keys, Some(modified), variantsOf)
  {
    var count := |keys|;
    StoreOwnedKeys(app, keys, modified, hdTxt, variantsOf);
    app.prefsDirty := true;
    app.ownedScanInProgress := false;
    app.RecordOwnedMessage(ScanCompleteText(count));
    if app.bootPhase != BootReady {
      app.bootPhase := BootReady;
    }
  }

  /** Stores a finished scan's keys and dates and flags the rows with them. */
  method StoreOwnedKeys(app: PexApp, keys: set<string>, modified: map<string, Option<nat>>,
                        hdTxt: Option<string>, variantsOf: VariantsOf)
    modifies app`ownedKeys, app`ownedHdKeys, app`ownedModified, app`rows
    ensures app.ownedKeys == Some(keys) && app.ownedHdKeys == SidecarSet(hdTxt) && app.ownedModified == Some(modified)
    ensures app.rows == FlaggedRows(old(app.rows), keys, Some(modified), variantsOf)
    ensures app.ownedScanMessages == old(app.ownedScanMessages) && app.bootPhase == old(app.bootPhase)
  {
    app.ownedKeys := Some(keys);
    app.ownedHdKeys := LoadSidecarFile(hdTxt);
    app.ownedModified := Some(modified);
    ApplyOwnedFlags(app, variantsOf);
  }

  /** `poll_owned_scan`: without a receiver nothing happens; otherwise the
      queued messages are handled in order, and a disconnected channel ends
      the scan. */
  method PollOwnedScan(app: PexApp, hasReceiver: bool, msgs: seq<OwnedMsg>, disconnected: bool,
                       hdTxt: Option<string>, variantsOf: VariantsOf)
    modifies app`rows, app`ownedKeys, app`ownedHdKeys, app`ownedModified, app`prefsDirty,
             app`ownedScanInProgress, app`ownedScanMessages, app`bootPhase
    ensures !hasReceiver ==> app.rows == old(app.rows) && app.ownedKeys == old(app.ownedKeys) &&
                             app.ownedHdKeys == old(app.ownedHdKeys) &&
                             app.ownedModified == old(app.ownedModified) &&
                             app.ownedScanInProgress == old(app.ownedScanInProgress) &&
                             app.ownedScanMessages == old(app.ownedScanMessages) &&
                             app.prefsDirty == old(app.prefsDirty) && app.bootPhase == old(app.bootPhase)
    ensures hasReceiver ==> app.ownedScanMessages == LogAfter(old(app.ownedScanMessages), msgs)
    ensures hasReceiver ==> app.ownedKeys == KeysAfter(old(app.ownedKeys), msgs)
    ensures hasReceiver ==> app.ownedScanInProgress == (!disconnected && InProgressAfter(old(app.ownedScanInProgress), msgs))
    ensures hasReceiver && AnyDone(msgs) ==> app.bootPhase == BootReady && app.prefsDirty
    ensures hasReceiver && !AnyDone(msgs) ==> app.rows == old(app.rows) && app.bootPhase == old(app.bootPhase) &&
                                              app.prefsDirty == old(app.prefsDirty)
    ensures hasReceiver ==> app.rows == RowsAfter(old(app.rows), msgs, variantsOf)
    ensures hasReceiver ==> app.ownedModified == ModifiedAfter(old(app.ownedModified), msgs)
    ensures hasReceiver ==> app.ownedHdKeys == (if AnyDone(msgs) then SidecarSet(hdTxt) else old(app.ownedHdKeys))
  {
    if !hasReceiver {
      return;
    }
    ghost var v0 := OwnedViewOf(app);
    HandleOwnedMsgs(app, msgs, hdTxt, variantsOf);
    AfterMsgsFields(v0, msgs, hdTxt, variantsOf);
    if !AnyDone(msgs) {
      RowsAfterNoDone(v0.rows, msgs, variantsOf);
    }
    if disconnected {
      app.ownedScanInProgress := false;
    }
  }

  /** The receive loop of `poll_owned_scan`: each queued message handled
      in turn. */
  method HandleOwnedMsgs(app: PexApp, msgs: seq<OwnedMsg>, hdTxt: Option<string>, variantsOf: VariantsOf)
    modifies app`rows, app`ownedKeys, app`ownedHdKeys, app`ownedModified, app`prefsDirty,
             app`ownedScanInProgress, app`ownedScanMessages, app`bootPhase
    ensures OwnedViewOf(app) == AfterMsgs(old(OwnedViewOf(app)), msgs, hdTxt, variantsOf)
  {
    var i := 0;
    while i < |msgs|
      invariant 0 <= i <= |msgs|
      invariant OwnedViewOf(app) == AfterMsgs(old(OwnedViewOf(app)), msgs[..i], hdTxt, variantsOf)
    {
      HandleOwnedMsg(app, msgs[i], hdTxt, variantsOf);
      assert msgs[..i + 1][..i] == msgs[..i];
      i := i + 1;
    }
    assert msgs[..i] == msgs;
  }
}
