// `std::path::Path` on Unix paths written with '/': components, file name,
// stem, extension and component-wise prefix tests, as the application uses
// them on cache, library and media paths.

module Paths {
  import opened Text

  datatype Component = RootDir | CurDir | ParentDir | Normal(name: string)

  /** The segments of `p` that carry a component: empty segments (from
      repeated or trailing '/') and "." segments drop out. */
  function Segments(parts: seq<string>): (r: seq<string>)
    ensures forall k :: 0 <= k < |r| ==> r[k] != [] && r[k] != "."
  {
    if parts == [] then []
    else
      var rest := Segments(parts[..|parts| - 1]);
      var last := parts[|parts| - 1];
      if last == [] || last == "." then rest else rest + [last]
  }

  function ToComponent(seg: string): Component
  {
    if seg == ".." then ParentDir else Normal(seg)
  }

  /** `Path::components`: a leading '/' is the root, a leading "." of a
      relative path is kept as the current directory, ".." is the parent. */
  function Components(p: string): (cs: seq<Component>)
  {
    var parts := Split(p, '/');
    var rooted := p != [] && p[0] == '/';
    var lead := if rooted then [RootDir]
                else if parts[0] == "." then [CurDir]
                else [];
    lead + seq(|Segments(parts)|, k requires 0 <= k < |Segments(parts)| => ToComponent(Segments(parts)[k]))
  }

  /** `Path::file_name`: the last component when it is a normal name. */
  function FileName(p: string): (r: Option<string>)
    ensures r.Some? ==> '/' !in r.value && r.value != []
  {
    var cs := Components(p);
    if cs != [] && cs[|cs| - 1].Normal? then
      SegmentOfComponent(p, |cs| - 1);
      Some(cs[|cs| - 1].name)
    else None
  }

  /** `Path::parent` followed by `file_name`: the name of the directory
      that holds `p`, when it has a normal name. */
  function ParentFileName(p: string): (r: Option<string>)
    ensures r.Some? ==> '/' !in r.value && r.value != []
  {
    var cs := Components(p);
    if |cs| >= 2 && cs[|cs| - 1] != RootDir && cs[|cs| - 2].Normal? then
      SegmentOfComponent(p, |cs| - 2);
      Some(cs[|cs| - 2].name)
    else None
  }

  lemma SegmentOfComponent(p: string, k: nat)
    requires k < |Components(p)| && Components(p)[k].Normal?
    ensures '/' !in Components(p)[k].name && Components(p)[k].name != []
  {
    var parts := Split(p, '/');
    var segs := Segments(parts);
    var cs := Components(p);
    var lead := |cs| - |segs|;
    assert k >= lead;
    SegmentsFromParts(parts, k - lead);
  }

  lemma {:induction false} SegmentsFromParts(parts: seq<string>, k: nat)
    requires forall j :: 0 <= j < |parts| ==> '/' !in parts[j]
    requires k < |Segments(parts)|
    ensures '/' !in Segments(parts)[k]
    decreases |parts|
  {
    var rest := Segments(parts[..|parts| - 1]);
    if k < |rest| { SegmentsFromParts(parts[..|parts| - 1], k); }
  }

  /** Rust's split of a file name at its last dot: the stem and the
      extension. ".." and names whose only dot is the first character have
      no extension. */
  function SplitAtDot(name: string): (r: (string, Option<string>))
  {
    if name == ".." || '.' !in name then (name, None)
    else
      var i := LastIndexOf(name, '.');
      if i == 0 then (name, None) else (name[..i], Some(name[i + 1..]))
  }

  function LastIndexOf(s: string, c: char): (i: nat)
    requires c in s
    ensures i < |s| && s[i] == c && c !in s[i + 1..]
  {
    if s[|s| - 1] == c then |s| - 1
    else
      assert c in s[..|s| - 1] by {
        var j :| 0 <= j < |s| && s[j] == c;
        assert s[..|s| - 1][j] == c;
      }
      var i := LastIndexOf(s[..|s| - 1], c);
      assert s[i + 1..] == s[..|s| - 1][i + 1..] + [s[|s| - 1]];
      i
  }

  /** `Path::extension`. */
  function Extension(p: string): (r: Option<string>)
    ensures r.Some? ==> '.' !in r.value
  {
    match FileName(p)
    case None => None
    case Some(n) =>
      var e := SplitAtDot(n).1;
      if e.Some? then
        var i := LastIndexOf(n, '.');
        assert e.value == n[i + 1..];
        e
      else None
  }

  /** `Path::file_stem`. */
  function FileStem(p: string): (r: Option<string>)
    ensures r.Some? ==> FileName(p).Some?
  {
    match FileName(p)
    case None => None
    case Some(n) => Some(SplitAtDot(n).0)
  }

  /** `Path::starts_with`: `base`'s components are a prefix of `p`'s. */
  predicate PathStartsWith(p: string, base: string)
  {
    var a := Components(p);
    var b := Components(base);
    |b| <= |a| && a[..|b|] == b
  }
}
