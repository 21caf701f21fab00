// The on-disk poster and icon cache of `src/app/cache.rs`: where the cache
// directories are, the fourteen-day prune, the light refresh that drops
// broken files, the raw `.rgba` format with its 8-byte header, the lookup
// of a cached poster by key, and the early return of the download helpers
// when the file is already cached.
//
// A cache directory is a class whose field maps each entry name to its
// metadata; removing a file removes its name. Times are nanoseconds since
// the Unix epoch. The network, the image crate and `md5` are outside the
// model: their results are parameters.

module Cache {
  import opened Text
  import opened Paths
  import opened Utils

  const POSTER_RETENTION_DAYS: nat := 14
  const POSTER_RETENTION_SECS: nat := POSTER_RETENTION_DAYS * 24 * 60 * 60
  const NANOS_PER_SEC: nat := 1_000_000_000

  /** The metadata of one directory entry: whether it is a regular file
      (symbolic links are not), its length, and its modification time when
      the platform reports one. */
  datatype EntryMeta = EntryMeta(isFile: bool, len: nat, modified: Option<int>)

  /** `modified().unwrap_or(UNIX_EPOCH)`. */
  function ModifiedOrEpoch(m: EntryMeta): int
  {
    if m.modified.Some? then m.modified.value else 0
  }

  /** The lower-cased extension of an entry name, as `Path::extension`
      gives it for a single component. */
  function LowerExt(name: string): (r: Option<string>)
    ensures r.Some? ==> '.' !in r.value
  {
    var e := SplitAtDot(name).1;
    if e.None? then None
    else
      LowerExtNoDot(name);
      Some(ToAsciiLower(e.value))
  }

  lemma LowerExtNoDot(name: string)
    requires SplitAtDot(name).1.Some?
    ensures '.' !in ToAsciiLower(SplitAtDot(name).1.value)
  {
    var i := LastIndexOf(name, '.');
    var e := SplitAtDot(name).1.value;
    assert e == name[i + 1..];
    var l := ToAsciiLower(e);
    forall j | 0 <= j < |l| ensures l[j] != '.' {
      assert e[j] in e;
    }
  }

  /** The image formats the cache stores. */
  predicate IsPosterImageExt(ext: string)
  {
    ext == "png" || ext == "jpg" || ext == "jpeg" || ext == "webp"
  }

  /** `SystemTime::now() - 14 days`. The `unwrap_or(UNIX_EPOCH)` fallback
      applies only when the platform cannot represent that instant, which
      integers always can. */
  function PruneCutoff(now: int): (c: int)
    ensures c < now
  {
    now - POSTER_RETENTION_SECS * NANOS_PER_SEC
  }

  /** The prune removes a regular file with a poster extension (or `rgba`)
      whose modification time is older than the cutoff. */
  predicate Aged(name: string, m: EntryMeta, cutoff: int)
  {
    m.isFile
    && LowerExt(name).Some? && (IsPosterImageExt(LowerExt(name).value) || LowerExt(name).value == "rgba")
    && ModifiedOrEpoch(m) < cutoff
  }

  /** The light refresh removes a regular file without an extension, a
      `part` file, an empty image, an `rgba` file no longer than its
      header, and a file of any other extension. */
  predicate Broken(name: string, m: EntryMeta)
  {
    m.isFile
    && match LowerExt(name)
       case None => true
       case Some(ext) =>
         if ext == "part" then true
         else if IsPosterImageExt(ext) then m.len == 0
         else if ext == "rgba" then m.len <= 8
         else true
  }

  /** The entries of `files` that `doomed` does not mark. */
  function Keep(files: map<string, EntryMeta>, doomed: set<string>): (r: map<string, EntryMeta>)
    ensures r.Keys == files.Keys - doomed
    ensures forall n :: n in r ==> r[n] == files[n]
  {
    map n | n in files && n !in doomed :: files[n]
  }

  function AgedNames(files: map<string, EntryMeta>, cutoff: int): (s: set<string>)
    ensures s <= files.Keys
  {
    set n | n in files && Aged(n, files[n], cutoff)
  }

  function BrokenNames(files: map<string, EntryMeta>): (s: set<string>)
    ensures s <= files.Keys
  {
    set n | n in files && Broken(n, files[n])
  }

  /** After a prune no aged file is left, and only aged files are gone. */
  lemma PruneLeavesNoAged(files: map<string, EntryMeta>, cutoff: int)
    ensures var r := Keep(files, AgedNames(files, cutoff));
            (forall n :: n in r ==> !Aged(n, r[n], cutoff))
            && (forall n :: n in files && !Aged(n, files[n], cutoff) ==> n in r)
  {
  }

  /** A second prune at the same time removes nothing. */
  lemma PruneIdempotent(files: map<string, EntryMeta>, cutoff: int)
    ensures var r := Keep(files, AgedNames(files, cutoff)); AgedNames(r, cutoff) == {}
  {
  }

  /** Directories, links and files younger than the retention window
      survive a prune whatever their name. */
  lemma PruneKeepsRecent(files: map<string, EntryMeta>, now: int, n: string)
    requires n in files && (!files[n].isFile || ModifiedOrEpoch(files[n]) >= PruneCutoff(now))
    ensures n in Keep(files, AgedNames(files, PruneCutoff(now)))
  {
  }

  /** A poster cache directory: the entries it holds, and whether the
      one-time prune of `poster_cache_dir` has run. */
  class PosterDir {
    var files: map<string, EntryMeta>
    var pruned: bool

    constructor (entries: map<string, EntryMeta>)
      ensures files == entries && !pruned
    {
      files := entries;
      pruned := false;
    }

    /** `poster_cache_dir`: the first call prunes the directory, later
        calls change nothing. */
    method Open(now: int)
      modifies this
      ensures pruned
      ensures old(pruned) ==> files == old(files)
      ensures !old(pruned) ==> files == Keep(old(files), AgedNames(old(files), PruneCutoff(now)))
    {
      if !pruned {
        var _ := PruneInDir(now);
        pruned := true;
      }
    }

    /** `prune_poster_cache_in_dir`: removes every aged file and returns
        how many it removed. */
    method PruneInDir(now: int) returns (removed: nat)
      modifies this
      ensures files == Keep(old(files), AgedNames(old(files), PruneCutoff(now)))
      ensures removed == |AgedNames(old(files), PruneCutoff(now))|
      ensures pruned == old(pruned)
    {
      var cutoff := PruneCutoff(now);
      var gone := RemoveMatching(files, (n, m) => Aged(n, m, cutoff));
      assert gone == AgedNames(files, cutoff);
      files := Keep(files, gone);
      removed := |gone|;
    }

    /** `refresh_poster_cache_light` on an existing directory: removes the
        broken files, then prunes (opening the directory first, which runs
        the one-time prune if it has not run yet), and returns how many
        files both passes removed. */
    method RefreshLight(now: int) returns (removed: nat)
      modifies this
      ensures pruned
      ensures var start := if old(pruned) then old(files) else Keep(old(files), AgedNames(old(files), PruneCutoff(now)));
              var light := Keep(start, BrokenNames(start));
              files == Keep(light, AgedNames(light, PruneCutoff(now)))
              && removed == |BrokenNames(start)| + |AgedNames(light, PruneCutoff(now))|
    {
      Open(now);
      var gone := RemoveMatching(files, (n, m) => Broken(n, m));
      assert gone == BrokenNames(files);
      files := Keep(files, gone);
      var aged := PruneInDir(now);
      removed := |gone| + aged;
    }

    /** `find_any_by_key`: the first candidate name present in the
        directory, joined to its path. */
    method FindAnyByKey(dir: string, key: string) returns (r: Option<string>)
      ensures r == FirstPresent(dir, Candidates(key), files)
    {
      var cands := Candidates(key);
      var i := 0;
      while i < |cands|
        invariant i <= |cands|
        invariant FirstPresent(dir, cands[i..], files) == FirstPresent(dir, cands, files)
      {
        assert cands[i..][1..] == cands[i + 1..];
        if cands[i] in files {
          return Some(JoinPath(dir, cands[i]));
        }
        i := i + 1;
      }
      return None;
    }
  }

  /** The names in `files` that `doomed` marks, found one entry at a time
      in no particular order, as `read_dir` yields them. */
  method RemoveMatching(files: map<string, EntryMeta>, doomed: (string, EntryMeta) -> bool) returns (gone: set<string>)
    ensures gone == set n | n in files && doomed(n, files[n])
  {
    gone := {};
    var todo := files.Keys;
    while todo != {}
      invariant todo <= files.Keys
      invariant gone == set n | n in files && n !in todo && doomed(n, files[n])
      decreases |todo|
    {
      var n :| n in todo;
      if doomed(n, files[n]) {
        gone := gone + {n};
      }
      todo := todo - {n};
    }
  }

  /** Removing the broken files of a directory keeps every file the
      loader can read: a non-empty image, and an `rgba` file with at least
      one byte after its header. */
  lemma LightKeepsReadable(files: map<string, EntryMeta>, n: string)
    requires n in files && files[n].isFile && LowerExt(n).Some?
    requires (IsPosterImageExt(LowerExt(n).value) && files[n].len > 0)
             || (LowerExt(n).value == "rgba" && files[n].len > 8)
    ensures n in Keep(files, BrokenNames(files))
  {
  }

  /** Every regular file the light refresh keeps is an image with content
      or an `rgba` file longer than its header. */
  lemma LightLeavesOnlyReadable(files: map<string, EntryMeta>, n: string)
    requires n in Keep(files, BrokenNames(files)) && files[n].isFile
    ensures LowerExt(n).Some?
    ensures (IsPosterImageExt(LowerExt(n).value) && files[n].len > 0)
            || (LowerExt(n).value == "rgba" && files[n].len > 8)
  {
    assert !Broken(n, files[n]);
  }

  /** `PathBuf::join` of a relative name onto a directory. */
  function JoinPath(dir: string, name: string): (r: string)
    ensures EndsWith(r, name)
  {
    if dir == [] then name
    else if dir[|dir| - 1] == '/' then dir + name
    else dir + "/" + name
  }

  /** The names `find_any_by_key` probes, in order. */
  function Candidates(key: string): (cs: seq<string>)
    ensures |cs| == 6 && cs[0] == key + ".png" && cs[1] == key + ".jpg" && cs[2] == key + ".jpeg"
    ensures cs[3] == key + ".webp" && cs[4] == key + ".rgba" && cs[5] == "rgba_" + key + ".rgba"
  {
    [key + ".png", key + ".jpg", key + ".jpeg", key + ".webp", key + ".rgba", "rgba_" + key + ".rgba"]
  }

  /** The path of the first of `cands` present in `files`. */
  function FirstPresent(dir: string, cands: seq<string>, files: map<string, EntryMeta>): (r: Option<string>)
  {
    if cands == [] then None
    else if cands[0] in files then Some(JoinPath(dir, cands[0]))
    else FirstPresent(dir, cands[1..], files)
  }

  /** The lookup answers None exactly when no candidate is present. */
  lemma {:induction false} FirstPresentNone(dir: string, cands: seq<string>, files: map<string, EntryMeta>)
    ensures FirstPresent(dir, cands, files).None? <==> forall k :: 0 <= k < |cands| ==> cands[k] !in files
    decreases |cands|
  {
    if cands != [] {
      FirstPresentNone(dir, cands[1..], files);
      assert forall k :: 1 <= k < |cands| ==> cands[k] == cands[1..][k - 1];
    }
  }

  /** The lookup answers with the first present candidate. */
  lemma {:induction false} FirstPresentAt(dir: string, cands: seq<string>, files: map<string, EntryMeta>, k: nat)
    requires k < |cands| && cands[k] in files
    requires forall j :: 0 <= j < k ==> cands[j] !in files
    ensures FirstPresent(dir, cands, files) == Some(JoinPath(dir, cands[k]))
    decreases k
  {
    if k > 0 {
      assert cands[0] !in files;
      assert forall j :: 0 <= j < k - 1 ==> cands[1..][j] == cands[j + 1];
      FirstPresentAt(dir, cands[1..], files, k - 1);
    }
  }

  /** A cached PNG wins over every other form of the same poster. */
  lemma PngFirst(dir: string, key: string, files: map<string, EntryMeta>)
    requires key + ".png" in files
    ensures FirstPresent(dir, Candidates(key), files) == Some(JoinPath(dir, key + ".png"))
  {
  }

  // ------------------------------------------------------------ directories

  /** `normalize_dir`: doubled backslashes become one, then every '/'
      becomes a backslash. */
  function NormalizeDir(p: string): (r: string)
    ensures '/' !in r && |r| <= |p|
  {
    SlashesToBackslashes(CollapseBackslashPairs(p))
  }

  /** `replace("\\\\", "\\")`: each pair of backslashes, matched left to
      right without overlap, becomes one. */
  function CollapseBackslashPairs(s: string): (r: string)
    ensures |r| <= |s|
    ensures '/' in r ==> '/' in s
    decreases |s|
  {
    if |s| >= 2 && s[0] == '\\' && s[1] == '\\' then ['\\'] + CollapseBackslashPairs(s[2..])
    else if s == [] then []
    else
      assert '/' in CollapseBackslashPairs(s[1..]) ==> '/' in s[1..];
      [s[0]] + CollapseBackslashPairs(s[1..])
  }

  /** `replace('/', "\\")`. */
  function SlashesToBackslashes(s: string): (r: string)
    ensures |r| == |s| && forall i :: 0 <= i < |s| ==> r[i] == (if s[i] == '/' then '\\' else s[i])
  {
    seq(|s|, i requires 0 <= i < |s| => if s[i] == '/' then '\\' else s[i])
  }

  /** A path without backslashes only has its slashes turned around. */
  lemma {:induction false} CollapseWithoutBackslashes(s: string)
    requires '\\' !in s
    ensures CollapseBackslashPairs(s) == s
    decreases |s|
  {
    if s != [] {
      assert s[1..] == s[|s| - |s[1..]|..];
      assert '\\' !in s[1..] by {
        forall i | 0 <= i < |s[1..]| ensures s[1..][i] != '\\' { assert s[1..][i] == s[i + 1]; }
      }
      CollapseWithoutBackslashes(s[1..]);
    }
  }

  lemma NormalizeForwardSlashes(p: string)
    requires '\\' !in p
    ensures NormalizeDir(p) == SlashesToBackslashes(p)
  {
    CollapseWithoutBackslashes(p);
  }

  /** `cache_dir`: the configured directory, or `.pex_cache` beside the
      executable, normalised; when it cannot be created the default is
      used. `created` says whether `create_dir_all` succeeds on a path. */
  function CacheDirFor(configured: Option<string>, fallback: string, created: string -> bool): (r: string)
    ensures configured.None? ==> r == NormalizeDir(fallback)
    ensures configured.Some? && created(NormalizeDir(configured.value)) ==> r == NormalizeDir(configured.value)
    ensures configured.Some? && !created(NormalizeDir(configured.value)) ==> r == NormalizeDir(fallback)
  {
    var first := NormalizeDir(if configured.Some? then configured.value else fallback);
    if created(first) then first else NormalizeDir(fallback)
  }

  /** `poster_cache_dir` and `channel_icon_dir`: the `sub` directory of
      the cache, or the cache itself when it cannot be created. */
  function SubDirFor(cache: string, sub: string, created: string -> bool): (r: string)
    ensures created(JoinPath(cache, sub)) <==> r == JoinPath(cache, sub) && created(r)
    ensures !created(JoinPath(cache, sub)) ==> r == cache
  {
    if created(JoinPath(cache, sub)) then JoinPath(cache, sub) else cache
  }

  // ------------------------------------------------------------- rgba files

  newtype byte = x: int | 0 <= x < 256

  /** 256 to the power `k`. */
  function Pow256(k: nat): (p: nat)
    ensures p > 0
  {
    if k == 0 then 1 else 256 * Pow256(k - 1)
  }

  /** The `k` little-endian bytes of `n`. */
  function LeBytesN(n: nat, k: nat): (r: seq<byte>)
    requires n < Pow256(k)
    ensures |r| == k
  {
    if k == 0 then [] else [(n % 256) as byte] + LeBytesN(n / 256, k - 1)
  }

  /** The number little-endian bytes spell. */
  function FromLe(b: seq<byte>): (n: nat)
    ensures n < Pow256(|b|)
  {
    if b == [] then 0 else b[0] as nat + 256 * FromLe(b[1..])
  }

  lemma {:induction false} LeBytesNRoundTrip(n: nat, k: nat)
    requires n < Pow256(k)
    ensures FromLe(LeBytesN(n, k)) == n
    decreases k
  {
    if k > 0 {
      var r := LeBytesN(n, k);
      assert r[1..] == LeBytesN(n / 256, k - 1);
      LeBytesNRoundTrip(n / 256, k - 1);
    }
  }

  /** `u32::to_le_bytes`. */
  function LeBytes(n: nat): (r: seq<byte>)
    requires n <= U32_MAX
    ensures |r| == 4
  {
    assert Pow256(4) == U32_MAX + 1;
    LeBytesN(n, 4)
  }

  /** `u32::from_le_bytes`. */
  function FromLeBytes(b: seq<byte>): (n: nat)
    requires |b| == 4
    ensures n <= U32_MAX
  {
    assert Pow256(4) == U32_MAX + 1;
    FromLe(b)
  }

  lemma LeRoundTrip(n: nat)
    requires n <= U32_MAX
    ensures FromLeBytes(LeBytes(n)) == n
  {
    assert Pow256(4) == U32_MAX + 1;
    LeBytesNRoundTrip(n, 4);
  }

  /** A raw `.rgba` file: the width and height as little-endian `u32`s,
      then the pixel bytes. */
  function RgbaFile(w: nat, h: nat, body: seq<byte>): (f: seq<byte>)
    requires w <= U32_MAX && h <= U32_MAX
    ensures |f| == 8 + |body|
  {
    LeBytes(w) + LeBytes(h) + body
  }

  /** How a cached poster file reads. */
  datatype Image = Image(width: nat, height: nat, rgba: seq<byte>)

  /** `load_rgba_raw_or_image`, given whether the path exists and the
      bytes of the file (None when it cannot be opened). An `rgba` file
      yields its header and the remaining bytes; anything else goes to the
      image decoder, `decode`. */
  function LoadRgbaRawOrImage(path: string, present: bool, content: Option<seq<byte>>,
                              decode: seq<byte> -> Result<Image>): (r: Result<Image>)
    ensures !present ==> r == Err("not found")
    ensures present && Extension(path).Some? && ToAsciiLower(Extension(path).value) == "rgba" ==>
              (content.None? ==> r.Err?)
              && (content.Some? && |content.value| < 8 ==> r.Err?)
              && (content.Some? && |content.value| >= 8 ==>
                    r == Ok(Image(FromLeBytes(content.value[..4]), FromLeBytes(content.value[4..8]), content.value[8..])))
  {
    if !present then Err("not found")
    else if Extension(path).Some? && ToAsciiLower(Extension(path).value) == "rgba" then
      if content.None? then Err("open rgba")
      else if |content.value| < 8 then Err("read header")
      else
        var c := content.value;
        Ok(Image(FromLeBytes(c[..4]), FromLeBytes(c[4..8]), c[8..]))
    else if content.None? then Err("open image")
    else decode(content.value)
  }

  /** Reading back an `.rgba` file gives the width, height and pixels it
      was written with. */
  lemma RgbaRoundTrip(path: string, w: nat, h: nat, body: seq<byte>, decode: seq<byte> -> Result<Image>)
    requires w <= U32_MAX && h <= U32_MAX
    requires Extension(path).Some? && ToAsciiLower(Extension(path).value) == "rgba"
    ensures LoadRgbaRawOrImage(path, true, Some(RgbaFile(w, h, body)), decode) == Ok(Image(w, h, body))
  {
    var f := RgbaFile(w, h, body);
    assert f[..4] == LeBytes(w);
    assert f[4..8] == LeBytes(h);
    assert f[8..] == body;
    LeRoundTrip(w);
    LeRoundTrip(h);
  }

  /** `download_and_store` when the body does not decode as an image: the
      bytes are stored under a zero width and height. */
  function RawFallbackFile(body: seq<byte>): (f: seq<byte>)
    ensures |f| == 8 + |body|
  {
    RgbaFile(0, 0, body)
  }

  /** A raw fallback file reads back as a 0 by 0 image carrying the body... */
  lemma RawFallbackReads(path: string, body: seq<byte>, decode: seq<byte> -> Result<Image>)
    requires Extension(path).Some? && ToAsciiLower(Extension(path).value) == "rgba"
    ensures LoadRgbaRawOrImage(path, true, Some(RawFallbackFile(body)), decode) == Ok(Image(0, 0, body))
  {
    RgbaRoundTrip(path, 0, 0, body, decode);
  }

  /** ... and the light refresh keeps it only when the body is not empty. */
  lemma RawFallbackKept(name: string, body: seq<byte>, modified: Option<int>)
    requires LowerExt(name) == Some("rgba")
    ensures Broken(name, EntryMeta(true, |RawFallbackFile(body)|, modified)) <==> body == []
  {
    assert !IsPosterImageExt("rgba");
  }

  // ------------------------------------------------------------- downloads

  /** What a download helper does first. */
  datatype Fetch = UseCached(path: string) | Download(dest: string) | Reject(reason: string)

  /** `download_and_store_resized` and its `_with_client` twin: the poster
      is stored as `<key>.jpg` in the poster directory, and an existing
      file is returned without a download. */
  function ResizedFetch(posterDir: string, key: string, destExists: bool): (r: Fetch)
    ensures r.UseCached? <==> destExists
    ensures r.UseCached? ==> r.path == JoinPath(posterDir, key + ".jpg")
    ensures r.Download? ==> r.dest == JoinPath(posterDir, key + ".jpg")
    ensures !r.Reject?
  {
    var dest := JoinPath(posterDir, key + ".jpg");
    if destExists then UseCached(dest) else Download(dest)
  }

  /** `ensure_channel_icon`: a blank URL is refused; otherwise the icon is
      `<md5 of the URL>.png` in the icon directory, returned at once when
      it exists. `md5Hex` is the `{:x}` form of `md5::compute`. */
  function IconFetch(iconDir: string, url: string, md5Hex: string -> string, destExists: bool): (r: Fetch)
    ensures r.Reject? <==> IsBlank(url)
    ensures !IsBlank(url) ==> (r.UseCached? <==> destExists)
    ensures r.UseCached? ==> r.path == JoinPath(iconDir, md5Hex(url) + ".png")
    ensures r.Download? ==> r.dest == JoinPath(iconDir, md5Hex(url) + ".png")
  {
    if IsBlank(url) then Reject("empty url")
    else
      var dest := JoinPath(iconDir, md5Hex(url) + ".png");
      if destExists then UseCached(dest) else Download(dest)
  }

  /** The poster the resized download stores is found again by key,
      unless a PNG of the same key is already present. */
  lemma ResizedFoundByKey(posterDir: string, key: string, files: map<string, EntryMeta>)
    requires key + ".jpg" in files && key + ".png" !in files
    ensures FirstPresent(posterDir, Candidates(key), files) == Some(ResizedFetch(posterDir, key, true).path)
  {
  }
}
