/** The year cut of `clean_owned_title` as the source writes it: the walks
    around the year read the title's UTF-8 bytes one at a time and take
    each byte for the character with that code (U+0000 to U+00FF), then
    hand the byte range to `replace_range`, which panics unless both ends
    are character boundaries. */
module TitleBytes {
  import opened Text
  import opened OwnedNames

  /** A byte value. */
  predicate IsByte(x: int) { 0 <= x < 256 }

  /** A byte that continues a multi-byte character. */
  predicate IsContinuation(x: int) { 0x80 <= x < 0xC0 }

  /** The UTF-8 encoding of one character. */
  function CharBytes(c: char): (r: seq<int>)
    ensures |r| == CharUtf8Len(c)
    ensures AllBytes(r)
  {
    var n := c as int;
    if n < 0x80 then [n]
    else if n < 0x800 then [0xC0 + n / 64, 0x80 + n % 64]
    else if n < 0x10000 then [0xE0 + n / 4096, 0x80 + n / 64 % 64, 0x80 + n % 64]
    else [0xF0 + n / 262144, 0x80 + n / 4096 % 64, 0x80 + n / 64 % 64, 0x80 + n % 64]
  }

  /** The UTF-8 encoding of a string. */
  function Bytes(s: string): seq<int>
  {
    if s == [] then [] else Bytes(s[..|s| - 1]) + CharBytes(s[|s| - 1])
  }

  /** Every element of an encoding is a byte value. */
  lemma {:induction false} BytesAreBytes(s: string)
    ensures AllBytes(Bytes(s))
  {
    if s != [] {
      BytesAreBytes(s[..|s| - 1]);
      var x, y := Bytes(s[..|s| - 1]), CharBytes(s[|s| - 1]);
      assert forall i :: |x| <= i < |x + y| ==> (x + y)[i] == y[i - |x|];
    }
  }

  lemma {:induction false} BytesConcat(a: string, c: string)
    ensures Bytes(a + c) == Bytes(a) + Bytes(c)
    decreases |c|
  {
    if c == [] {
      assert a + c == a;
    } else {
      var c' := c[..|c| - 1];
      assert (a + c)[..|a + c| - 1] == a + c';
      BytesConcat(a, c');
    }
  }

  /** `str::is_char_boundary` on the encoding. */
  predicate IsCharBoundary(b: seq<int>, i: int)
  {
    i == 0 || i == |b| || (0 < i < |b| && !IsContinuation(b[i]))
  }

  /** Every element is a byte value. */
  predicate AllBytes(b: seq<int>) { forall i :: 0 <= i < |b| ==> IsByte(b[i]) }

  /** The backward walk as written: over bytes that read as an opening
      bracket or whitespace. */
  function ByteBackOver(b: seq<int>, i: nat): (k: nat)
    requires i <= |b| && AllBytes(b)
    ensures k <= i
  {
    if i > 0 && SkipBefore(b[i - 1] as char) then ByteBackOver(b, i - 1) else i
  }

  /** The forward walk as written: over bytes that read as a closing
      bracket or whitespace. */
  function ByteForwardOver(b: seq<int>, j: nat): (k: nat)
    requires j <= |b| && AllBytes(b)
    ensures j <= k <= |b|
    decreases |b| - j
  {
    if j < |b| && SkipAfter(b[j] as char) then ByteForwardOver(b, j + 1) else j
  }

  /** The encoding of a text holding `p` at `pos`, in three parts. */
  lemma BytesAround(t: string, p: string, pos: nat)
    requires OccursAt(t, p, pos)
    ensures Bytes(t) == Bytes(t[..pos]) + Bytes(p) + Bytes(t[pos + |p|..])
  {
    assert t == t[..pos] + p + t[pos + |p|..];
    BytesConcat(t[..pos] + p, t[pos + |p|..]);
    BytesConcat(t[..pos], p);
  }

  /** `clean_owned_title`'s year cut as written: the byte range it hands to
      `replace_range` for the year text `ys`, when the text holds it. */
  function ByteYearSpan(t: string, ys: string): (r: Option<(nat, nat)>)
    ensures r.Some? ==> r.value.0 <= r.value.1 <= |Bytes(t)|
  {
    match Find(t, ys)
    case None => None
    case Some(pos) => Some(ByteSpanAt(t, ys, pos))
  }

  /** The byte range around the year text found at character `pos`: the
      walks start from its first and its last byte. */
  function ByteSpanAt(t: string, ys: string, pos: nat): (r: (nat, nat))
    requires OccursAt(t, ys, pos)
    ensures r.0 <= r.1 <= |Bytes(t)|
  {
    BytesAround(t, ys, pos);
    BytesAreBytes(t);
    var b := Bytes(t);
    var p := |Bytes(t[..pos])|;
    (ByteBackOver(b, p), ByteForwardOver(b, p + |Bytes(ys)|))
  }

  /** The cut as written panics: `replace_range` is handed a non-empty
      range with an end that is not a character boundary. */
  predicate YearCutPanics(t: string, ys: string)
  {
    match ByteYearSpan(t, ys)
    case None => false
    case Some((start, end)) =>
      start < end && (!IsCharBoundary(Bytes(t), start) || !IsCharBoundary(Bytes(t), end))
  }

  /** The backward walk from after "à (" stops inside the "à". */
  lemma WalkStopsInsideAccent(b: seq<int>, k: nat)
    requires AllBytes(b) && k + 4 <= |b|
    requires b[k] == 0xC3 && b[k + 1] == 0xA0 && b[k + 2] == 32 && b[k + 3] == 40
    ensures ByteBackOver(b, k + 4) == k + 1 && !IsCharBoundary(b, k + 1)
  {
    assert ByteBackOver(b, k + 1) == k + 1;
    assert ByteBackOver(b, k + 2) == k + 1;
    assert ByteBackOver(b, k + 3) == k + 1;
  }

  /** The encoding of a text ending in "à (". */
  lemma AccentOpenBytes(front: string)
    ensures Bytes(front + ['\U{E0}', ' ', '(']) == Bytes(front) + [0xC3, 0xA0, 32, 40]
  {
    var tail := ['\U{E0}', ' ', '('];
    BytesConcat(front, tail);
    assert tail[..2] == ['\U{E0}', ' '];
    assert ['\U{E0}', ' '][..1] == ['\U{E0}'];
    assert ['\U{E0}'][..0] == [];
    assert CharBytes('\U{E0}') == [0xC3, 0xA0];
  }

  /** When the text before the year's first occurrence ends in "à (", the
      cut as written panics. */
  lemma PanicsAfterAccent(s: string, ys: string, pos: nat, front: string)
    requires Find(s, ys) == Some(pos) && s[..pos] == front + ['\U{E0}', ' ', '(']
    ensures YearCutPanics(s, ys)
  {
    var b := Bytes(s);
    var k := |Bytes(front)|;
    BytesAreBytes(s);
    AccentBytesAt(s, ys, pos, front);
    WalkStopsInsideAccent(b, k);
  }

  /** Where the bytes of "à (" sit in the encoding of such a text. */
  lemma AccentBytesAt(s: string, ys: string, pos: nat, front: string)
    requires OccursAt(s, ys, pos) && s[..pos] == front + ['\U{E0}', ' ', '(']
    ensures var b, k := Bytes(s), |Bytes(front)|;
            |Bytes(s[..pos])| == k + 4 && k + 4 <= |b|
            && b[k] == 0xC3 && b[k + 1] == 0xA0 && b[k + 2] == 32 && b[k + 3] == 40
  {
    BytesAround(s, ys, pos);
    AccentOpenBytes(front);
    var x := Bytes(front);
    var q := [0xC3, 0xA0, 32, 40];
    var y := Bytes(ys) + Bytes(s[pos + |ys|..]);
    assert Bytes(s) == x + q + y;
    SeqAt(x, q, y);
  }

  lemma SeqAt(x: seq<int>, q: seq<int>, y: seq<int>)
    requires |q| == 4
    ensures (x + q + y)[|x|] == q[0] && (x + q + y)[|x| + 1] == q[1]
    ensures (x + q + y)[|x| + 2] == q[2] && (x + q + y)[|x| + 3] == q[3]
  {
  }

  /** The text before the year in a title and bracketed year. */
  lemma BeforeBracketYear(t: string, ys: string)
    requires t != [] && t[|t| - 1] == '\U{E0}'
    ensures (t + " (" + ys + ")")[..|t| + 2] == t[..|t| - 1] + ['\U{E0}', ' ', '(']
  {
    var s := t + " (" + ys + ")";
    assert s[..|t| + 2] == t + " (";
    assert t == t[..|t| - 1] + ['\U{E0}'];
  }

  /** A title ending in "à" (U+00E0, bytes C3 A0) in front of its year in
      brackets, as in "Voilà (2005)": reading byte A0 as U+00A0, a
      whitespace character, the backward walk stops inside the "à" and the
      cut as written panics. */
  lemma AccentBeforeYearPanics(t: string, ys: string)
    requires t != [] && t[|t| - 1] == '\U{E0}' && ys != [] && AllDigits(ys) && Absent(t, ys)
    ensures YearCutPanics(t + " (" + ys + ")", ys)
  {
    CloseAt(t, ys);
    YearFirstAt(t + " (" + ys + ")", |t|, ys);
    BeforeBracketYear(t, ys);
    PanicsAfterAccent(t + " (" + ys + ")", ys, |t| + 2, t[..|t| - 1]);
  }
}
