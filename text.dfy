/**
  Text primitives shared by the whole model.

  A text is a `string` (a sequence of Unicode scalar values). One character is
  counted as one grapheme. Every character has the byte width of its UTF-8
  encoding, so a text has both a character (grapheme) length `|t|` and a byte
  length `ByteLen(t)`. `Off(t, i)` is the byte offset of character index `i`,
  and `CharIndex(t, b)` maps a byte offset back to the character index that
  starts there, if any.
 */
module Text {
  import opened Wrappers

  /** The Unicode White_Space property: the `\s` class of the regex crate and
      the set Rust's `trim` removes. */
  predicate IsWhitespace(c: char) {
    ('\U{0009}' <= c <= '\U{000D}') || c == ' ' || c == '\U{0085}' || c == '\U{00A0}'
    || c == '\U{1680}' || ('\U{2000}' <= c <= '\U{200A}') || c == '\U{2028}'
    || c == '\U{2029}' || c == '\U{202F}' || c == '\U{205F}' || c == '\U{3000}'
  }

  /** The ASCII decimal digits (the model's reading of `\d`). */
  predicate IsDigit(c: char) {
    '0' <= c <= '9'
  }

  /** Punctuation (`\p{P}`): all ASCII punctuation characters of category P,
      the Latin-1 ones, the General Punctuation block U+2010..U+2027 (dashes,
      quotes, bullets, the ellipsis) and the fullwidth number sign. */
  predicate IsPunctuation(c: char) {
    ('!' <= c <= '#') || ('%' <= c <= '*') || (',' <= c <= '/') || (':' <= c <= ';')
    || ('?' <= c <= '@') || ('[' <= c <= ']') || c == '_' || c == '{' || c == '}'
    || c == '\U{00A1}' || c == '\U{00A7}' || c == '\U{00AB}' || c == '\U{00B6}'
    || c == '\U{00B7}' || c == '\U{00BB}' || c == '\U{00BF}'
    || ('\U{2010}' <= c <= '\U{2027}') || c == '\U{FF03}'
  }

  /** Number of bytes of the UTF-8 encoding of `c`. */
  function Utf8Width(c: char): (w: nat)
    ensures 1 <= w <= 4
    ensures w == 1 <==> (c as int) < 0x80
  {
    if (c as int) < 0x80 then 1
    else if (c as int) < 0x800 then 2
    else if (c as int) < 0x10000 then 3
    else 4
  }

  /** Number of bytes of the UTF-8 encoding of `s`. */
  function ByteLen(s: string): nat {
    if s == [] then 0 else Utf8Width(s[0]) + ByteLen(s[1..])
  }

  /** Every character takes at least one byte. */
  lemma {:induction false} ByteLenAtLeast(s: string)
    ensures ByteLen(s) >= |s|
  {
    if s != [] {
      ByteLenAtLeast(s[1..]);
    }
  }

  lemma {:induction false} ByteLenAppend(a: string, b: string)
    ensures ByteLen(a + b) == ByteLen(a) + ByteLen(b)
  {
    if a != [] {
      assert (a + b)[1..] == a[1..] + b;
      ByteLenAppend(a[1..], b);
    } else {
      assert a + b == b;
    }
  }

  /** Byte offset of character index `i` of `t`. */
  function Off(t: string, i: nat): nat
    requires i <= |t|
  {
    ByteLen(t[..i])
  }

  lemma OffStep(t: string, i: nat)
    requires i < |t|
    ensures Off(t, i + 1) == Off(t, i) + Utf8Width(t[i])
  {
    assert t[..i + 1] == t[..i] + [t[i]];
    ByteLenAppend(t[..i], [t[i]]);
  }

  /** Byte offsets grow strictly with the character index. */
  lemma OffMonotone(t: string, i: nat, j: nat)
    requires i <= j <= |t|
    ensures Off(t, i) + (j - i) <= Off(t, j)
    ensures i < j ==> Off(t, i) < Off(t, j)
  {
    assert t[..j] == t[..i] + t[i..j];
    ByteLenAppend(t[..i], t[i..j]);
    ByteLenAtLeast(t[i..j]);
  }

  lemma OffFull(t: string)
    ensures Off(t, |t|) == ByteLen(t)
  {
    assert t[..|t|] == t;
  }

  /** Two texts with a common prefix of `n` characters have the same byte
      offsets inside that prefix. */
  lemma OffAgree(s: string, t: string, n: nat, i: nat)
    requires n <= |s| && n <= |t| && s[..n] == t[..n] && i <= n
    ensures Off(s, i) == Off(t, i)
  {
    assert s[..i] == s[..n][..i] && t[..i] == t[..n][..i];
  }

  /** The byte offset of a concatenation inside or after its first part. */
  lemma OffConcat(a: string, b: string, i: nat)
    requires i <= |b|
    ensures Off(a + b, |a| + i) == ByteLen(a) + Off(b, i)
  {
    assert (a + b)[..|a| + i] == a + b[..i];
    ByteLenAppend(a, b[..i]);
  }

  /** The character index that starts at byte offset `b`, if `b` is a
      character boundary of `t`. */
  function CharIndex(t: string, b: nat): (r: Option<nat>)
    ensures r.Some? ==> r.value <= |t| && Off(t, r.value) == b
    decreases |t|
  {
    if b == 0 then (assert t[..0] == []; Some(0))
    else if t == [] || b < Utf8Width(t[0]) then None
    else
      match CharIndex(t[1..], b - Utf8Width(t[0]))
      case None => None
      case Some(i) =>
        assert t[..i + 1] == [t[0]] + t[1..][..i];
        ByteLenAppend([t[0]], t[1..][..i]);
        Some(i + 1)
  }

  /** Every character index is found again from its byte offset. */
  lemma {:induction false} CharIndexOff(t: string, i: nat)
    requires i <= |t|
    ensures CharIndex(t, Off(t, i)) == Some(i)
  {
    if i > 0 {
      assert t[..i] == [t[0]] + t[1..][..i - 1];
      ByteLenAppend([t[0]], t[1..][..i - 1]);
      CharIndexOff(t[1..], i - 1);
    }
  }

  /** Replaces the bytes `[b1, b2)` of `s` by `ins`; both offsets must be
      character boundaries (a Rust string refuses anything else). */
  function SpliceBytes(s: string, b1: nat, b2: nat, ins: string): string
    requires CharIndex(s, b1).Some? && CharIndex(s, b2).Some?
    requires b1 <= b2
  {
    var i := CharIndex(s, b1).value;
    var j := CharIndex(s, b2).value;
    assert i <= j by {
      if j < i { OffMonotone(s, j, i); }
    }
    s[..i] + ins + s[j..]
  }

  /** Splicing at the byte offsets of character indices `i <= j` is the
      character-level splice. */
  lemma SpliceAtChars(s: string, i: nat, j: nat, ins: string)
    requires i <= j <= |s|
    ensures CharIndex(s, Off(s, i)).Some? && CharIndex(s, Off(s, j)).Some?
    ensures Off(s, i) <= Off(s, j)
    ensures SpliceBytes(s, Off(s, i), Off(s, j), ins) == s[..i] + ins + s[j..]
  {
    CharIndexOff(s, i);
    CharIndexOff(s, j);
    OffMonotone(s, i, j);
  }

  /** `sub` occurs in `s` at index `i`. */
  predicate OccursAt(s: string, sub: string, i: nat) {
    i + |sub| <= |s| && s[i..i + |sub|] == sub
  }

  /** Rust's `str::contains`. */
  predicate Contains(s: string, sub: string) {
    exists i :: 0 <= i <= |s| && OccursAt(s, sub, i)
  }

  /** Rust's `str::starts_with`. */
  predicate StartsWith(s: string, prefix: string) {
    |prefix| <= |s| && s[..|prefix|] == prefix
  }

  /** Rust's `str::ends_with`. */
  predicate EndsWith(s: string, suffix: string) {
    |suffix| <= |s| && s[|s| - |suffix|..] == suffix
  }

  /** The two parts of a concatenation are found again by slicing it. */
  lemma ConcatSplit<T>(a: seq<T>, b: seq<T>)
    ensures |a + b| - |b| == |a|
    ensures (a + b)[..|a|] == a && (a + b)[|a|..] == b
    ensures a == [] ==> a + b == b
  {
  }

  /** A prefix `head` of `s` followed by `tail`: slicing off `tail` gives
      back that prefix. */
  lemma PrefixThenSuffix(s: string, head: string, tail: string)
    requires StartsWith(s, head)
    ensures var r := head + tail;
            && |tail| <= |r| && r[|r| - |tail|..] == tail
            && StartsWith(s, r[..|r| - |tail|])
  {
    ConcatSplit(head, tail);
  }

  /** A prefix of a prefix is a prefix. */
  lemma StartsWithTrans(a: string, b: string, c: string)
    requires StartsWith(a, b) && StartsWith(b, c)
    ensures StartsWith(a, c)
  {
    assert a[..|c|] == a[..|b|][..|c|];
  }

  /** Rust's `str::trim_start`. */
  function TrimStart(s: string): (r: string)
    ensures |r| <= |s| && r == s[|s| - |r|..]
    ensures r == [] || !IsWhitespace(r[0])
    ensures forall k :: 0 <= k < |s| - |r| ==> IsWhitespace(s[k])
  {
    if s != [] && IsWhitespace(s[0]) then
      var r := TrimStart(s[1..]);
      TrimStartStep(s, r);
      r
    else s
  }

  /** A suffix of the text after one white-space character, with only
      white space before it there, is a suffix of the text with only white
      space before it. */
  lemma TrimStartStep(s: string, r: string)
    requires s != [] && IsWhitespace(s[0])
    requires |r| <= |s[1..]| && r == s[1..][|s[1..]| - |r|..]
    requires forall k :: 0 <= k < |s[1..]| - |r| ==> IsWhitespace(s[1..][k])
    ensures |r| <= |s| && r == s[|s| - |r|..]
    ensures forall k :: 0 <= k < |s| - |r| ==> IsWhitespace(s[k])
  {
    forall k | 1 <= k < |s| - |r| ensures IsWhitespace(s[k]) {
      assert s[k] == s[1..][k - 1];
    }
  }

  /** Rust's `str::trim_end`. */
  function TrimEnd(s: string): (r: string)
    ensures |r| <= |s| && r == s[..|r|]
    ensures r == [] || !IsWhitespace(r[|r| - 1])
    ensures forall k :: |r| <= k < |s| ==> IsWhitespace(s[k])
  {
    if s != [] && IsWhitespace(s[|s| - 1]) then TrimEnd(s[..|s| - 1]) else s
  }

  /** Rust's `str::trim`. */
  function Trim(s: string): (r: string)
    ensures |r| <= |s|
    ensures r == [] || (!IsWhitespace(r[0]) && !IsWhitespace(r[|r| - 1]))
  {
    var t := TrimStart(s);
    var r := TrimEnd(t);
    assert r == [] || r[0] == t[0];
    r
  }

  /** `trim` takes a slice of the text with only white space before and
      after it: the slice starts where `trim_start` leaves the text. */
  lemma TrimSlice(s: string)
    ensures |TrimStart(s)| <= |s| && |s| - |TrimStart(s)| + |Trim(s)| <= |s|
    ensures Trim(s) == s[|s| - |TrimStart(s)|..|s| - |TrimStart(s)| + |Trim(s)|]
    ensures forall k :: 0 <= k < |s| - |TrimStart(s)| ==> IsWhitespace(s[k])
    ensures forall k :: |s| - |TrimStart(s)| + |Trim(s)| <= k < |s| ==> IsWhitespace(s[k])
  {
    var t := TrimStart(s);
    var r := TrimEnd(t);
    SliceOfSuffix(s, t, r);
  }

  /** A prefix `r` of a suffix `t` of `s`, with only white space before `t`
      in `s` and after `r` in `t`, is a slice of `s` with only white space
      around it. */
  lemma SliceOfSuffix(s: string, t: string, r: string)
    requires |t| <= |s| && t == s[|s| - |t|..]
    requires forall k :: 0 <= k < |s| - |t| ==> IsWhitespace(s[k])
    requires |r| <= |t| && r == t[..|r|]
    requires forall k :: |r| <= k < |t| ==> IsWhitespace(t[k])
    ensures var i := |s| - |t|;
            && i + |r| <= |s| && r == s[i..i + |r|]
            && (forall k :: 0 <= k < i ==> IsWhitespace(s[k]))
            && (forall k :: i + |r| <= k < |s| ==> IsWhitespace(s[k]))
  {
    var i := |s| - |t|;
    forall k | i + |r| <= k < |s| ensures IsWhitespace(s[k]) {
      assert s[k] == t[k - i];
    }
  }

  /** A text that starts with a non-space character keeps its start when
      trimmed: trimming only removes trailing white space from it. */
  lemma TrimOfUntrimmedStart(s: string)
    requires s == [] || !IsWhitespace(s[0])
    ensures Trim(s) == TrimEnd(s)
  {
  }

  /** The regex replacement of `[^\s]+$` by the empty string: removes the
      maximal run of non-space characters at the end, if any. */
  function DropLastWord(s: string): (r: string)
    ensures |r| <= |s| && r == s[..|r|]
    ensures r == [] || IsWhitespace(r[|r| - 1])
              || (|r| == |s| && IsWhitespace(s[|s| - 1]))
    ensures forall k :: |r| <= k < |s| ==> !IsWhitespace(s[k])
  {
    if s != [] && !IsWhitespace(s[|s| - 1]) then DropLastWord(s[..|s| - 1]) else s
  }

  /** Rust's `str::replace`: every non-overlapping occurrence of `pat`, found
      from left to right, is replaced by `rep`. */
  function ReplaceAll(s: string, pat: string, rep: string): string
    requires pat != []
    decreases |s|
  {
    if |s| < |pat| then s
    else if s[..|pat|] == pat then rep + ReplaceAll(s[|pat|..], pat, rep)
    else [s[0]] + ReplaceAll(s[1..], pat, rep)
  }

  /** A replacement no longer than the pattern never makes the text
      longer, and one no shorter never makes it shorter. */
  lemma {:induction false} ReplaceAllLength(s: string, pat: string, rep: string)
    requires pat != []
    ensures |rep| <= |pat| ==> |ReplaceAll(s, pat, rep)| <= |s|
    ensures |pat| <= |rep| ==> |s| <= |ReplaceAll(s, pat, rep)|
    decreases |s|
  {
    if |s| >= |pat| {
      if s[..|pat|] == pat {
        ReplaceAllLength(s[|pat|..], pat, rep);
      } else {
        ReplaceAllLength(s[1..], pat, rep);
      }
    }
  }

  /** Replacing a pattern that does not occur changes nothing. */
  lemma {:induction false} ReplaceAbsent(s: string, pat: string, rep: string)
    requires pat != [] && !Contains(s, pat)
    ensures ReplaceAll(s, pat, rep) == s
    decreases |s|
  {
    if |s| >= |pat| {
      assert !OccursAt(s, pat, 0);
      assert s[..|pat|] != pat;
      forall i | 0 <= i <= |s[1..]| ensures !OccursAt(s[1..], pat, i) {
        if OccursAt(s[1..], pat, i) {
          assert s[1..][i..i + |pat|] == s[i + 1..i + 1 + |pat|];
          assert OccursAt(s, pat, i + 1);
        }
      }
      ReplaceAbsent(s[1..], pat, rep);
    }
  }

  /** ASCII case folding (the model's reading of `to_lowercase`). */
  function LowerChar(c: char): char {
    if 'A' <= c <= 'Z' then (c as int + 32) as char else c
  }

  function Lower(s: string): (r: string)
    ensures |r| == |s|
    ensures forall k :: 0 <= k < |s| ==> r[k] == LowerChar(s[k])
  {
    if s == [] then [] else [LowerChar(s[0])] + Lower(s[1..])
  }

  /** `Vec::reverse`: position `k` of the result holds position
      `|s| - 1 - k` of `s`. */
  function Reverse<T>(s: seq<T>): (r: seq<T>)
    ensures |r| == |s|
    ensures forall k :: 0 <= k < |s| ==> r[k] == s[|s| - 1 - k]
  {
    seq(|s|, k requires 0 <= k < |s| => s[|s| - 1 - k])
  }

  /** The reverse of a concatenation starts with the reversed second part. */
  lemma ReverseConcatAt<T>(a: seq<T>, b: seq<T>, k: nat)
    requires k < |a| + |b|
    ensures k < |b| ==> Reverse(a + b)[k] == b[|b| - 1 - k]
    ensures k >= |b| ==> Reverse(a + b)[k] == a[|a| - 1 - (k - |b|)]
  {
    assert Reverse(a + b)[k] == (a + b)[|a| + |b| - 1 - k];
  }

  /** Reversing twice gives the original order back. */
  lemma ReverseReverse<T>(s: seq<T>)
    ensures Reverse(Reverse(s)) == s
  {
    forall k | 0 <= k < |s| ensures Reverse(Reverse(s))[k] == s[k] {
      assert Reverse(Reverse(s))[k] == Reverse(s)[|s| - 1 - k];
    }
  }
}
