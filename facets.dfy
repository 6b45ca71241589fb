/**
  Facet detection of src/bluesky_richtext.rs: links that start with `http://` or
  `https://`, and hashtags, each recorded with the UTF-8 byte span it covers.

  The two regular expressions of the source are modelled as matchers over
  character positions: `LinkMatchAt` / `NextLinkMatch` for `https?://\S+`,
  `TagMatchAt` / `NextTagMatch` for the hashtag expression. `DetectedFacets`
  states what the scan produces and `DetectFacetsWithoutResolution` is the
  scanning loop of the source, proved to produce it.
 */
module Facets {
  import opened Wrappers
  import opened Text

  datatype ByteSlice = ByteSlice(byteStart: nat, byteEnd: nat)

  datatype Feature = Link(uri: string) | Tag(tag: string)

  /** A facet: its features (the detector always produces exactly one) and
      the byte span of the text they annotate. */
  datatype Facet = Facet(features: seq<Feature>, index: ByteSlice)

  /** A text with the facets detected in it (`None` when there are none). */
  datatype RichText = RichText(text: string, facets: Option<seq<Facet>>)

  /** A span `[start, end)` of character positions. */
  datatype CharSpan = CharSpan(start: nat, end: nat)

  /** Spans that lie in `[lo, hi]`, are non-empty and come in text order
      without overlapping. */
  predicate OrderedSpans(spans: seq<CharSpan>, lo: nat, hi: nat) {
    && (forall i :: 0 <= i < |spans| ==> lo <= spans[i].start < spans[i].end <= hi)
    && (forall i, j :: 0 <= i < j < |spans| ==> spans[i].end <= spans[j].start)
  }

  // ---------------------------------------------------------------------
  // Links: the expression https?://\S+
  // ---------------------------------------------------------------------

  /** End of the maximal run of non-space characters starting at `i`. */
  function NonSpaceEnd(t: string, i: nat): (j: nat)
    requires i <= |t|
    ensures i <= j <= |t|
    ensures forall k :: i <= k < j ==> !IsWhitespace(t[k])
    ensures j == |t| || IsWhitespace(t[j])
    decreases |t| - i
  {
    if i == |t| || IsWhitespace(t[i]) then i else NonSpaceEnd(t, i + 1)
  }

  /** Position right after the scheme of a link starting at `p`, or `p` when
      no scheme starts there. */
  function SchemeEnd(t: string, p: nat): nat {
    if OccursAt(t, "https://", p) then p + 8
    else if OccursAt(t, "http://", p) then p + 7
    else p
  }

  /** End of the match of `https?://\S+` that starts at `p`, if one does:
      the scheme followed by the maximal run of non-space characters, which
      must not be empty. */
  function LinkMatchAt(t: string, p: nat): (r: Option<nat>)
    requires p <= |t|
    ensures r.Some? ==> p + 8 <= r.value <= |t|
  {
    var body := SchemeEnd(t, p);
    if body > p && body < |t| && !IsWhitespace(t[body]) then Some(NonSpaceEnd(t, body))
    else None
  }

  /** The leftmost match at or after `from`. */
  function NextLinkMatch(t: string, from: nat): (r: Option<CharSpan>)
    requires from <= |t|
    ensures r.Some? ==> from <= r.value.start <= |t| && LinkMatchAt(t, r.value.start) == Some(r.value.end)
    decreases |t| - from
  {
    match LinkMatchAt(t, from)
    case Some(e) => Some(CharSpan(from, e))
    case None => if from == |t| then None else NextLinkMatch(t, from + 1)
  }

  /** No match starts between `from` and the match `NextLinkMatch` finds. */
  lemma {:induction false} NextLinkMatchIsLeftmost(t: string, from: nat, p: nat)
    requires from <= p <= |t|
    requires NextLinkMatch(t, from).None? || p < NextLinkMatch(t, from).value.start
    ensures LinkMatchAt(t, p).None?
    decreases |t| - from
  {
    if p > from {
      NextLinkMatchIsLeftmost(t, from + 1, p);
    }
  }

  /** All matches from `from` on, scanned left to right without overlap. */
  function LinkMatches(t: string, from: nat): seq<CharSpan>
    requires from <= |t|
    decreases |t| - from
  {
    match NextLinkMatch(t, from)
    case None => []
    case Some(m) => [m] + LinkMatches(t, m.end)
  }

  /** Consecutive spans in `[lo, hi]` stay ordered when a span ending at or
      before `lo` is put in front. */
  lemma OrderedSpansCons(h: CharSpan, hs: seq<CharSpan>, lo: nat, mid: nat, hi: nat)
    requires lo <= h.start < h.end <= mid && OrderedSpans(hs, mid, hi) && mid <= hi
    ensures OrderedSpans([h] + hs, lo, hi)
  {
    var all := [h] + hs;
    forall i, j | 0 <= i < j < |all| ensures all[i].end <= all[j].start {
      assert all[j] == hs[j - 1];
      if i > 0 { assert all[i] == hs[i - 1]; }
    }
    forall i | 0 <= i < |all| ensures lo <= all[i].start < all[i].end <= hi {
      if i > 0 { assert all[i] == hs[i - 1]; }
    }
  }

  /** The matches are scanned left to right without overlap, and each is
      at least 8 characters long. */
  lemma {:induction false} LinkMatchesOrdered(t: string, from: nat)
    requires from <= |t|
    ensures OrderedSpans(LinkMatches(t, from), from, |t|)
    ensures forall i :: 0 <= i < |LinkMatches(t, from)| ==>
              LinkMatchAt(t, LinkMatches(t, from)[i].start) == Some(LinkMatches(t, from)[i].end)
    decreases |t| - from
  {
    match NextLinkMatch(t, from)
    case None =>
    case Some(m) =>
      LinkMatchesOrdered(t, m.end);
      OrderedSpansCons(m, LinkMatches(t, m.end), from, m.end, |t|);
      var ms := LinkMatches(t, from);
      forall i | 0 <= i < |ms| ensures LinkMatchAt(t, ms[i].start) == Some(ms[i].end) {
        if i > 0 { assert ms[i] == LinkMatches(t, m.end)[i - 1]; }
      }
  }

  /** The class `[.,;:!?]`. */
  predicate IsEndingPunctuation(c: char) {
    c == '.' || c == ',' || c == ';' || c == ':' || c == '!' || c == '?'
  }

  /** The trailing-punctuation rule: a link ending in one of `.,;:!?`, or
      ending in `)` without containing `(`, loses its last character. */
  predicate PopsLast(uri: string) {
    |uri| > 0 && (IsEndingPunctuation(uri[|uri| - 1]) || (uri[|uri| - 1] == ')' && '(' !in uri))
  }

  /** The link facet the source records for match `m`. */
  function LinkFacet(t: string, m: CharSpan): Facet
    requires m.start + 8 <= m.end <= |t|
  {
    var uri := t[m.start..m.end];
    var byteStart := Off(t, m.start);
    var byteEnd := Off(t, m.end);
    OffMonotone(t, m.start, m.end);
    if PopsLast(uri) then Facet([Link(uri[..|uri| - 1])], ByteSlice(byteStart, byteEnd - 1))
    else Facet([Link(uri)], ByteSlice(byteStart, byteEnd))
  }

  function LinkFacets(t: string, from: nat): seq<Facet>
    requires from <= |t|
    decreases |t| - from
  {
    match NextLinkMatch(t, from)
    case None => []
    case Some(m) => [LinkFacet(t, m)] + LinkFacets(t, m.end)
  }

  /** The characters a link facet finally covers: the match without its
      popped character. */
  function Hit(t: string, m: CharSpan): CharSpan
    requires m.start + 8 <= m.end <= |t|
  {
    if PopsLast(t[m.start..m.end]) then CharSpan(m.start, m.end - 1) else m
  }

  function LinkHits(t: string, from: nat): (hs: seq<CharSpan>)
    requires from <= |t|
    ensures forall i :: 0 <= i < |hs| ==> from <= hs[i].start && hs[i].start + 7 <= hs[i].end <= |t|
    decreases |t| - from
  {
    match NextLinkMatch(t, from)
    case None => []
    case Some(m) => [Hit(t, m)] + LinkHits(t, m.end)
  }

  /** The characters of the link facets, left to right without overlap. */
  lemma {:induction false} LinkHitsOrdered(t: string, from: nat)
    requires from <= |t|
    ensures OrderedSpans(LinkHits(t, from), from, |t|)
    decreases |t| - from
  {
    match NextLinkMatch(t, from)
    case None =>
    case Some(m) =>
      LinkHitsOrdered(t, m.end);
      OrderedSpansCons(Hit(t, m), LinkHits(t, m.end), from, m.end, |t|);
  }

  /** The facet of a link whose characters are `t[h.start..h.end]`. */
  function FacetOfHit(t: string, h: CharSpan): Facet
    requires h.start <= h.end <= |t|
  {
    Facet([Link(t[h.start..h.end])], ByteSlice(Off(t, h.start), Off(t, h.end)))
  }

  /** Decrementing the byte end by one, as the source does, is the same as
      ending the span one character earlier: the popped characters are all
      one byte wide. */
  lemma LinkFacetIsHit(t: string, m: CharSpan)
    requires m.start + 8 <= m.end <= |t|
    ensures LinkFacet(t, m) == FacetOfHit(t, Hit(t, m))
  {
    var uri := t[m.start..m.end];
    if PopsLast(uri) {
      assert uri[|uri| - 1] == t[m.end - 1];
      OffStep(t, m.end - 1);
      assert uri[..|uri| - 1] == t[m.start..m.end - 1];
    }
  }

  /** `LinkFacets` lists exactly the facets of `LinkHits`, position by
      position. */
  lemma {:induction false} LinkFacetsAreHits(t: string, from: nat)
    requires from <= |t|
    ensures |LinkFacets(t, from)| == |LinkHits(t, from)|
    ensures forall i :: 0 <= i < |LinkHits(t, from)| ==>
              LinkFacets(t, from)[i] == FacetOfHit(t, LinkHits(t, from)[i])
    decreases |t| - from
  {
    match NextLinkMatch(t, from)
    case None =>
    case Some(m) =>
      LinkFacetsAreHits(t, m.end);
      LinkFacetIsHit(t, m);
      var fs := LinkFacets(t, m.end);
      var hs := LinkHits(t, m.end);
      assert LinkFacets(t, from) == [LinkFacet(t, m)] + fs;
      assert LinkHits(t, from) == [Hit(t, m)] + hs;
      forall i | 0 < i <= |hs|
        ensures ([LinkFacet(t, m)] + fs)[i] == FacetOfHit(t, ([Hit(t, m)] + hs)[i])
      {
        assert ([LinkFacet(t, m)] + fs)[i] == fs[i - 1];
        assert ([Hit(t, m)] + hs)[i] == hs[i - 1];
      }
  }

  // ---------------------------------------------------------------------
  // Hashtags: (?:^|\s)([#＃])(X*Y+X*)?
  // X: not white space and not one of U+00AD U+2060 U+200A..U+200D U+20E2;
  // Y: an X character that is neither a digit nor punctuation.
  // ---------------------------------------------------------------------

  predicate IsTagMarker(c: char) {
    c == '#' || c == '\U{FF03}'
  }

  predicate IsTagChar(c: char) {
    && !IsWhitespace(c) && c != '\U{00AD}' && c != '\U{2060}'
    && !('\U{200A}' <= c <= '\U{200D}') && c != '\U{20E2}'
  }

  predicate IsTagCore(c: char) {
    IsTagChar(c) && !IsDigit(c) && !IsPunctuation(c)
  }

  function TagRunEnd(t: string, i: nat): (j: nat)
    requires i <= |t|
    ensures i <= j <= |t|
    ensures forall k :: i <= k < j ==> IsTagChar(t[k])
    ensures j == |t| || !IsTagChar(t[j])
    decreases |t| - i
  {
    if i == |t| || !IsTagChar(t[i]) then i else TagRunEnd(t, i + 1)
  }

  /** A match of the hashtag expression: the marker position, the span of
      the tag group if it matched, and the end of the whole match. */
  datatype TagMatch = TagMatch(marker: nat, tag: Option<CharSpan>, end: nat)

  predicate ValidTagMatch(t: string, tm: TagMatch) {
    && tm.marker < |t| && IsTagMarker(t[tm.marker])
    && (tm.marker == 0 || IsWhitespace(t[tm.marker - 1]))
    && (tm.tag.None? ==> tm.end == tm.marker + 1)
    && (tm.tag.Some? ==> tm.tag.value.start == tm.marker + 1 < tm.tag.value.end == tm.end <= |t|)
    && (tm.tag.Some? ==> exists q :: tm.tag.value.start <= q < tm.tag.value.end && IsTagCore(t[q]))
  }

  /** The match starting at `p`, if any. At position 0 the start-of-text
      alternative is tried first; otherwise a white-space character must
      precede the marker. The optional tag group takes the whole run of tag
      characters after the marker when that run holds a core character. */
  function TagMatchAt(t: string, p: nat): (r: Option<TagMatch>)
    requires p <= |t|
    ensures r.Some? ==> ValidTagMatch(t, r.value) && p <= r.value.marker <= p + 1
  {
    var marker :=
      if p == 0 && p < |t| && IsTagMarker(t[p]) then Some(p)
      else if p + 1 < |t| && IsWhitespace(t[p]) && IsTagMarker(t[p + 1]) then Some(p + 1)
      else None;
    match marker
    case None => None
    case Some(k) =>
      var r := TagRunEnd(t, k + 1);
      if exists q :: k + 1 <= q < r && IsTagCore(t[q]) then Some(TagMatch(k, Some(CharSpan(k + 1, r)), r))
      else Some(TagMatch(k, None, k + 1))
  }

  function NextTagMatch(t: string, from: nat): (r: Option<TagMatch>)
    requires from <= |t|
    ensures r.Some? ==> ValidTagMatch(t, r.value) && from <= r.value.marker
    decreases |t| - from
  {
    match TagMatchAt(t, from)
    case Some(m) => Some(m)
    case None => if from == |t| then None else NextTagMatch(t, from + 1)
  }

  /** The regex replacement of `\p{P}+$` by the empty string. */
  function StripTrailingPunctuation(s: string): (r: string)
    ensures |r| <= |s| && r == s[..|r|]
    ensures r == [] || !IsPunctuation(r[|r| - 1])
    ensures forall k :: |r| <= k < |s| ==> IsPunctuation(s[k])
  {
    if s != [] && IsPunctuation(s[|s| - 1]) then StripTrailingPunctuation(s[..|s| - 1]) else s
  }

  /** The tag facet the source records for a match: none when the tag group
      did not match, when the stripped tag starts with U+FE0F or when it is
      longer than 64 bytes; otherwise the span runs from the marker to the
      end of the stripped tag. */
  function TagFacet(t: string, tm: TagMatch): Option<Facet>
    requires ValidTagMatch(t, tm)
  {
    match tm.tag
    case None => None
    case Some(g) => TagFacetOf(t, tm.marker, StripTrailingPunctuation(t[g.start..g.end]))
  }

  /** The facet of the stripped tag `tag` whose marker is at `k`. */
  function TagFacetOf(t: string, k: nat, tag: string): Option<Facet>
    requires k < |t|
  {
    if StartsWith(tag, "\U{FE0F}") then None
    else if ByteLen(tag) > 64 then None
    else Some(Facet([Tag(tag)], ByteSlice(Off(t, k), Off(t, k + 1) + ByteLen(tag))))
  }

  function TagFacets(t: string, from: nat): seq<Facet>
    requires from <= |t|
    decreases |t| - from
  {
    match NextTagMatch(t, from)
    case None => []
    case Some(tm) =>
      (match TagFacet(t, tm) case None => [] case Some(f) => [f]) + TagFacets(t, tm.end)
  }

  /** One step of `TagFacets`: the facet of the next match, if it has one,
      then the facets after it. */
  lemma TagFacetsStep(t: string, from: nat)
    requires from <= |t| && NextTagMatch(t, from).Some?
    ensures var tm := NextTagMatch(t, from).value;
      TagFacets(t, from) == (if TagFacet(t, tm).Some? then [TagFacet(t, tm).value] else []) + TagFacets(t, tm.end)
  {
  }

  /** Everything the detector finds: the links in text order, then the tags
      in text order. */
  function DetectedFacets(t: string): (r: seq<Facet>)
    ensures forall f :: f in r ==> 0 <= f.index.byteStart < f.index.byteEnd <= ByteLen(t)
    ensures forall f :: f in r ==> LinkFacetShape(t, f) || TagFacetShape(t, f)
  {
    LinkFacetsProperties(t, 0);
    TagFacetsProperties(t, 0);
    assert Off(t, 0) == 0 by { assert t[..0] == []; }
    LinkFacets(t, 0) + TagFacets(t, 0)
  }

  // ---------------------------------------------------------------------
  // Properties of the detected facets
  // ---------------------------------------------------------------------

  /** Non-empty byte spans inside `[lo, hi]`, in text order, without
      overlap. */
  predicate OrderedFacets(fs: seq<Facet>, lo: nat, hi: nat) {
    && (forall i :: 0 <= i < |fs| ==> lo <= fs[i].index.byteStart < fs[i].index.byteEnd <= hi)
    && (forall i, j :: 0 <= i < j < |fs| ==> fs[i].index.byteEnd <= fs[j].index.byteStart)
  }

  lemma OrderedFacetsCons(f: Facet, fs: seq<Facet>, lo: nat, mid: nat, hi: nat)
    requires lo <= f.index.byteStart < f.index.byteEnd <= mid
    requires OrderedFacets(fs, mid, hi) && mid <= hi
    ensures OrderedFacets([f] + fs, lo, hi)
  {
    var all := [f] + fs;
    forall i, j | 0 <= i < j < |all| ensures all[i].index.byteEnd <= all[j].index.byteStart {
      if i > 0 {
        assert all[i] == fs[i - 1] && all[j] == fs[j - 1];
      } else {
        assert all[j] == fs[j - 1];
      }
    }
  }

  /** The shape of a link facet: it covers the characters `[s, e)`, which
      start with a scheme and hold no white space, and its feature is the
      link to exactly those characters. */
  ghost predicate LinkFacetShape(t: string, f: Facet) {
    exists s: nat, e: nat :: s <= e <= |t| && f == FacetOfHit(t, CharSpan(s, e))
      && (StartsWith(t[s..e], "http://") || StartsWith(t[s..e], "https://"))
      && (forall k :: s <= k < e ==> !IsWhitespace(t[k]))
  }

  /** A scheme holds no white space. */
  lemma SchemeHasNoSpace(t: string, p: nat, scheme: string)
    requires scheme == "http://" || scheme == "https://"
    requires OccursAt(t, scheme, p)
    ensures forall k :: p <= k < p + |scheme| ==> !IsWhitespace(t[k])
  {
    forall k | p <= k < p + |scheme| ensures !IsWhitespace(t[k]) {
      assert t[k] == t[p..p + |scheme|][k - p] == scheme[k - p];
    }
  }

  /** The characters the trailing-punctuation rule keeps of a match. */
  lemma HitPops(t: string, m: CharSpan)
    requires m.start + 8 <= m.end <= |t|
    ensures var popped := IsEndingPunctuation(t[m.end - 1])
                          || (t[m.end - 1] == ')' && forall k :: m.start <= k < m.end ==> t[k] != '(');
            Hit(t, m) == CharSpan(m.start, if popped then m.end - 1 else m.end)
  {
    var uri := t[m.start..m.end];
    assert uri[|uri| - 1] == t[m.end - 1];
    if '(' in uri {
      var i :| 0 <= i < |uri| && uri[i] == '(';
      assert t[m.start + i] == '(';
    }
    forall k | m.start <= k < m.end ensures t[k] == uri[k - m.start] { }
  }

  /** The facet of a link match has link shape, and it covers the match
      less its last character exactly when that character is one of
      `.,;:!?`, or is `)` with no `(` in the match; otherwise the whole
      match. */
  lemma LinkFacetHasShape(t: string, m: CharSpan)
    requires m.start + 8 <= m.end <= |t| && LinkMatchAt(t, m.start) == Some(m.end)
    ensures LinkFacetShape(t, LinkFacet(t, m))
    ensures var popped := IsEndingPunctuation(t[m.end - 1])
                          || (t[m.end - 1] == ')' && forall k :: m.start <= k < m.end ==> t[k] != '(');
            LinkFacet(t, m) == FacetOfHit(t, CharSpan(m.start, if popped then m.end - 1 else m.end))
  {
    HitPops(t, m);
    LinkFacetIsHit(t, m);
    var h := Hit(t, m);
    var s, e := h.start, h.end;
    var body := SchemeEnd(t, m.start);
    assert s == m.start && m.start + 7 <= e <= m.end;
    var n := body - s;
    var scheme := t[s..body];
    assert scheme == "https://" || scheme == "http://";
    assert e >= body;
    SchemeHasNoSpace(t, s, scheme);
    assert t[s..e][..n] == scheme;
    assert StartsWith(t[s..e], scheme);
    assert forall k :: s <= k < e ==> !IsWhitespace(t[k]);
    assert LinkFacet(t, m) == FacetOfHit(t, CharSpan(s, e));
  }

  /** Every link facet starting from `from`: in text order, non-empty, within
      the text, and of link shape. */
  lemma {:induction false} LinkFacetsProperties(t: string, from: nat)
    requires from <= |t|
    ensures OrderedFacets(LinkFacets(t, from), Off(t, from), ByteLen(t))
    ensures forall f :: f in LinkFacets(t, from) ==> LinkFacetShape(t, f)
    decreases |t| - from
  {
    match NextLinkMatch(t, from)
    case None =>
    case Some(m) =>
      LinkFacetsProperties(t, m.end);
      var f := LinkFacet(t, m);
      LinkFacetHasShape(t, m);
      OffMonotone(t, from, m.start);
      OffMonotone(t, m.start, m.end);
      OffMonotone(t, m.end, |t|);
      OffFull(t);
      OrderedFacetsCons(f, LinkFacets(t, m.end), Off(t, from), Off(t, m.end), ByteLen(t));
  }

  /** The shape of a tag facet with its marker at character `k`: the
      marker is at the start of the text or after white space; the tag
      follows the marker, is not empty, does not end in punctuation nor start
      with U+FE0F, and has at most 64 bytes; the span runs from the marker to
      the end of the tag. */
  predicate TagFacetAt(t: string, f: Facet, k: nat) {
    && k < |t| && |f.features| == 1 && f.features[0].Tag?
    && var tag := f.features[0].tag;
    && f.index == ByteSlice(Off(t, k), Off(t, k + 1) + ByteLen(tag))
    && IsTagMarker(t[k]) && (k == 0 || IsWhitespace(t[k - 1]))
    && OccursAt(t, tag, k + 1) && tag != []
    && !IsPunctuation(tag[|tag| - 1]) && !StartsWith(tag, "\U{FE0F}") && ByteLen(tag) <= 64
  }

  ghost predicate TagFacetShape(t: string, f: Facet) {
    exists k: nat :: TagFacetAt(t, f, k)
  }

  /** The byte length of a piece of `t` ends at the byte offset of its
      end. */
  lemma OffOfPiece(t: string, a: nat, sub: string)
    requires OccursAt(t, sub, a)
    ensures Off(t, a) + ByteLen(sub) == Off(t, a + |sub|)
  {
    assert t[..a + |sub|] == t[..a] + sub;
    ByteLenAppend(t[..a], sub);
  }

  /** A tag group holding a core character keeps at least that character
      when its trailing punctuation is stripped. */
  lemma StrippedGroup(t: string, a: nat, b: nat)
    requires a < b <= |t| && exists q :: a <= q < b && IsTagCore(t[q])
    ensures var tag := StripTrailingPunctuation(t[a..b]);
      tag != [] && a + |tag| <= b && OccursAt(t, tag, a)
  {
    var group := t[a..b];
    var tag := StripTrailingPunctuation(group);
    var q :| a <= q < b && IsTagCore(t[q]);
    assert group[q - a] == t[q];
    assert |tag| > q - a;
    assert t[a..a + |tag|] == group[..|tag|];
  }

  lemma TagFacetHasShape(t: string, tm: TagMatch)
    requires ValidTagMatch(t, tm) && TagFacet(t, tm).Some?
    ensures TagFacetShape(t, TagFacet(t, tm).value)
  {
    var k := tm.marker;
    var g := tm.tag.value;
    var tag := StripTrailingPunctuation(t[g.start..g.end]);
    StrippedGroup(t, g.start, g.end);
    assert TagFacet(t, tm) == TagFacetOf(t, k, tag);
    assert TagFacetAt(t, TagFacetOf(t, k, tag).value, k);
  }

  /** A tag facet covers bytes of its match only. */
  lemma TagFacetWithinMatch(t: string, tm: TagMatch)
    requires ValidTagMatch(t, tm) && TagFacet(t, tm).Some?
    ensures Off(t, tm.marker) < TagFacet(t, tm).value.index.byteEnd <= Off(t, tm.end)
  {
    var g := tm.tag.value;
    var tag := StripTrailingPunctuation(t[g.start..g.end]);
    StrippedGroup(t, g.start, g.end);
    TagSpanBounds(t, tm.marker, tag, tm.end);
  }

  lemma TagSpanBounds(t: string, k: nat, tag: string, end: nat)
    requires OccursAt(t, tag, k + 1) && k + 1 + |tag| <= end <= |t|
    ensures Off(t, k) < Off(t, k + 1) + ByteLen(tag) <= Off(t, end)
  {
    var a := k + 1;
    var b := a + |tag|;
    OffOfPiece(t, a, tag);
    OffStep(t, k);
    OffMonotone(t, b, end);
    assert Off(t, a) + ByteLen(tag) == Off(t, b);
  }

  /** Every tag facet starting from `from`: in text order, non-empty,
      within the text, and of tag shape. */
  lemma {:induction false} TagFacetsProperties(t: string, from: nat)
    requires from <= |t|
    ensures OrderedFacets(TagFacets(t, from), Off(t, from), ByteLen(t))
    ensures forall f :: f in TagFacets(t, from) ==> TagFacetShape(t, f)
    decreases |t| - from
  {
    match NextTagMatch(t, from)
    case None =>
    case Some(tm) =>
      TagFacetsProperties(t, tm.end);
      TagFacetsStep(t, from);
      OffMonotone(t, tm.end, |t|);
      OffFull(t);
      if TagFacet(t, tm).Some? {
        var f := TagFacet(t, tm).value;
        TagFacetHasShape(t, tm);
        TagFacetWithinMatch(t, tm);
        OffMonotone(t, from, tm.marker);
        OrderedFacetsCons(f, TagFacets(t, tm.end), Off(t, from), Off(t, tm.end), ByteLen(t));
      } else {
        OffMonotone(t, from, tm.end);
        OrderedFacetsWeaken(TagFacets(t, tm.end), Off(t, tm.end), Off(t, from), ByteLen(t));
      }
  }

  lemma OrderedFacetsWeaken(fs: seq<Facet>, lo: nat, lo': nat, hi: nat)
    requires OrderedFacets(fs, lo, hi) && lo' <= lo
    ensures OrderedFacets(fs, lo', hi)
  {
  }

  /** The detected facets: first the links, then the tags, each group in
      text order with non-empty spans inside the text. */
  lemma DetectedFacetsProperties(t: string)
    ensures DetectedFacets(t) == LinkFacets(t, 0) + TagFacets(t, 0)
    ensures OrderedFacets(LinkFacets(t, 0), 0, ByteLen(t))
    ensures OrderedFacets(TagFacets(t, 0), 0, ByteLen(t))
    ensures forall f :: f in LinkFacets(t, 0) ==> LinkFacetShape(t, f)
    ensures forall f :: f in TagFacets(t, 0) ==> TagFacetShape(t, f)
    ensures forall f :: f in DetectedFacets(t) ==> 0 <= f.index.byteStart < f.index.byteEnd <= ByteLen(t)
  {
    LinkFacetsProperties(t, 0);
    TagFacetsProperties(t, 0);
    assert Off(t, 0) == 0 by { assert t[..0] == []; }
  }

  /** A text without `http://` and without `https://` has no link facet:
      bare domains are not links. */
  lemma NoSchemeNoLinks(t: string)
    requires !Contains(t, "http://") && !Contains(t, "https://")
    ensures LinkFacets(t, 0) == []
  {
    if NextLinkMatch(t, 0).Some? {
      assert false;
    }
  }

  // ---------------------------------------------------------------------
  // The scanning loops of the source
  // ---------------------------------------------------------------------

  /** `detect_facets_without_resolution`: the link block, then the tag
      block. */
  method DetectFacetsWithoutResolution(text: string) returns (facets: seq<Facet>)
    ensures facets == DetectedFacets(text)
  {
    var links := ScanLinks(text);
    var tags := ScanTags(text);
    facets := links + tags;
  }

  /** The link block: walk the matches of `https?://\S+`, pop the trailing
      punctuation, push. */
  method ScanLinks(text: string) returns (facets: seq<Facet>)
    ensures facets == LinkFacets(text, 0)
  {
    facets := [];
    var from := 0;
    var capture := NextLinkMatch(text, from);
    while capture.Some?
      invariant from <= |text| && capture == NextLinkMatch(text, from)
      invariant facets + LinkFacets(text, from) == LinkFacets(text, 0)
      decreases |text| - from
    {
      var m := capture.value;
      LinkScanStep(text, from, facets);
      var f := CaptureToLinkFacet(text, m);
      facets := facets + [f];
      from := m.end;
      capture := NextLinkMatch(text, from);
    }
    assert LinkFacets(text, from) == [];
  }

  /** The invariant of the link block is kept by one step. */
  lemma LinkScanStep(text: string, from: nat, facets: seq<Facet>)
    requires from <= |text| && NextLinkMatch(text, from).Some?
    requires facets + LinkFacets(text, from) == LinkFacets(text, 0)
    ensures var m := NextLinkMatch(text, from).value;
            && from < m.end && m.start + 8 <= m.end <= |text|
            && (facets + [LinkFacet(text, m)]) + LinkFacets(text, m.end) == LinkFacets(text, 0)
  {
    var m := NextLinkMatch(text, from).value;
    var rest := LinkFacets(text, m.end);
    assert LinkFacets(text, from) == [LinkFacet(text, m)] + rest;
    assert facets + ([LinkFacet(text, m)] + rest) == (facets + [LinkFacet(text, m)]) + rest;
  }

  /** The body of the link block for one capture `m`. */
  method CaptureToLinkFacet(text: string, m: CharSpan) returns (f: Facet)
    requires m.start + 8 <= m.end <= |text|
    ensures f == LinkFacet(text, m)
  {
    var uri := text[m.start..m.end];
    var byteStart := ByteLen(text[..m.start]);
    var byteEnd := ByteLen(text[..m.end]);
    OffMonotone(text, m.start, m.end);
    // The pop rule: a final `.,;:!?`, or a `)` the link never opened, is not part of it.
    if (|uri| > 0 && IsEndingPunctuation(uri[|uri| - 1])) || (|uri| > 0 && uri[|uri| - 1] == ')' && '(' !in uri) {
      uri := uri[..|uri| - 1];
      byteEnd := byteEnd - 1;
    }
    f := Facet([Link(uri)], ByteSlice(byteStart, byteEnd));
  }

  /** The invariant of the tag block is kept by one step. */
  lemma TagScanStep(text: string, from: nat, facets: seq<Facet>, f: Option<Facet>)
    requires from <= |text| && NextTagMatch(text, from).Some?
    requires f == TagFacet(text, NextTagMatch(text, from).value)
    requires facets + TagFacets(text, from) == TagFacets(text, 0)
    ensures (if f.Some? then facets + [f.value] else facets) + TagFacets(text, NextTagMatch(text, from).value.end)
            == TagFacets(text, 0)
  {
    var tm := NextTagMatch(text, from).value;
    var rest := TagFacets(text, tm.end);
    TagFacetsStep(text, from);
    if f.Some? {
      assert TagFacets(text, from) == [f.value] + rest;
      assert facets + ([f.value] + rest) == (facets + [f.value]) + rest;
    } else {
      assert TagFacets(text, from) == rest;
    }
  }

  /** The tag block: walk the hashtag matches, strip trailing punctuation,
      drop the tags that start with U+FE0F or exceed 64 bytes, push. */
  method ScanTags(text: string) returns (facets: seq<Facet>)
    ensures facets == TagFacets(text, 0)
  {
    facets := [];
    var from := 0;
    var capture := NextTagMatch(text, from);
    while capture.Some?
      invariant from <= |text| && capture == NextTagMatch(text, from)
      invariant facets + TagFacets(text, from) == TagFacets(text, 0)
      decreases |text| - from
    {
      var tm := capture.value;
      var f := CaptureToTagFacet(text, tm);
      TagScanStep(text, from, facets, f);
      if f.Some? {
        facets := facets + [f.value];
      }
      from := tm.end;
      capture := NextTagMatch(text, from);
    }
    assert TagFacets(text, from) == [];
  }

  /** The body of the tag block for one capture `tm`; `None` stands for
      the `continue` statements. */
  method CaptureToTagFacet(text: string, tm: TagMatch) returns (f: Option<Facet>)
    requires ValidTagMatch(text, tm)
    ensures f == TagFacet(text, tm)
  {
    f := None;
    if tm.tag.Some? {
      var g := tm.tag.value;
      var tag := StripTrailingPunctuation(text[g.start..g.end]);
      if StartsWith(tag, "\U{FE0F}") {
        return;
      }
      if ByteLen(tag) > 64 {
        return;
      }
      f := Some(Facet([Tag(tag)], ByteSlice(ByteLen(text[..tm.marker]), ByteLen(text[..tm.marker + 1]) + ByteLen(tag))));
    }
  }

  /** `detect_facets`: the text with its facets, `None` when there are
      none. */
  method DetectFacets(text: string) returns (rt: RichText)
    ensures rt.text == text
    ensures rt.facets.None? <==> DetectedFacets(text) == []
    ensures rt.facets.Some? ==> rt.facets.value == DetectedFacets(text)
  {
    var found := DetectFacetsWithoutResolution(text);
    if found == [] {
      rt := RichText(text, None);
    } else {
      var converted := ConvertFacets(found);
      rt := RichText(text, Some(converted));
    }
  }

  /** The conversion of each detected facet into a record facet, which
      keeps its features and its byte span. */
  method ConvertFacets(found: seq<Facet>) returns (converted: seq<Facet>)
    ensures converted == found
  {
    converted := [];
    var i := 0;
    while i < |found|
      invariant i <= |found| && converted == found[..i]
    {
      converted := converted + [Facet(found[i].features, found[i].index)];
      i := i + 1;
    }
    assert found[..|found|] == found;
  }
}
