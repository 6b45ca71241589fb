/**
  Link shortening of src/bluesky_richtext.rs (`get_rich_text`): a text longer
  than 300 graphemes has its long links cut, from the last link to the first,
  until it fits.

  `Shortened` states the effect on characters; `GetRichText` is the loop of
  the source over the reversed facets, which splices the text at UTF-8 byte
  offsets, proved to compute it. `ShortenedLength` gives the length of the
  result in closed form.
 */
module LinkShortening {
  import opened Wrappers
  import opened Text
  import opened Facets

  /** The grapheme limit of a Bluesky post. */
  const MaxGraphemes: nat := 300

  /** A link longer than this many graphemes is shortened. */
  const LinkBudget: nat := 23

  /** The ellipsis that replaces the cut part of a link (three bytes). */
  const Ellipsis: string := "\U{2026}"

  /** `"…".len()`: the byte length of the ellipsis. */
  const EllipsisBytes: nat := 3

  lemma EllipsisWidth()
    ensures ByteLen(Ellipsis) == EllipsisBytes && |Ellipsis| == 1
  {
    assert Ellipsis[1..] == [];
  }

  /** `s.chars().take(n).collect()`. */
  function Take(s: string, n: nat): (r: string)
    ensures |r| == if n <= |s| then n else |s|
    ensures r == s[..|r|]
  {
    if n <= |s| then s[..n] else s
  }

  /** The number of characters of a link of `uriLen` characters that are
      kept in a text of `textLen` characters: 22 when even that leaves the
      text over the limit, otherwise exactly as many as make the text hit
      the limit once the ellipsis is added. */
  function Kept(textLen: nat, uriLen: nat): (k: nat)
    requires uriLen <= textLen
    ensures k >= LinkBudget - 1
  {
    if textLen - uriLen + LinkBudget > MaxGraphemes then LinkBudget - 1
    else MaxGraphemes - (textLen - uriLen) - 1
  }

  /** Shortening the link covering the characters `h` of `cur`. */
  function ShortenOne(cur: string, h: CharSpan): string
    requires h.start <= h.end <= |cur|
  {
    var keep := |Take(cur[h.start..h.end], Kept(|cur|, h.end - h.start))|;
    cur[..h.start + keep] + Ellipsis + cur[h.end..]
  }

  /** What one shortening step changes: the text before the link and after
      it is untouched, the link keeps its first characters and ends in the
      ellipsis, and the text reaches the limit exactly unless even a
      22-character link leaves it over the limit. */
  lemma ShortenOneEffect(cur: string, h: CharSpan)
    requires h.start + LinkBudget < h.end <= |cur| && |cur| > MaxGraphemes
    ensures var r := ShortenOne(cur, h);
      var uriLen := h.end - h.start;
      var keep := if |cur| - uriLen + LinkBudget > MaxGraphemes then LinkBudget - 1
                  else MaxGraphemes - (|cur| - uriLen) - 1;
      && keep < uriLen
      && |r| == |cur| - uriLen + keep + 1
      && r[..h.start + keep] == cur[..h.start + keep]
      && r[h.start + keep] == '\U{2026}'
      && r[h.start + keep + 1..] == cur[h.end..]
      && (|cur| - uriLen + LinkBudget > MaxGraphemes ==> |r| == |cur| - uriLen + LinkBudget)
      && (|cur| - uriLen + LinkBudget <= MaxGraphemes ==> |r| == MaxGraphemes)
  {
  }

  /** The links `hs` (in text order) handled from the last to the first: a
      link of at most 23 characters is skipped; after each shortening the
      walk stops as soon as the text fits. */
  function Shortened(cur: string, hs: seq<CharSpan>): string
    requires OrderedSpans(hs, 0, |cur|)
    decreases |hs|
  {
    if hs == [] then cur
    else
      var h := hs[|hs| - 1];
      var rest := hs[..|hs| - 1];
      if h.end - h.start <= LinkBudget then Shortened(cur, rest)
      else
        var next := ShortenOne(cur, h);
        if |next| <= MaxGraphemes then next
        else
          assert OrderedSpans(rest, 0, |next|) by {
            forall i | 0 <= i < |rest| ensures rest[i].end <= h.start {
              assert rest[i] == hs[i];
            }
          }
          Shortened(next, rest)
  }

  /** What `get_rich_text` does to the text: unchanged up to 300
      graphemes; otherwise of exactly 300 graphemes when cutting the long
      links can reach that, and else of the length with every link of more
      than 23 graphemes cut to 22 graphemes and the ellipsis. The text
      before the first link is kept. */
  function ShortenedText(text: string): (r: string)
    ensures |text| <= MaxGraphemes ==> r == text
    ensures var hs := LinkHits(text, 0);
      |text| > MaxGraphemes ==>
        && |text| >= |r|
        && (|text| - Excess(hs) <= MaxGraphemes ==> |r| == MaxGraphemes)
        && (|text| - Excess(hs) > MaxGraphemes ==> |r| == |text| - Excess(hs))
        && (hs != [] ==> |r| >= hs[0].start && r[..hs[0].start] == text[..hs[0].start])
  {
    if |text| <= MaxGraphemes then text
    else
      var hs := LinkHits(text, 0);
      LinkHitsOrdered(text, 0);
      ShortenedLength(text, hs);
      ShortenedKeepsStart(text, hs);
      Shortened(text, hs)
  }

  /** The characters the links of `hs` have beyond 23. */
  function Excess(hs: seq<CharSpan>): nat
    decreases |hs|
  {
    if hs == [] then 0
    else
      var h := hs[|hs| - 1];
      (if h.end - h.start > LinkBudget then h.end - h.start - LinkBudget else 0) + Excess(hs[..|hs| - 1])
  }

  /** The length of the result in closed form: exactly the limit when
      cutting every long link to 23 characters would fit, otherwise the
      length with every long link cut to 23 characters. */
  lemma {:induction false} ShortenedLength(cur: string, hs: seq<CharSpan>)
    requires OrderedSpans(hs, 0, |cur|) && |cur| > MaxGraphemes
    ensures |cur| - Excess(hs) <= MaxGraphemes ==> |Shortened(cur, hs)| == MaxGraphemes
    ensures |cur| - Excess(hs) > MaxGraphemes ==> |Shortened(cur, hs)| == |cur| - Excess(hs)
    decreases |hs|
  {
    if hs != [] {
      var h := hs[|hs| - 1];
      var rest := hs[..|hs| - 1];
      assert OrderedSpans(rest, 0, |cur|) by {
        forall i | 0 <= i < |rest| ensures rest[i] == hs[i] { }
      }
      if h.end - h.start <= LinkBudget {
        ShortenedLength(cur, rest);
      } else {
        var next := ShortenOne(cur, h);
        ShortenOneEffect(cur, h);
        if |next| > MaxGraphemes {
          assert OrderedSpans(rest, 0, |next|) by {
            forall i | 0 <= i < |rest| ensures rest[i].end <= h.start {
              assert rest[i] == hs[i];
            }
          }
          ShortenedLength(next, rest);
        }
      }
    }
  }

  /** The text before the first link is never edited, and the result is
      never longer than the input. */
  lemma {:induction false} ShortenedKeepsStart(cur: string, hs: seq<CharSpan>)
    requires OrderedSpans(hs, 0, |cur|) && |cur| > MaxGraphemes
    ensures |Shortened(cur, hs)| <= |cur|
    ensures hs != [] ==>
      |Shortened(cur, hs)| >= hs[0].start && Shortened(cur, hs)[..hs[0].start] == cur[..hs[0].start]
    decreases |hs|
  {
    if hs != [] {
      var h := hs[|hs| - 1];
      var rest := hs[..|hs| - 1];
      assert OrderedSpans(rest, 0, |cur|) by {
        forall i | 0 <= i < |rest| ensures rest[i] == hs[i] { }
      }
      assert hs[0].start <= h.start;
      if h.end - h.start <= LinkBudget {
        ShortenedKeepsStart(cur, rest);
        if rest != [] { assert rest[0] == hs[0]; }
      } else {
        var next := ShortenOne(cur, h);
        ShortenOneEffect(cur, h);
        assert next[..hs[0].start] == cur[..hs[0].start];
        if |next| > MaxGraphemes {
          assert OrderedSpans(rest, 0, |next|) by {
            forall i | 0 <= i < |rest| ensures rest[i].end <= h.start {
              assert rest[i] == hs[i];
            }
          }
          ShortenedKeepsStart(next, rest);
          if rest != [] { assert rest[0] == hs[0]; }
        }
      }
    }
  }

  // ---------------------------------------------------------------------
  // The loop of the source
  // ---------------------------------------------------------------------

  /** Inserting one character shifts the byte offsets after it by its
      width and leaves those before it alone. */
  lemma OffAfterInsert(cur: string, p: nat, c: char, i: nat)
    requires p + i <= |cur|
    ensures Off(cur[..p] + [c] + cur[p..], p + 1 + i) == Off(cur, p + i) + Utf8Width(c)
  {
    var a := cur[..p];
    var b := cur[p..];
    assert cur == a + b;
    assert a + [c] + b == (a + [c]) + b;
    OffConcat(a + [c], b, i);
    OffConcat(a, b, i);
    ByteLenAppend(a, [c]);
    assert ByteLen([c]) == Utf8Width(c) by {
      assert [c][1..] == [];
    }
  }

  /** The kept part of the link covers the characters `h.start..p`, and the
      byte offset after it is the byte offset of `p`. */
  lemma KeptPart(cur: string, h: CharSpan, linkPart: string, at: nat, p: nat)
    requires h.start <= h.end <= |cur|
    requires linkPart == Take(cur[h.start..h.end], Kept(|cur|, h.end - h.start))
    requires at == Off(cur, h.start) + ByteLen(linkPart) && p == h.start + |linkPart|
    ensures p <= h.end && at == Off(cur, p)
    ensures ShortenOne(cur, h) == cur[..p] + Ellipsis + cur[h.end..]
  {
    assert linkPart == cur[h.start..p];
    OffOfPiece(cur, h.start, linkPart);
  }

  /** The insertion of `ShortenLink`: the ellipsis goes in at the byte
      offset `b` of character `p`. */
  lemma InsertEllipsis(cur: string, p: nat, b: nat)
    requires p <= |cur| && b == Off(cur, p)
    ensures CharIndex(cur, b).Some?
    ensures SpliceBytes(cur, b, b, Ellipsis) == cur[..p] + Ellipsis + cur[p..]
  {
    SpliceAtChars(cur, p, p, Ellipsis);
  }

  /** After the insertion, the byte offsets from the ellipsis on have moved
      by its three bytes. */
  lemma OffsetsAfterEllipsis(cur: string, p: nat, e: nat)
    requires p <= e <= |cur|
    ensures Off(cur[..p] + Ellipsis + cur[p..], p + 1) == Off(cur, p) + EllipsisBytes
    ensures Off(cur[..p] + Ellipsis + cur[p..], e + 1) == Off(cur, e) + EllipsisBytes
  {
    assert cur[..p] + Ellipsis + cur[p..] == cur[..p] + [Ellipsis[0]] + cur[p..];
    OffAfterInsert(cur, p, Ellipsis[0], 0);
    OffAfterInsert(cur, p, Ellipsis[0], e - p);
    assert Utf8Width(Ellipsis[0]) == EllipsisBytes;
  }

  /** The deletion of `ShortenLink`: what follows the ellipsis up to the
      end `e` of the link goes; `b1` and `b2` are the shifted byte offsets. */
  lemma DeleteAfterEllipsis(cur: string, p: nat, e: nat, inserted: string, b1: nat, b2: nat)
    requires p <= e <= |cur| && inserted == cur[..p] + Ellipsis + cur[p..]
    requires b1 == Off(cur, p) + EllipsisBytes && b2 == Off(cur, e) + EllipsisBytes
    ensures CharIndex(inserted, b1).Some? && CharIndex(inserted, b2).Some? && b1 <= b2
    ensures SpliceBytes(inserted, b1, b2, "") == cur[..p] + Ellipsis + cur[e..]
  {
    EllipsisWidth();
    OffsetsAfterEllipsis(cur, p, e);
    OffMonotone(cur, p, e);
    assert Off(inserted, p + 1) == b1 && Off(inserted, e + 1) == b2;
    SpliceAtChars(inserted, p + 1, e + 1, "");
    assert inserted[..p + 1] == cur[..p] + Ellipsis;
    assert inserted[e + 1..] == cur[e..];
    assert inserted[..p + 1] + "" + inserted[e + 1..] == cur[..p] + Ellipsis + cur[e..];
  }

  /** The text of `cur` and `text` agree on their first `n` characters. */
  predicate AgreeUpTo(cur: string, text: string, n: nat) {
    n <= |cur| && n <= |text| && cur[..n] == text[..n]
  }

  /** The end of the last span of `hs`, or 0. */
  function LastEnd(hs: seq<CharSpan>): nat {
    if hs == [] then 0 else hs[|hs| - 1].end
  }

  lemma OrderedPrefix(hs: seq<CharSpan>, n: nat, lo: nat, hi: nat, hi': nat)
    requires OrderedSpans(hs, lo, hi) && n <= |hs| && LastEnd(hs[..n]) <= hi'
    ensures OrderedSpans(hs[..n], lo, hi')
  {
    var p := hs[..n];
    forall i | 0 <= i < |p| ensures p[i].end <= hi' {
      assert p[i].end <= p[|p| - 1].end by {
        if i < |p| - 1 { assert p[i] == hs[i] && p[|p| - 1] == hs[n - 1]; }
      }
    }
  }

  /** The number of links still to visit after `i` visits of `nTags` tag
      facets and then `nLinks` link facets. */
  function Remaining(nLinks: nat, nTags: nat, i: nat): nat
    requires i <= nLinks + nTags
  {
    if i <= nTags then nLinks else nLinks - (i - nTags)
  }

  /** The facet the loop of `get_rich_text` visits at step `i` of the
      reversed list `links + tags`, while `rem` links are still to be visited:
      the first `|tags|` visits are tag facets, last first; from visit `|tags|`
      on, visit `i` is the facet of link `rem - 1`, and only those facets are
      link facets. */
  lemma VisitedFacet(text: string, links: seq<Facet>, tags: seq<Facet>, hs: seq<CharSpan>,
                     i: nat, rem: nat, facet: Facet)
    requires |links| == |hs|
    requires forall j :: 0 <= j < |hs| ==> hs[j].start <= hs[j].end <= |text| && links[j] == FacetOfHit(text, hs[j])
    requires forall f :: f in tags ==> |f.features| == 1 && f.features[0].Tag?
    requires i < |links| + |tags| && facet == Reverse(links + tags)[i]
    requires rem == Remaining(|hs|, |tags|, i)
    ensures (|facet.features| > 0 && facet.features[0].Link?) <==> i >= |tags|
    ensures i >= |tags| ==> 0 < rem <= |hs| && facet == FacetOfHit(text, hs[rem - 1])
    ensures i >= |tags| ==> Remaining(|hs|, |tags|, i + 1) == rem - 1
    ensures i < |tags| ==> Remaining(|hs|, |tags|, i + 1) == rem
  {
    ReverseConcatAt(links, tags, i);
    if i < |tags| {
      assert facet in tags;
    }
  }

  /** Tag facets carry a single tag feature: the loop of the source passes
      over them. */
  lemma TagFacetsAreTags(text: string)
    ensures forall f :: f in TagFacets(text, 0) ==> |f.features| == 1 && f.features[0].Tag?
  {
    TagFacetsProperties(text, 0);
    forall f | f in TagFacets(text, 0) ensures |f.features| == 1 && f.features[0].Tag? {
      var k :| TagFacetAt(text, f, k);
    }
  }

  /** The state of the loop of `get_rich_text` while the first `rem` links
      of `hs` are still to be visited: the text is over the limit, and it
      agrees with the original text up to the end of those links. */
  predicate ShorteningState(text: string, hs: seq<CharSpan>, r: string, rem: nat) {
    && OrderedSpans(hs, 0, |text|)
    && rem <= |hs| && |r| > MaxGraphemes
    && OrderedSpans(hs[..rem], 0, |r|)
    && AgreeUpTo(r, text, LastEnd(hs[..rem]))
  }

  /** The state of the loop of `get_rich_text` after `i` visits, the first
      `nTags` of which are tag facets: `rem` links are left, and shortening
      them leads to the same text as shortening all links of `text`. */
  predicate VisitState(text: string, hs: seq<CharSpan>, nTags: nat, i: nat, r: string, rem: nat) {
    && i <= |hs| + nTags && rem == Remaining(|hs|, nTags, i)
    && ShorteningState(text, hs, r, rem)
    && Shortened(r, hs[..rem]) == Shortened(text, hs)
  }

  /** Visiting link `rem - 1`: its characters and byte offsets are the same
      in `r` as in the original text, and the state after the visit is the
      state `Shortened` continues from. */
  lemma LinkVisit(text: string, hs: seq<CharSpan>, r: string, rem: nat)
    requires ShorteningState(text, hs, r, rem) && rem > 0
    ensures var h := hs[rem - 1];
      && h.start <= h.end <= |r| && h.end <= |text|
      && r[h.start..h.end] == text[h.start..h.end]
      && Off(r, h.start) == Off(text, h.start) && Off(r, h.end) == Off(text, h.end)
    ensures var h := hs[rem - 1];
      h.end - h.start <= LinkBudget ==>
        ShorteningState(text, hs, r, rem - 1) && Shortened(r, hs[..rem - 1]) == Shortened(r, hs[..rem])
    ensures var h := hs[rem - 1];
      h.end - h.start > LinkBudget ==>
        var next := ShortenOne(r, h);
        && (|next| <= MaxGraphemes ==> next == Shortened(r, hs[..rem]))
        && (|next| > MaxGraphemes ==>
              ShorteningState(text, hs, next, rem - 1) && Shortened(next, hs[..rem - 1]) == Shortened(r, hs[..rem]))
  {
    var h := hs[rem - 1];
    var todo := hs[..rem];
    var rest := hs[..rem - 1];
    assert todo[rem - 1] == h;
    assert todo[..rem - 1] == rest;
    assert r[..h.end] == text[..h.end];
    assert r[h.start..h.end] == r[..h.end][h.start..] == text[..h.end][h.start..] == text[h.start..h.end];
    OffAgree(r, text, h.end, h.start);
    OffAgree(r, text, h.end, h.end);
    assert LastEnd(rest) <= h.start by {
      if rem > 1 { assert rest[rem - 2] == todo[rem - 2]; }
    }
    OrderedPrefix(hs, rem - 1, 0, |text|, h.start);
    OrderedPrefix(hs, rem - 1, 0, |text|, |r|);
    assert r[..LastEnd(rest)] == text[..LastEnd(rest)];
    if h.end - h.start > LinkBudget {
      var next := ShortenOne(r, h);
      ShortenOneEffect(r, h);
      assert next[..h.start] == r[..h.start];
      OrderedPrefix(hs, rem - 1, 0, |text|, |next|);
      assert next[..LastEnd(rest)] == r[..LastEnd(rest)];
    }
  }
}
