/**
  The imperative code of `get_rich_text`: it detects the facets of a text
  and, while the text is over 300 graphemes, shortens its links from the last
  to the first by splicing the rich text at byte offsets. Each method is
  proved against the specification functions of `LinkShortening`.
 */
module RichText {
  import opened Text
  import opened Facets
  import opened LinkShortening

  /** `get_rich_text`, returning the text of the rich text. */
  method GetRichText(text: string) returns (r: string)
    ensures r == ShortenedText(text)
  {
    var richtext := DetectFacets(text);
    r := richtext.text;
    if |r| <= 300 {
      return;
    }
    if richtext.facets.None? {
      assert LinkHits(text, 0) == [] by {
        LinkFacetsAreHits(text, 0);
      }
      return;
    }
    ghost var hs := LinkHits(text, 0);
    ghost var links, tags := LinkFacets(text, 0), TagFacets(text, 0);
    LinkFacetsAreHits(text, 0);
    TagFacetsAreTags(text);
    LinkHitsOrdered(text, 0);
    // The facets are visited last to first.
    var reversedFacets := Reverse(richtext.facets.value);
    r := ShortenReversed(r, reversedFacets, links, tags, hs);
  }

  /** The loop of `get_rich_text` over the reversed facets `links + tags` of
      `text`, where link facet `j` covers the characters `hs[j]`: it ends as
      `Shortened` does. */
  method ShortenReversed(text: string, reversedFacets: seq<Facet>,
                         ghost links: seq<Facet>, ghost tags: seq<Facet>, ghost hs: seq<CharSpan>)
    returns (r: string)
    requires |text| > MaxGraphemes && OrderedSpans(hs, 0, |text|) && |links| == |hs|
    requires forall j :: 0 <= j < |hs| ==> links[j] == FacetOfHit(text, hs[j])
    requires forall f :: f in tags ==> |f.features| == 1 && f.features[0].Tag?
    requires reversedFacets == Reverse(links + tags)
    ensures r == Shortened(text, hs)
  {
    r := text;
    ghost var rem: nat := |hs|;
    assert hs[..rem] == hs;
    assert AgreeUpTo(r, text, LastEnd(hs[..rem]));
    var i := 0;
    while i < |reversedFacets|
      invariant |reversedFacets| == |hs| + |tags|
      invariant VisitState(text, hs, |tags|, i, r, rem)
    {
      var done;
      r, rem, done := VisitFacet(text, links, tags, hs, r, rem, i, reversedFacets[i]);
      if done {
        return;
      }
      i := i + 1;
    }
    assert rem == 0;
    assert hs[..rem] == [];
  }

  /** One pass of the loop of `get_rich_text`: visit `i` passes over a tag
      facet and handles the facet of link `rem - 1` otherwise; `done` stands
      for the early return. */
  method VisitFacet(ghost text: string, ghost links: seq<Facet>, ghost tags: seq<Facet>, ghost hs: seq<CharSpan>,
                    r: string, ghost rem: nat, ghost i: nat, facet: Facet)
    returns (next: string, ghost nextRem: nat, done: bool)
    requires |links| == |hs|
    requires forall j :: 0 <= j < |hs| ==> hs[j].start <= hs[j].end <= |text| && links[j] == FacetOfHit(text, hs[j])
    requires forall f :: f in tags ==> |f.features| == 1 && f.features[0].Tag?
    requires i < |links| + |tags| && facet == Reverse(links + tags)[i]
    requires VisitState(text, hs, |tags|, i, r, rem)
    ensures done ==> next == Shortened(text, hs)
    ensures !done ==> VisitState(text, hs, |tags|, i + 1, next, nextRem)
  {
    VisitedFacet(text, links, tags, hs, i, rem, facet);
    if |facet.features| > 0 && facet.features[0].Link? {
      next, done := VisitLink(text, hs, r, rem, facet);
      nextRem := rem - 1;
    } else {
      next, nextRem, done := r, rem, false;
    }
  }

  /** The body of the loop of `get_rich_text` for the link facet `facet` of
      link `rem - 1`; `done` stands for the early return. */
  method VisitLink(ghost text: string, ghost hs: seq<CharSpan>, r: string, ghost rem: nat, facet: Facet)
    returns (next: string, done: bool)
    requires ShorteningState(text, hs, r, rem) && rem > 0
    requires facet == FacetOfHit(text, hs[rem - 1])
    ensures done ==> next == Shortened(r, hs[..rem])
    ensures !done ==> ShorteningState(text, hs, next, rem - 1) && Shortened(next, hs[..rem - 1]) == Shortened(r, hs[..rem])
  {
    ghost var h := hs[rem - 1];
    LinkVisit(text, hs, r, rem);
    next, done := r, false;
    var uri := facet.features[0].uri;
    assert uri == r[h.start..h.end];
    // Only links over the budget are shortened.
    if |uri| > 23 {
      next := ShortenLink(r, uri, facet.index.byteStart, facet.index.byteEnd, h);
      // Within the limit: done.
      if |next| <= 300 {
        done := true;
      }
    }
  }

  /** The splice of one link, as the source writes it: the kept part of the
      link is `link_part`; the ellipsis is inserted after it and the rest of
      the link (now three bytes further on) is deleted. */
  method ShortenLink(cur: string, uri: string, byteStart: nat, byteEnd: nat, ghost h: CharSpan)
    returns (next: string)
    requires h.start <= h.end <= |cur| && uri == cur[h.start..h.end]
    requires byteStart == Off(cur, h.start) && byteEnd == Off(cur, h.end)
    ensures next == ShortenOne(cur, h)
  {
    var uriLength := |uri|;
    var textLength := |cur|;
    var overflow := textLength - uriLength + 23;
    var linkPart;
    if overflow > 300 {
      linkPart := Take(uri, 22);
    } else {
      linkPart := Take(uri, 300 - (textLength - uriLength) - 1);
    }
    assert linkPart == Take(cur[h.start..h.end], Kept(|cur|, h.end - h.start));
    ghost var p := h.start + |linkPart|;
    // The ellipsis goes in right after the kept part of the URI.
    var at := byteStart + ByteLen(linkPart);
    KeptPart(cur, h, linkPart, at, p);
    InsertEllipsis(cur, p, at);
    var inserted := SpliceBytes(cur, at, at, Ellipsis);
    // The rest of the URI, now behind the ellipsis, is deleted.
    var from := at + EllipsisBytes;
    var to := byteEnd + EllipsisBytes;
    DeleteAfterEllipsis(cur, p, h.end, inserted, from, to);
    next := SpliceBytes(inserted, from, to, "");
  }
}
