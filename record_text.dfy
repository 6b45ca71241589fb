/**
  `bsky_record_get_text`: the full text of a stored Bluesky record. The
  text's UTF-8 bytes have every link facet's byte span replaced by the
  facet's URI, from the highest start offset down so that the lower offsets
  stay valid; the bytes are then read back as a text, and the URI of a link
  card is appended unless the text already holds it.
 */
module RecordText {
  import opened Wrappers
  import opened Text
  import opened Records
  import opened Utf8

  // ---------------------------------------------------------------------
  // Sorting the facets
  // ---------------------------------------------------------------------

  /** Facets by descending start offset. */
  predicate SortedDesc(fs: seq<RecordFacet>) {
    forall i, j :: 0 <= i < j < |fs| ==> fs[i].byteStart >= fs[j].byteStart
  }

  /** Puts `f` before the first facet that starts no later than it. */
  function InsertDesc(f: RecordFacet, sorted: seq<RecordFacet>): (r: seq<RecordFacet>)
    ensures multiset(r) == multiset(sorted) + multiset{f}
    ensures |r| == |sorted| + 1
  {
    if sorted == [] || sorted[0].byteStart <= f.byteStart then [f] + sorted
    else
      assert sorted == [sorted[0]] + sorted[1..];
      [sorted[0]] + InsertDesc(f, sorted[1..])
  }

  lemma {:induction false} InsertDescSorted(f: RecordFacet, sorted: seq<RecordFacet>)
    requires SortedDesc(sorted)
    ensures SortedDesc(InsertDesc(f, sorted))
  {
    if sorted != [] && sorted[0].byteStart > f.byteStart {
      InsertDescSorted(f, sorted[1..]);
      var rest := InsertDesc(f, sorted[1..]);
      forall j | 0 <= j < |rest| ensures rest[j].byteStart <= sorted[0].byteStart {
        assert rest[j] in multiset(rest);
        if rest[j] != f {
          assert rest[j] in multiset(sorted[1..]);
          var m :| 0 <= m < |sorted[1..]| && sorted[1..][m] == rest[j];
          assert sorted[m + 1] == rest[j];
        }
      }
    }
  }

  /** `sort_by` with the comparison reversed: a stable sort by descending
      start offset. */
  function SortFacets(fs: seq<RecordFacet>): (r: seq<RecordFacet>)
    ensures SortedDesc(r)
    ensures multiset(r) == multiset(fs)
  {
    if fs == [] then []
    else
      assert fs == [fs[0]] + fs[1..];
      InsertDescSorted(fs[0], SortFacets(fs[1..]));
      InsertDesc(fs[0], SortFacets(fs[1..]))
  }

  // ---------------------------------------------------------------------
  // Splicing
  // ---------------------------------------------------------------------

  /** `Vec::splice` of the bytes `[start, end)` by the bytes of `uri`.
      `None` stands for the panic of the source on a range that is reversed
      or ends past the bytes. The offsets need not be character boundaries:
      only the bytes as a whole are checked, once every splice is done. */
  function SpliceLink(bytes: seq<Byte>, start: nat, end: nat, uri: string): (r: Option<seq<Byte>>)
    ensures r.Some? <==> start <= end <= |bytes|
    ensures r.Some? ==> |r.value| == |bytes| - (end - start) + ByteLen(uri)
  {
    if start <= end <= |bytes| then Some(bytes[..start] + Encode(uri) + bytes[end..])
    else None
  }

  /** The inner loop: every link feature of facet `f` splices its URI. */
  function SpliceFeatures(t: seq<Byte>, f: RecordFacet, features: seq<RecordFeature>): Option<seq<Byte>>
    decreases |features|
  {
    if features == [] then Some(t)
    else
      match features[0]
      case OtherFeature => SpliceFeatures(t, f, features[1..])
      case LinkFeature(uri) =>
        match SpliceLink(t, f.byteStart, f.byteEnd, uri)
        case None => None
        case Some(next) => SpliceFeatures(next, f, features[1..])
  }

  /** The outer loop over the facets, in the order given. */
  function SpliceFacets(t: seq<Byte>, facets: seq<RecordFacet>): Option<seq<Byte>>
    decreases |facets|, 1
  {
    if facets == [] then Some(t)
    else ThenFacets(SpliceFeatures(t, facets[0], facets[0].features), facets[1..])
  }

  /** The facets still to come, after a splice that may have failed. */
  function ThenFacets(spliced: Option<seq<Byte>>, facets: seq<RecordFacet>): Option<seq<Byte>>
    decreases |facets|, 2
  {
    match spliced
    case None => None
    case Some(next) => SpliceFacets(next, facets)
  }

  /** The outer loop at facet `i`: its features, then the facets after it. */
  lemma FacetsFront(t: seq<Byte>, facets: seq<RecordFacet>, i: nat)
    requires i < |facets|
    ensures SpliceFacets(t, facets[i..]) == ThenFacets(SpliceFeatures(t, facets[i], facets[i].features), facets[i + 1..])
  {
    assert facets[i..][0] == facets[i] && facets[i..][1..] == facets[i + 1..];
  }

  /** The inner loop at feature `j`: a link feature splices or fails, any
      other is skipped. */
  lemma FeaturesFront(t: seq<Byte>, f: RecordFacet, j: nat)
    requires j < |f.features|
    ensures f.features[j].OtherFeature? ==>
              SpliceFeatures(t, f, f.features[j..]) == SpliceFeatures(t, f, f.features[j + 1..])
    ensures f.features[j].LinkFeature? ==>
              SpliceFeatures(t, f, f.features[j..])
              == if f.byteStart <= f.byteEnd <= |t|
                 then SpliceFeatures(t[..f.byteStart] + Encode(f.features[j].uri) + t[f.byteEnd..], f, f.features[j + 1..])
                 else None
  {
    assert f.features[j..][0] == f.features[j] && f.features[j..][1..] == f.features[j + 1..];
  }

  /** The link card's URI after a blank line, unless the text holds it. */
  function WithExternal(text: string, externalUri: Option<string>): string {
    match externalUri
    case None => text
    case Some(uri) => if Contains(text, uri) then text else text + "\n\n" + uri
  }

  /** The text's bytes with the links of the facets spliced in, read back
      as a text: `None` where a splice panics or the bytes are not valid
      UTF-8. */
  function LinkedText(text: string, facets: seq<RecordFacet>): Option<string> {
    match SpliceFacets(Encode(text), SortFacets(facets))
    case None => None
    case Some(bytes) => Decode(bytes)
  }

  /** What `bsky_record_get_text` returns; `None` where it panics. */
  function TextOfRecord(record: BskyRecord): (r: Option<string>)
    ensures record.facets.None? ==> r.Some? && StartsWith(r.value, record.text)
    ensures record.facets.Some? ==>
              match LinkedText(record.text, record.facets.value)
              case None => r.None?
              case Some(linked) => r.Some? && StartsWith(r.value, linked)
    ensures r.Some? && record.externalUri.Some? ==> Contains(r.value, record.externalUri.value)
  {
    var spliced :=
      match record.facets
      case None => Some(record.text)
      case Some(facets) => LinkedText(record.text, facets);
    match spliced
    case None => None
    case Some(text) =>
      var r := WithExternal(text, record.externalUri);
      assert StartsWith(r, text) by {
        if r != text {
          assert r[..|text|] == text;
        }
      }
      if record.externalUri.Some? then
        WithExternalContains(text, record.externalUri.value);
        Some(r)
      else Some(r)
  }

  /** The inner loop of `bsky_record_get_text`: every link feature of
      `facet` splices its URI into `bytes`; `None` where the range is
      reversed or ends past the bytes. */
  method SpliceFacetLinks(bytes: seq<Byte>, facet: RecordFacet) returns (r: Option<seq<Byte>>)
    ensures r == SpliceFeatures(bytes, facet, facet.features)
  {
    var current := bytes;
    var j := 0;
    while j < |facet.features|
      invariant j <= |facet.features|
      invariant SpliceFeatures(bytes, facet, facet.features) == SpliceFeatures(current, facet, facet.features[j..])
    {
      FeaturesFront(current, facet, j);
      var feature := facet.features[j];
      if feature.LinkFeature? {
        if !(facet.byteStart <= facet.byteEnd <= |current|) {
          return None;
        }
        current := current[..facet.byteStart] + Encode(feature.uri) + current[facet.byteEnd..];
      }
      j := j + 1;
    }
    assert facet.features[j..] == [];
    r := Some(current);
  }

  /** `bsky_record_get_text`: the splices are done on the text's byte
      vector, which is read back as a text at the end. */
  method RecordGetText(record: BskyRecord) returns (r: Option<string>)
    ensures r == TextOfRecord(record)
  {
    var text := record.text;
    // Link facets put their URIs into the text.
    if record.facets.Some? {
      var bytes := Encode(record.text);
      // Highest offset first, so the offsets still to come stay valid.
      var sortedFacets := SortFacets(record.facets.value);
      var i := 0;
      while i < |sortedFacets|
        invariant i <= |sortedFacets|
        invariant SpliceFacets(Encode(record.text), sortedFacets) == SpliceFacets(bytes, sortedFacets[i..])
      {
        FacetsFront(bytes, sortedFacets, i);
        var spliced := SpliceFacetLinks(bytes, sortedFacets[i]);
        if spliced.None? {
          return None;
        }
        bytes := spliced.value;
        i := i + 1;
      }
      // The bytes must be valid UTF-8 once every link is in.
      var decoded := Decode(bytes);
      if decoded.None? {
        return None;
      }
      text := decoded.value;
    }
    // An external card's URI is appended unless the text already holds it.
    if record.externalUri.Some? && !Contains(text, record.externalUri.value) {
      text := text + "\n\n" + record.externalUri.value;
    }
    r := Some(text);
  }

  // ---------------------------------------------------------------------
  // Properties
  // ---------------------------------------------------------------------

  /** The facets are visited from the highest start offset down, and none is
      lost or added by the sort. */
  lemma SortFacetsOrder(fs: seq<RecordFacet>)
    ensures |SortFacets(fs)| == |fs|
    ensures forall i, j :: 0 <= i < j < |fs| ==> SortFacets(fs)[i].byteStart >= SortFacets(fs)[j].byteStart
    ensures forall f :: f in fs <==> f in SortFacets(fs)
  {
    var r := SortFacets(fs);
    assert |multiset(r)| == |multiset(fs)|;
    forall f ensures f in fs <==> f in r {
      assert f in fs <==> f in multiset(fs);
      assert f in r <==> f in multiset(r);
    }
  }

  /** The link card's URI is always in the text, which is left as it is
      when it holds the URI already. */
  lemma WithExternalContains(text: string, uri: string)
    ensures Contains(WithExternal(text, Some(uri)), uri)
    ensures Contains(text, uri) ==> WithExternal(text, Some(uri)) == text
    ensures !Contains(text, uri) ==> WithExternal(text, Some(uri)) == text + "\n\n" + uri
  {
    if !Contains(text, uri) {
      var t := text + "\n\n" + uri;
      assert OccursAt(t, uri, |text| + 2) by {
        assert t[|text| + 2..|text| + 2 + |uri|] == uri;
      }
    }
  }

  /** A link span of the text in character indices, with its URI. */
  datatype LinkSpan = LinkSpan(start: nat, end: nat, uri: string)

  /** Spans inside a text of `len` characters, highest first, not
      overlapping. */
  predicate DescendingSpans(spans: seq<LinkSpan>, len: nat) {
    forall k :: 0 <= k < |spans| ==>
      && spans[k].start <= spans[k].end <= len
      && (k + 1 < |spans| ==> spans[k + 1].end <= spans[k].start)
  }

  /** Every later span ends before the first one starts. */
  lemma {:induction false} SpansBelowFirst(spans: seq<LinkSpan>, len: nat, k: nat)
    requires DescendingSpans(spans, len) && 0 < k < |spans|
    ensures spans[k].end <= spans[0].start
    decreases k
  {
    if k > 1 {
      SpansBelowFirst(spans, len, k - 1);
    }
  }

  lemma DescendingTail(spans: seq<LinkSpan>, len: nat)
    requires DescendingSpans(spans, len) && spans != []
    ensures DescendingSpans(spans[1..], spans[0].start)
  {
    forall k | 0 <= k < |spans[1..]| ensures spans[1..][k].end <= spans[0].start {
      SpansBelowFirst(spans, len, k + 1);
    }
  }

  /** The facet of span `s` of text `t`: one link feature over its bytes. */
  function FacetOf(t: string, s: LinkSpan): RecordFacet
    requires s.start <= s.end <= |t|
  {
    RecordFacet(Off(t, s.start), Off(t, s.end), [LinkFeature(s.uri)])
  }

  /** Reference definition: the text with every span replaced by its URI,
      read from left to right. */
  function Replaced(t: string, spans: seq<LinkSpan>): string
    requires DescendingSpans(spans, |t|)
    decreases |spans|
  {
    if spans == [] then t
    else
      DescendingTail(spans, |t|);
      Replaced(t[..spans[0].start], spans[1..]) + spans[0].uri + t[spans[0].end..]
  }

  /** Splicing the facet of one span of `p`, in `p + q`, puts its URI in
      place of its characters. */
  lemma SpliceFirst(p: string, q: string, f: RecordFacet, s: LinkSpan)
    requires s.start <= s.end <= |p| && f == FacetOf(p, s)
    ensures SpliceFeatures(Encode(p + q), f, f.features) == Some(Encode(p[..s.start] + (s.uri + p[s.end..] + q)))
  {
    var t := Encode(p + q);
    EncodeSplice(p, q, s.start, s.end, s.uri);
    var next := t[..Off(p, s.start)] + Encode(s.uri) + t[Off(p, s.end)..];
    assert SpliceLink(t, f.byteStart, f.byteEnd, s.uri) == Some(next);
    assert f.features[1..] == [];
    assert SpliceFeatures(next, f, f.features[1..]) == Some(next);
  }

  /** The facets of the later spans are also the facets of those spans in
      the text up to the first span. */
  lemma FacetsOfPrefix(p: string, facets: seq<RecordFacet>, spans: seq<LinkSpan>)
    requires DescendingSpans(spans, |p|) && spans != [] && |facets| == |spans|
    requires forall k :: 0 <= k < |spans| ==> facets[k] == FacetOf(p, spans[k])
    ensures DescendingSpans(spans[1..], |p[..spans[0].start]|)
    ensures forall k :: 0 <= k < |spans| - 1 ==> facets[1..][k] == FacetOf(p[..spans[0].start], spans[1..][k])
  {
    var p' := p[..spans[0].start];
    DescendingTail(spans, |p|);
    forall k | 0 <= k < |spans| - 1
      ensures facets[1..][k] == FacetOf(p', spans[1..][k])
    {
      assert p'[..|p'|] == p[..|p'|];
      OffAgree(p, p', |p'|, spans[1..][k].start);
      OffAgree(p, p', |p'|, spans[1..][k].end);
    }
  }

  /** The reference replaces the first span after the spans below it. */
  lemma ReplacedFirst(p: string, spans: seq<LinkSpan>, q: string)
    requires DescendingSpans(spans, |p|) && spans != []
    ensures DescendingSpans(spans[1..], |p[..spans[0].start]|)
    ensures Replaced(p, spans) + q
            == Replaced(p[..spans[0].start], spans[1..]) + (spans[0].uri + p[spans[0].end..] + q)
  {
    DescendingTail(spans, |p|);
    var r := Replaced(p[..spans[0].start], spans[1..]);
    var u, tail := spans[0].uri, p[spans[0].end..];
    assert Replaced(p, spans) == r + u + tail;
    Concat4(r, u, tail, q);
  }

  /** Splicing the link facets of a text followed by anything else changes
      only the text, as the reference says. */
  lemma {:induction false} SpliceSpansBefore(p: string, q: string, facets: seq<RecordFacet>, spans: seq<LinkSpan>)
    requires DescendingSpans(spans, |p|) && |facets| == |spans|
    requires forall k :: 0 <= k < |spans| ==> facets[k] == FacetOf(p, spans[k])
    ensures SpliceFacets(Encode(p + q), facets) == Some(Encode(Replaced(p, spans) + q))
    decreases |spans|
  {
    if spans != [] {
      var s := spans[0];
      var p' := p[..s.start];
      var q' := s.uri + p[s.end..] + q;
      SpliceFirst(p, q, facets[0], s);
      FacetsOfPrefix(p, facets, spans);
      SpliceSpansBefore(p', q', facets[1..], spans[1..]);
      ReplacedFirst(p, spans, q);
    } else {
      assert p + q == p + q;
    }
  }

  /** Facets that, once sorted, are the link facets of non-overlapping
      spans give every span its own URI in place of its text: splicing from
      the highest offset down never moves a span still to be spliced. */
  lemma RecordTextReplacesSpans(record: BskyRecord, spans: seq<LinkSpan>)
    requires record.facets.Some?
    requires DescendingSpans(spans, |record.text|)
    requires var sorted := SortFacets(record.facets.value);
             |sorted| == |spans| && forall k :: 0 <= k < |spans| ==> sorted[k] == FacetOf(record.text, spans[k])
    ensures TextOfRecord(record) == Some(WithExternal(Replaced(record.text, spans), record.externalUri))
  {
    SpliceSpansBefore(record.text, [], SortFacets(record.facets.value), spans);
    assert record.text + [] == record.text;
    assert Replaced(record.text, spans) + [] == Replaced(record.text, spans);
    DecodeEncode(Replaced(record.text, spans));
  }

  /** Only the bytes as a whole must be valid UTF-8: a splice may cut a
      character that a later splice repairs. In "é" (the bytes C3 A9) the
      link over byte 1 comes first and leaves C3 78, which is not UTF-8;
      the link over byte 0 then leaves "yx". */
  lemma CutCharacterRepaired()
    ensures var facets := [RecordFacet(0, 1, [LinkFeature("y")]), RecordFacet(1, 2, [LinkFeature("x")])];
            TextOfRecord(BskyRecord("\U{00E9}", Some(facets), None)) == Some("yx")
  {
    CutCharacterLinked();
  }

  /** The spliced bytes of the example above read back as "yx". */
  lemma CutCharacterLinked()
    ensures LinkedText("\U{00E9}", [RecordFacet(0, 1, [LinkFeature("y")]), RecordFacet(1, 2, [LinkFeature("x")])]) == Some("yx")
  {
    var f0, f1 := RecordFacet(0, 1, [LinkFeature("y")]), RecordFacet(1, 2, [LinkFeature("x")]);
    assert SortFacets([f0, f1]) == [f1, f0] by {
      assert [f0, f1][1..] == [f1];
      assert SortFacets([f1]) == [f1];
    }
    CutSplices(f0, f1);
    DecodeEncode("yx");
  }

  /** The two splices of the example above, in the order of the sort. */
  lemma CutSplices(f0: RecordFacet, f1: RecordFacet)
    requires f0 == RecordFacet(0, 1, [LinkFeature("y")]) && f1 == RecordFacet(1, 2, [LinkFeature("x")])
    ensures SpliceFacets(Encode("\U{00E9}"), [f1, f0]) == Some(Encode("yx"))
    ensures Decode([0xC3, 0x78]) == None
  {
    var bytes := Encode("\U{00E9}");
    assert bytes == [0xC3, 0xA9];
    assert Encode("x") == [0x78] && Encode("y") == [0x79];
    var once := bytes[..1] + Encode("x") + bytes[2..];
    assert once == [0xC3, 0x78];
    assert SpliceFeatures(bytes, f1, f1.features) == Some(once);
    var twice := once[..0] + Encode("y") + once[1..];
    assert twice == [0x79, 0x78] == Encode("yx");
    assert SpliceFeatures(once, f0, f0.features) == Some(twice);
    assert [f1, f0][1..] == [f0] && [f0][1..] == [];
    assert SpliceFacets(once, [f0]) == ThenFacets(Some(twice), []);
  }

  /** A splice that leaves a cut character panics: after a link over byte
      0 of "é" the byte A9 is left on its own. */
  lemma CutCharacterPanics()
    ensures TextOfRecord(BskyRecord("\U{00E9}", Some([RecordFacet(0, 1, [LinkFeature("y")])]), None)) == None
  {
    var f0 := RecordFacet(0, 1, [LinkFeature("y")]);
    assert SortFacets([f0]) == [f0];
    var bytes := Encode("\U{00E9}");
    assert bytes == [0xC3, 0xA9];
    assert Encode("y") == [0x79];
    var once := bytes[..0] + Encode("y") + bytes[1..];
    assert once == [0x79, 0xA9];
    assert SpliceFacets(bytes, [f0]) == Some(once) by {
      assert [f0][1..] == [];
      assert SpliceFeatures(bytes, f0, f0.features) == Some(once);
    }
    assert Decode(once[1..]) == None;
  }
}
