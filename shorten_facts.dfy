/**
  What the two length fitters promise: the result of each is the text
  itself when it fits, and otherwise words of the trimmed text followed by
  the link to the full post, short enough for the target network.
 */
module ShortenFacts {
  import opened Wrappers
  import opened Text
  import opened Facets
  import opened LinkShortening
  import opened Shorten

  /** The words kept from a trimmed text are a prefix of it. */
  lemma FitWordsKeepsPrefix(measure: string -> nat, limit: nat, text: string, suffix: string)
    ensures StartsWith(Trim(text), FitWords(measure, limit, Trim(text), suffix))
  {
  }

  /** The words kept followed by the suffix end with the suffix. */
  lemma FitWordsSuffix(measure: string -> nat, limit: nat, start: string, suffix: string)
    ensures var r := FitWords(measure, limit, start, suffix) + suffix;
            |suffix| <= |r| && r[|r| - |suffix|..] == suffix
  {
    ConcatSplit(FitWords(measure, limit, start, suffix), suffix);
  }

  /** What comes before the suffix is a prefix of the trimmed start. */
  lemma FitWordsHead(measure: string -> nat, limit: nat, start: string, suffix: string)
    requires Trimmed(start)
    ensures var r := FitWords(measure, limit, start, suffix) + suffix;
            StartsWith(start, r[..|r| - |suffix|])
  {
    ConcatSplit(FitWords(measure, limit, start, suffix), suffix);
  }

  /** The result measures at most `limit` unless no word is left. */
  lemma FitWordsMeasure(measure: string -> nat, limit: nat, start: string, suffix: string)
    ensures var r := FitWords(measure, limit, start, suffix) + suffix;
            measure(r) <= limit || r == suffix
  {
    ConcatSplit(FitWords(measure, limit, start, suffix), suffix);
  }

  /** `s` after `n` passes of the loop. */
  function DropWords(s: string, n: nat): string {
    if n == 0 then s else DropWords(DropWord(s), n - 1)
  }

  /** How many passes the loop makes from `start` on. */
  function FitSteps(measure: string -> nat, limit: nat, start: string, suffix: string): (n: nat)
    ensures n >= 1
    decreases |start|
  {
    var s := DropWord(start);
    if measure(s + suffix) <= limit || s == [] then 1 else 1 + FitSteps(measure, limit, s, suffix)
  }

  /** The loop keeps the first candidate that fits: the words kept are the
      start after some passes, and every candidate of an earlier pass still
      had a word and measured over the limit with the suffix. In
      particular, when more than one pass was made, the kept words with
      their next word put back measure over the limit. */
  lemma FitWordsFirstFit(measure: string -> nat, limit: nat, start: string, suffix: string)
    ensures FitWords(measure, limit, start, suffix) == DropWords(start, FitSteps(measure, limit, start, suffix))
    ensures forall k :: 1 <= k < FitSteps(measure, limit, start, suffix) ==>
              DropWords(start, k) != [] && measure(DropWords(start, k) + suffix) > limit
  {
    FitWordsAfterSteps(measure, limit, start, suffix);
    FitStepsTooLong(measure, limit, start, suffix);
  }

  lemma {:induction false} FitWordsAfterSteps(measure: string -> nat, limit: nat, start: string, suffix: string)
    ensures FitWords(measure, limit, start, suffix) == DropWords(start, FitSteps(measure, limit, start, suffix))
    decreases |start|
  {
    var s := DropWord(start);
    DropWordsShift(start, 0);
    if measure(s + suffix) <= limit || s == [] {
      assert FitSteps(measure, limit, start, suffix) == 1;
      assert FitWords(measure, limit, start, suffix) == s;
    } else {
      assert FitWords(measure, limit, start, suffix) == FitWords(measure, limit, s, suffix);
      assert FitSteps(measure, limit, start, suffix) == FitSteps(measure, limit, s, suffix) + 1;
      FitWordsAfterSteps(measure, limit, s, suffix);
      DropWordsShift(start, FitSteps(measure, limit, s, suffix));
    }
  }

  lemma DropWordsShift(s: string, n: nat)
    ensures DropWords(s, n + 1) == DropWords(DropWord(s), n)
  {
  }

  lemma {:induction false} FitStepsTooLong(measure: string -> nat, limit: nat, start: string, suffix: string)
    ensures forall k :: 1 <= k < FitSteps(measure, limit, start, suffix) ==>
              DropWords(start, k) != [] && measure(DropWords(start, k) + suffix) > limit
    decreases |start|
  {
    var s := DropWord(start);
    if !(measure(s + suffix) <= limit || s == []) {
      FitStepsTooLong(measure, limit, s, suffix);
      var n := FitSteps(measure, limit, s, suffix);
      forall k | 1 <= k < n + 1
        ensures DropWords(start, k) != [] && measure(DropWords(start, k) + suffix) > limit
      {
        assert DropWords(start, k) == DropWords(s, k - 1);
      }
    }
  }

  /** The words kept followed by the suffix: a prefix of the start, then the
      suffix; it measures at most `limit` unless no word is left. */
  lemma FitWordsResult(measure: string -> nat, limit: nat, start: string, suffix: string)
    requires Trimmed(start)
    ensures var r := FitWords(measure, limit, start, suffix) + suffix;
            && |suffix| <= |r| && r[|r| - |suffix|..] == suffix
            && StartsWith(start, r[..|r| - |suffix|])
            && (measure(r) <= limit || r == suffix)
  {
    FitWordsSuffix(measure, limit, start, suffix);
    FitWordsHead(measure, limit, start, suffix);
    FitWordsMeasure(measure, limit, start, suffix);
  }

  /** The ellipsis, a space and one link without white space count 25. */
  lemma {:induction false} ContinuationLinkLength(link: string)
    requires StartsWith(link, "https://") && |link| > 8 && NoWhitespace(link)
    ensures MastodonTextLength(Continuation + link) == |Continuation| + MastodonLinkLength
  {
    var t := Continuation + link;
    assert t[0] == '\U{2026}' && t[1] == ' ';
    assert !OccursAt(t, "https://", 0) && !OccursAt(t, "http://", 0);
    assert !OccursAt(t, "https://", 1) && !OccursAt(t, "http://", 1);
    assert LinkMatchAt(t, 0).None? && LinkMatchAt(t, 1).None?;
    assert t[2..10] == link[..8];
    assert OccursAt(t, "https://", 2);
    assert t[10] == link[8];
    var e := NonSpaceEnd(t, 10);
    assert e == |t|;
    assert NextLinkMatch(t, 2) == Some(CharSpan(2, |t|));
    assert NextLinkMatch(t, 0) == Some(CharSpan(2, |t|));
    assert NextLinkMatch(t, |t|).None?;
    assert LinkMatches(t, 0) == [CharSpan(2, |t|)];
    assert WithoutLinks(t, 0) == t[0..2] + t[|t|..];
  }

  /** A text that fits is returned as it is; otherwise the result is a
      prefix of the trimmed text followed by the ellipsis and the link, and
      it fits unless no word is left. */
  lemma TootShortenedProperties(text: string, handle: string, uri: string)
    ensures MastodonTextLength(text) <= MastodonLimit ==> TootShortened(text, handle, uri) == text
    ensures MastodonTextLength(text) > MastodonLimit ==>
              var r := TootShortened(text, handle, uri);
              var suffix := Continuation + ProfileLink(handle, PostId(uri));
              && |suffix| <= |r| && r[|r| - |suffix|..] == suffix
              && StartsWith(Trim(text), r[..|r| - |suffix|])
              && (MastodonTextLength(r) <= MastodonLimit || r == suffix)
  {
    if MastodonTextLength(text) > MastodonLimit {
      var suffix := Continuation + ProfileLink(handle, PostId(uri));
      FitWordsResult(MastodonTextLength, MastodonLimit, Trim(text), suffix);
    }
  }

  /** The link to the full post is one `https://` link, without white space
      when the handle and the post id have none. */
  lemma ProfileLinkShape(handle: string, postId: string)
    requires NoWhitespace(handle) && NoWhitespace(postId)
    ensures StartsWith(ProfileLink(handle, postId), "https://") && |ProfileLink(handle, postId)| > 8
    ensures NoWhitespace(ProfileLink(handle, postId))
  {
    var head := "https://bsky.app/profile/";
    var middle := "/post/";
    VisibleAsciiNoWhitespace(head);
    VisibleAsciiNoWhitespace(middle);
    NoWhitespaceAppend(head, handle);
    NoWhitespaceAppend(head + handle, middle);
    NoWhitespaceAppend(head + handle + middle, postId);
    assert (head + handle + middle + postId)[..8] == head[..8];
  }

  /** With a handle and a post id free of white space, the result always
      fits: the link alone counts 23, so the loop of the source ends. */
  lemma TootShortenedFits(text: string, handle: string, uri: string)
    requires NoWhitespace(handle) && NoWhitespace(PostId(uri))
    ensures MastodonTextLength(TootShortened(text, handle, uri)) <= MastodonLimit
  {
    ProfileLinkShape(handle, PostId(uri));
    ContinuationLinkLength(ProfileLink(handle, PostId(uri)));
    TootShortenedProperties(text, handle, uri);
  }

  /** A text that fits after link shortening is returned as it is: its
      links are shortened when it is posted. */
  lemma BskyPostShortenedUnchanged(text: string, tootUrl: Option<string>)
    requires |ShortenedText(text)| <= MaxGraphemes
    ensures BskyPostShortened(text, tootUrl) == text
  {
  }

  /** Otherwise the result is a prefix of the trimmed text followed by the
      URL suffix. */
  lemma BskyPostShortenedShape(text: string, tootUrl: Option<string>)
    requires |ShortenedText(text)| > MaxGraphemes
    ensures var r := BskyPostShortened(text, tootUrl);
            var suffix := UrlSuffix(tootUrl);
            && |suffix| <= |r| && r[|r| - |suffix|..] == suffix
            && StartsWith(Trim(text), r[..|r| - |suffix|])
  {
    BskyPostShortenedFitted(text, tootUrl);
    var suffix := UrlSuffix(tootUrl);
    FitWordsKeepsPrefix(RichTextLength, MaxGraphemes, text, suffix);
    PrefixThenSuffix(Trim(text), FitWords(RichTextLength, MaxGraphemes, Trim(text), suffix), suffix);
  }

  lemma BskyPostShortenedFitted(text: string, tootUrl: Option<string>)
    requires |ShortenedText(text)| > MaxGraphemes
    ensures BskyPostShortened(text, tootUrl)
            == FitWords(RichTextLength, MaxGraphemes, Trim(text), UrlSuffix(tootUrl)) + UrlSuffix(tootUrl)
  {
    assert |text| > MaxGraphemes;
  }

  /** Every result fits after link shortening, except the URL suffix alone;
      without a URL, every result fits. */
  lemma BskyPostShortenedFits(text: string, tootUrl: Option<string>)
    ensures var r := BskyPostShortened(text, tootUrl);
            |ShortenedText(r)| <= MaxGraphemes || r == UrlSuffix(tootUrl)
    ensures tootUrl.None? ==> |ShortenedText(BskyPostShortened(text, tootUrl))| <= MaxGraphemes
  {
    if |ShortenedText(text)| > MaxGraphemes {
      FitWordsMeasure(RichTextLength, MaxGraphemes, Trim(text), UrlSuffix(tootUrl));
    }
  }
}
