/**
  The two length fitters of the synchronisation. `bsky_post_shorten` makes a
  Mastodon text fit Bluesky's 300 graphemes, measured after link shortening;
  `toot_shorten` makes a Bluesky text fit Mastodon's 500 characters, where
  every link counts 23. Both drop the last word until the words kept,
  followed by a link to the full post, fit.
 */
module Shorten {
  import opened Wrappers
  import opened Text
  import opened Facets
  import opened LinkShortening
  import opened RichText

  /** Mastodon's post limit, as the source hard-codes it. */
  const MastodonLimit: nat := 500

  /** What every link costs in Mastodon's count. */
  const MastodonLinkLength: nat := 23

  /** What follows the words kept: one ellipsis character (U+2026) and a space. */
  const Continuation: string := "\U{2026} "

  // ---------------------------------------------------------------------
  // mastodon_text_length
  // ---------------------------------------------------------------------

  /** The text with every match of `https?://\S+` from `from` on removed. */
  function WithoutLinks(t: string, from: nat): string
    requires from <= |t|
    decreases |t| - from
  {
    match NextLinkMatch(t, from)
    case None => t[from..]
    case Some(m) => t[from..m.start] + WithoutLinks(t, m.end)
  }

  /** The characters the spans `ms` cover. */
  function Covered(ms: seq<CharSpan>): int {
    if ms == [] then 0 else (ms[0].end - ms[0].start) + Covered(ms[1..])
  }

  /** Removing the links removes exactly the characters they cover. */
  lemma {:induction false} WithoutLinksLength(t: string, from: nat)
    requires from <= |t|
    ensures |WithoutLinks(t, from)| == |t| - from - Covered(LinkMatches(t, from))
    decreases |t| - from
  {
    match NextLinkMatch(t, from)
    case None =>
    case Some(m) =>
      WithoutLinksLength(t, m.end);
  }

  /** `mastodon_text_length`: the characters outside links plus 23 per
      link, so a text without a link is counted character by character. */
  function MastodonTextLength(text: string): (n: nat)
    ensures n == |text| - Covered(LinkMatches(text, 0)) + MastodonLinkLength * |LinkMatches(text, 0)|
    ensures LinkMatches(text, 0) == [] ==> n == |text|
  {
    WithoutLinksLength(text, 0);
    |WithoutLinks(text, 0)| + MastodonLinkLength * |LinkMatches(text, 0)|
  }

  // ---------------------------------------------------------------------
  // Dropping words
  // ---------------------------------------------------------------------

  /** No white space at either end, as `trim` leaves a text. */
  predicate Trimmed(s: string) {
    s == [] || (!IsWhitespace(s[0]) && !IsWhitespace(s[|s| - 1]))
  }

  /** One pass of either loop: the last word removed and the rest trimmed.
      At least one character goes, and what is left of a trimmed text is a
      prefix of it. */
  function DropWord(s: string): (r: string)
    ensures Trimmed(r)
    ensures s != [] ==> |r| < |s|
    ensures Trimmed(s) ==> StartsWith(s, r)
  {
    var d := DropLastWord(s);
    DropWordPrefix(s, d);
    Trim(d)
  }

  lemma DropWordPrefix(s: string, d: string)
    requires d == DropLastWord(s)
    ensures Trimmed(s) ==> StartsWith(s, Trim(d))
    ensures s != [] ==> |Trim(d)| < |s|
  {
    if Trimmed(s) {
      assert d == [] || d[0] == s[0];
      TrimOfUntrimmedStart(d);
    }
  }

  /** How Bluesky counts a text: the graphemes of `get_rich_text`. */
  function RichTextLength(text: string): nat {
    |ShortenedText(text)|
  }

  /** The words the loops keep: from `shortened` on, the last word is dropped
      until the words followed by `suffix` measure at most `limit`. When
      nothing is left and the suffix alone is still too long, the source
      loops forever; the model keeps the empty text there. */
  function FitWords(measure: string -> nat, limit: nat, shortened: string, suffix: string): (kept: string)
    ensures Trimmed(shortened) ==> StartsWith(shortened, kept)
    ensures measure(kept + suffix) <= limit || kept == []
    decreases |shortened|
  {
    var s := DropWord(shortened);
    if measure(s + suffix) <= limit || s == [] then s
    else
      var kept := FitWords(measure, limit, s, suffix);
      FitWordsPrefix(shortened, s, kept);
      kept
  }

  lemma FitWordsPrefix(shortened: string, s: string, kept: string)
    requires Trimmed(shortened) ==> StartsWith(shortened, s)
    requires Trimmed(s) ==> StartsWith(s, kept)
    requires Trimmed(s)
    ensures Trimmed(shortened) ==> StartsWith(shortened, kept)
  {
    if Trimmed(shortened) {
      StartsWithTrans(shortened, s, kept);
    }
  }

  /** One unfolding of `FitWords`. */
  lemma FitWordsStep(measure: string -> nat, limit: nat, shortened: string, suffix: string, s: string)
    requires s == Trim(DropLastWord(shortened))
    ensures measure(s + suffix) <= limit || s == [] ==> FitWords(measure, limit, shortened, suffix) == s
    ensures measure(s + suffix) > limit && s != [] ==>
              FitWords(measure, limit, shortened, suffix) == FitWords(measure, limit, s, suffix)
  {
  }

  /** The loop both fitters share: while the text measures more than
      `limit`, the last word is removed and `suffix` appended. */
  method DropWordsToFit(start: string, suffix: string, measure: string -> nat, limit: nat, count: nat)
    returns (withLink: string)
    requires count > limit
    ensures withLink == FitWords(measure, limit, start, suffix) + suffix
  {
    var shortened := start;
    var charCount := count;
    withLink := shortened;
    while charCount > limit
      invariant charCount > limit ==>
                  FitWords(measure, limit, shortened, suffix) == FitWords(measure, limit, start, suffix)
      invariant charCount <= limit ==> withLink == FitWords(measure, limit, start, suffix) + suffix
      decreases if charCount > limit then |shortened| + 1 else 0
    {
      ghost var previous := shortened;
      // One round drops the final word.
      shortened := Trim(DropLastWord(shortened));
      withLink := shortened + suffix;
      charCount := measure(withLink);
      FitWordsStep(measure, limit, previous, suffix, shortened);
      if charCount > limit && shortened == [] {
        // The source never leaves the loop from here: the text stays the same.
        return;
      }
    }
  }

  // ---------------------------------------------------------------------
  // toot_shorten
  // ---------------------------------------------------------------------

  /** The match of `[^/]+$` in a post URI: its last segment. It is empty when
      the URI ends with `/`, where the source's `unwrap` panics. */
  function PostId(uri: string): (id: string)
    ensures |id| <= |uri| && id == uri[|uri| - |id|..]
    ensures forall k :: 0 <= k < |id| ==> id[k] != '/'
    ensures |id| < |uri| ==> uri[|uri| - |id| - 1] == '/'
    decreases |uri|
  {
    if uri == [] || uri[|uri| - 1] == '/' then []
    else PostId(uri[..|uri| - 1]) + [uri[|uri| - 1]]
  }

  /** The link to the full post on Bluesky. */
  function ProfileLink(handle: string, postId: string): string {
    "https://bsky.app/profile/" + handle + "/post/" + postId
  }

  /** What `toot_shorten` returns for the text of the post with author
      `handle` and URI `uri`. */
  function TootShortened(text: string, handle: string, uri: string): (r: string)
    ensures MastodonTextLength(text) <= MastodonLimit ==> r == text
    ensures MastodonTextLength(text) > MastodonLimit ==>
              EndsWith(r, Continuation + ProfileLink(handle, PostId(uri)))
  {
    if MastodonTextLength(text) <= MastodonLimit then text
    else
      var suffix := Continuation + ProfileLink(handle, PostId(uri));
      var kept := FitWords(MastodonTextLength, MastodonLimit, Trim(text), suffix);
      ConcatSplit(kept, suffix);
      kept + suffix
  }

  /** A text without white space. */
  predicate NoWhitespace(s: string) {
    forall k :: 0 <= k < |s| ==> !IsWhitespace(s[k])
  }

  /** Visible ASCII characters are not white space. */
  lemma VisibleAsciiNoWhitespace(s: string)
    requires forall k :: 0 <= k < |s| ==> '!' <= s[k] <= '~'
    ensures NoWhitespace(s)
  {
  }

  lemma NoWhitespaceAppend(a: string, b: string)
    requires NoWhitespace(a) && NoWhitespace(b)
    ensures NoWhitespace(a + b)
  {
    forall k | 0 <= k < |a + b| ensures !IsWhitespace((a + b)[k]) {
      if k >= |a| {
        assert (a + b)[k] == b[k - |a|];
      }
    }
  }

  /** `toot_shorten`: the text when it fits Mastodon's limit, otherwise the
      words that fit and then a link to the whole post on Bluesky. */
  method TootShorten(text: string, handle: string, uri: string) returns (r: string)
    ensures r == TootShortened(text, handle, uri)
  {
    var charCount := MastodonTextLength(text);
    if charCount <= MastodonLimit {
      return text;
    }
    var shortened := Trim(text);
    var postId := PostId(uri);
    var link := "https://bsky.app/profile/" + handle + "/post/" + postId;
    // Every candidate is measured with the continuation and the post's Bluesky URL.
    r := DropWordsToFit(shortened, Continuation + link, MastodonTextLength, MastodonLimit, charCount);
  }

  // ---------------------------------------------------------------------
  // bsky_post_shorten
  // ---------------------------------------------------------------------

  /** What follows the words kept: the ellipsis and the toot's URL, if any. */
  function UrlSuffix(tootUrl: Option<string>): string {
    match tootUrl
    case None => ""
    case Some(url) => Continuation + url
  }

  /** What `bsky_post_shorten` returns for `text` of the toot at `tootUrl`. */
  function BskyPostShortened(text: string, tootUrl: Option<string>): (r: string)
    ensures |ShortenedText(text)| <= MaxGraphemes ==> r == text
    ensures |ShortenedText(text)| > MaxGraphemes ==> EndsWith(r, UrlSuffix(tootUrl))
  {
    if |text| <= MaxGraphemes then text
    else if |ShortenedText(text)| <= MaxGraphemes then text
    else
      var suffix := UrlSuffix(tootUrl);
      var kept := FitWords(RichTextLength, MaxGraphemes, Trim(text), suffix);
      ConcatSplit(kept, suffix);
      kept + suffix
  }

  /** `bsky_post_shorten`: the text when it fits Bluesky's limit after link
      shortening, otherwise the words that fit with the toot's URL. */
  method BskyPostShorten(text: string, tootUrl: Option<string>) returns (r: string)
    ensures r == BskyPostShortened(text, tootUrl)
  {
    var charCount := |text|;
    if charCount <= MaxGraphemes {
      return text;
    }
    // Link shortening alone may be enough.
    var richText := GetRichText(text);
    charCount := |richText|;
    if charCount <= MaxGraphemes {
      return text;
    }
    var shortened := Trim(text);
    // With a toot URL, the continuation and that URL follow the words kept.
    r := DropWordsToFit(shortened, UrlSuffix(tootUrl), RichTextLength, MaxGraphemes, charCount);
  }
}
