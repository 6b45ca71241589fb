# mastodon-bluesky-sync in Dafny

A model of the logic of `mastodon-bluesky-sync`, the tool that keeps a
Mastodon account and a Bluesky account in step. The modelled parts do these
five jobs:

- **Rich text.** `get_rich_text` finds the link and hashtag facets of a
  text, as byte spans. When the text is over Bluesky's 300 graphemes, it
  shortens long links from the last to the first.
- **Sync planning.** `determine_posts` walks both timelines newest first.
  It decides which posts still have to be copied to the other network, in
  oldest-first order. A Bluesky post whose text cannot be decoded makes the
  source panic where it is decoded; the model returns no plan exactly
  there. For that it needs:
  - the equality test between a status and a post;
  - the text decoding on both sides;
  - the two length fitters (300 graphemes on Bluesky, 500 on Mastodon,
    where a link counts 23);
  - the post cache that prevents double posting;
  - the attachment list of a status.
- **Thread posting.** `post_to_mastodon` and `post_to_bluesky` send a
  status and then its replies breadth first, through a FIFO queue. Each
  reply answers the id its parent got.
- **Mastodon favourites.** `mastodon_delete_older_favs`:
  - loads the cached favourite dates, or fetches them page by page,
    following the `max_id` of the `Link` header;
  - unfavourites every status favourited more than 90 days ago;
  - keeps the cache file in step;
  - stops on a rate limit or an HTTP error.
- **Bluesky favourites.** `bluesky_delete_older_favs`:
  - fetches likes page by page through a cursor, which is saved between
    runs, with at most 100 pages per run;
  - splits each liked post's `at://` URI to get its record key;
  - deletes the like records older than 90 days.

Every network call is a function that the model takes as a parameter or
keeps in a class as a constant. Its answers depend on the request and on
the number of calls made before it. A class such as `Mastodon`, `Bluesky`
or `Network` logs the requests that were sent, so that contracts can state
exactly what was asked for.

The model is organised as follows:

- **Text and maps.**
  - Text is `seq<char>`, and one character is one grapheme. A character's
    byte width is its UTF-8 width (`Text.Utf8Width`).
  - Where the source edits a byte vector (`bsky_record_get_text`), the
    model does too: `Utf8.Encode` gives a text's bytes and `Utf8.Decode`
    is `String::from_utf8`.
  - `DatePostList`, a `BTreeMap`, is an ordered list of entries (`DateList`).
  - The cache files are a class (`FavCache.DateCache`) whose `file` field
    is the file's content, or `None` when there is no file.
- **Pure parts are functions; loops are methods.**
  - The loops are methods. Each is proved equal to a specification function
    or to a chain of turns: a recursive ghost predicate that states what
    each page request returned and what the next request sent.
  - Lemmas then state what the source promises about those functions.

## Model

| member | source | states |
|---|---|---|
| Utf8.EncodeAppend | src/sync.rs:282 | the bytes of a concatenation are the concatenated bytes |
| Utf8.DecodeEncode | src/sync.rs:297-298 | `from_utf8` of a text's bytes gives the text back |
| Utf8.DecodeEncodeChar | src/sync.rs:297-298 | each character's bytes decode to it, whatever follows |
| Utf8.EncodeSplit | src/sync.rs:282 | the bytes before a character's byte offset encode the characters before it |
| Utf8.EncodeSplice | src/sync.rs:290-293 | splicing bytes at the byte offsets of two character indices is the character-level splice, in bytes |
| Text.Utf8Width | src/bluesky_richtext.rs:45-48 | a character takes 1 to 4 bytes, and exactly 1 iff it is ASCII; this is the unit of facet byte offsets |
| Text.TrimStart | src/sync.rs:328 | the result is a suffix of the text that does not start with white space, and everything removed in front is white space |
| Text.TrimEnd | src/sync.rs:328 | the result is a prefix of the text, does not end with white space, and only white space was removed |
| Text.Trim | src/sync.rs:328 | the result is no longer than the text and has no white space at either end |
| Text.TrimSlice | src/sync.rs:328 | the result is a contiguous slice of the text, starting where `trim_start` leaves it, with only white space before and after it |
| Text.DropLastWord | src/sync.rs:327-334 | the `[^\s]+$` replacement: a prefix of the text that ends in white space (or is empty), with only non-white-space characters removed |
| Text.ReplaceAbsent | src/sync.rs:235-236 | `replace` of a pattern that does not occur leaves the text unchanged |
| Text.ReplaceAllLength | src/sync.rs:235-236 | `str::replace` with a replacement no longer than the pattern never makes the text longer, and one no shorter never makes it shorter |
| Text.Lower | src/sync.rs:232 | `to_lowercase` keeps the length and folds every character |
| Text.Reverse | src/sync.rs:24-28 | `reverse` puts element `k` at position `len-1-k` |
| Text.ReverseReverse | src/sync.rs:24-28 | reversing twice restores the order |
| Facets.NonSpaceEnd | src/bluesky_richtext.rs:41 | `[\S]+` is greedy: the run ends at the end of the text or at the first white space |
| Facets.LinkMatchAt | src/bluesky_richtext.rs:41 | a match of `https?://[\S]+` at a position covers the scheme and at least one more character |
| Facets.NextLinkMatch | src/bluesky_richtext.rs:41-42 | the next match found is a real match, at or after the scan position |
| Facets.NextLinkMatchIsLeftmost | src/bluesky_richtext.rs:42 | no match starts between the scan position and the match found (leftmost-first scanning) |
| Facets.LinkMatchesOrdered | src/bluesky_richtext.rs:42 | `captures_iter` yields real matches left to right, without overlap |
| Facets.LinkHits | src/bluesky_richtext.rs:41-57 | each link keeps at least its scheme after the optional pop of one trailing character |
| Facets.LinkHitsOrdered | src/bluesky_richtext.rs:42-57 | the links, after the pop, are ordered and disjoint |
| Facets.LinkFacetsAreHits | src/bluesky_richtext.rs:42-61 | every link facet is, in order, the facet of one spanned link: its URI is exactly the characters spanned |
| Facets.LinkFacetHasShape | src/bluesky_richtext.rs:44-61 | a link facet: `byte_start < byte_end`; the span's text is the URI; one trailing character is popped iff the match ends in `.,;:!?`, or ends in `)` with no `(` in it |
| Facets.HitPops | src/bluesky_richtext.rs:49-57 | the characters kept of a match: all but the last exactly when it ends in `.,;:!?`, or in `)` with no `(` in the match |
| Facets.LinkFacetsProperties | src/bluesky_richtext.rs:40-63 | the link facets lie within the text's bytes, in text order and disjoint, and each has the shape above |
| Facets.TagRunEnd | src/bluesky_richtext.rs:68 | the tag's character class is matched greedily |
| Facets.TagMatchAt | src/bluesky_richtext.rs:68 | a tag match needs the start of the text or a white space, then `#` or `＃`, then a valid tag group |
| Facets.NextTagMatch | src/bluesky_richtext.rs:68-72 | the next tag match found is a valid match after the scan position |
| Facets.StripTrailingPunctuation | src/bluesky_richtext.rs:75-77 | `\p{P}+$` replaced by nothing: a prefix not ending in punctuation, with only punctuation removed |
| Facets.TagFacetsStep | src/bluesky_richtext.rs:72-97 | each tag match adds its facet, or none when the tag is dropped, and the scan goes on after the match |
| Facets.TagFacetHasShape | src/bluesky_richtext.rs:73-96 | a tag facet: the tag is non-empty, does not start with U+FE0F, has at most 64 bytes, and spans from the marker to `marker.end + tag.len()` |
| Facets.TagFacetWithinMatch | src/bluesky_richtext.rs:85-90 | a tag facet covers bytes of its own match only |
| Facets.TagFacetsProperties | src/bluesky_richtext.rs:65-99 | the tag facets lie within the text's bytes, in text order and disjoint, and each has the shape above |
| Facets.DetectedFacets | src/bluesky_richtext.rs:37-101 | every detected facet has `0 ≤ byte_start < byte_end ≤ len(text)` in bytes and is either a link facet or a tag facet of the shapes above |
| Facets.DetectedFacetsProperties | src/bluesky_richtext.rs:37-101 | all link facets come before all tag facets, each group in text order and without overlap; every facet is inside the text |
| Facets.NoSchemeNoLinks | src/bluesky_richtext.rs:209-218 | a text without `http://` and `https://` (such as a bare domain) has no link facet |
| Facets.DetectFacetsWithoutResolution | src/bluesky_richtext.rs:37-101 | the method's loops return exactly the detected facets |
| Facets.ScanLinks | src/bluesky_richtext.rs:40-63 | the link loop pushes exactly the link facets, in order |
| Facets.CaptureToLinkFacet | src/bluesky_richtext.rs:43-61 | the per-capture body builds that capture's link facet, including the pop |
| Facets.TagScanStep | src/bluesky_richtext.rs:72-98 | one step of the tag loop keeps "facets pushed + facets to come = all tag facets" |
| Facets.ScanTags | src/bluesky_richtext.rs:65-99 | the tag loop pushes exactly the tag facets, in order |
| Facets.CaptureToTagFacet | src/bluesky_richtext.rs:73-96 | the per-capture body yields the tag facet, or none when the tag starts with U+FE0F or has over 64 bytes |
| Facets.DetectFacets | src/bluesky_richtext.rs:103-135 | the rich text keeps the text; its facets are `None` iff none was detected, otherwise every detected facet in order |
| LinkShortening.EllipsisWidth | src/bluesky_richtext.rs:166-169 | `…` is one grapheme and three bytes |
| LinkShortening.Take | src/bluesky_richtext.rs:159-163 | `chars().take(n)` is the prefix of length `min(n, len)` |
| LinkShortening.Kept | src/bluesky_richtext.rs:155-164 | at least 22 characters of a link are kept |
| LinkShortening.ShortenOneEffect | src/bluesky_richtext.rs:155-170 | one shortening keeps 22 characters when `text_len - uri_len + 23 > 300`, otherwise `300 - (text_len - uri_len) - 1`; it puts one `…` after them; everything before and after the span is unchanged; the new length is given in closed form |
| LinkShortening.ShortenedLength | src/bluesky_richtext.rs:144-180 | shortening links last to first reaches exactly 300 when the links' excess over 23 allows it; otherwise it ends at `len - excess` |
| LinkShortening.ShortenedKeepsStart | src/bluesky_richtext.rs:148-178 | shortening never makes the text longer and never touches the text before the first link |
| LinkShortening.ShortenedText | src/bluesky_richtext.rs:139-181 | `get_rich_text` leaves a text of at most 300 graphemes unchanged; otherwise the result is no longer, is exactly 300 when the links' excess over 23 allows it and `len - excess` when not, and keeps the text before the first link |
| LinkShortening.KeptPart | src/bluesky_richtext.rs:157-166 | the byte offset `byte_start + link_part.len()` is the character boundary after the kept prefix |
| LinkShortening.InsertEllipsis | src/bluesky_richtext.rs:166 | inserting `…` at that byte offset inserts it at that character |
| LinkShortening.DeleteAfterEllipsis | src/bluesky_richtext.rs:167-170 | deleting the shifted byte range removes exactly the rest of the link |
| LinkShortening.VisitedFacet | src/bluesky_richtext.rs:146-150 | visiting the reversed facets meets every tag facet first, then the links last to first; only links are edited |
| LinkShortening.TagFacetsAreTags | src/bluesky_richtext.rs:91-96 | every tag facet carries exactly one `Tag` feature |
| LinkShortening.LinkVisit | src/bluesky_richtext.rs:148-175 | the text and offsets of a link not yet visited are unchanged; a short link is skipped; a long one is shortened, ending the walk at once when the text fits |
| RichText.GetRichText | src/bluesky_richtext.rs:139-181 | the method returns exactly the specified shortened text |
| RichText.ShortenReversed | src/bluesky_richtext.rs:144-179 | the loop over the reversed facets computes the shortening of the links, last to first |
| RichText.VisitFacet | src/bluesky_richtext.rs:149-177 | one facet visit keeps the loop invariant, or returns early with the final text |
| RichText.VisitLink | src/bluesky_richtext.rs:150-175 | a link over 23 graphemes is shortened, and the early return happens iff the text fits in 300 |
| RichText.ShortenLink | src/bluesky_richtext.rs:152-170 | the byte-level insert and delete do the character-level shortening of one link |
| Shorten.WithoutLinksLength | src/sync.rs:383-385 | removing the `https?://\S+` matches removes exactly the characters they cover |
| Shorten.MastodonTextLength | src/sync.rs:382-391 | `mastodon_text_length` is the characters outside links plus 23 per link, and a text without links counts its characters |
| Shorten.DropWord | src/sync.rs:334 | dropping the last word of a trimmed text gives a shorter trimmed prefix of it |
| Shorten.DropWordPrefix | src/sync.rs:334 | the trimmed result of the replacement is a strictly shorter prefix |
| Shorten.FitWords | src/sync.rs:332-343 | the words kept are a prefix of the trimmed text and, with the suffix, measure at most the limit, unless no word is left |
| Shorten.FitWordsStep | src/sync.rs:332-343 | one round of the loop: stop when the measure fits or the text is empty, else go on with the shorter text |
| Shorten.DropWordsToFit | src/sync.rs:332-343 | the `while char_count > limit` loop returns the fitted words followed by the suffix |
| Shorten.TootShortened | src/sync.rs:349-379 | a text within 500 comes back as it is; otherwise the result ends with `… https://bsky.app/profile/{handle}/post/{id}` |
| Shorten.BskyPostShortened | src/sync.rs:311-345 | a text whose link-shortened form fits in 300 comes back as it is; otherwise the result ends with `… {toot_url}`, or nothing without a URL |
| Shorten.PostId | src/sync.rs:361-365 | `[^/]+$` yields the last `/`-free segment of the URI, preceded by `/` when it is not the whole URI |
| Shorten.TootShorten | src/sync.rs:349-379 | the method returns exactly the specified shortened status text |
| Shorten.BskyPostShorten | src/sync.rs:311-345 | the method returns exactly the specified shortened Bluesky text |
| ShortenFacts.FitWordsKeepsPrefix | src/sync.rs:328-334 | the words kept are a prefix of the trimmed text |
| ShortenFacts.FitWordsSuffix | src/sync.rs:337 | the result ends with the suffix |
| ShortenFacts.FitWordsHead | src/sync.rs:328-337 | what comes before the suffix is a prefix of the trimmed text |
| ShortenFacts.FitWordsMeasure | src/sync.rs:332-343 | the result measures at most the limit unless only the suffix is left |
| ShortenFacts.FitWordsResult | src/sync.rs:326-344 | the three facts above together |
| ShortenFacts.FitWordsFirstFit | src/sync.rs:326-344 | the loop keeps the first candidate that fits: the words kept are the text after `FitSteps` rounds, and every earlier candidate still had a word and measured over the limit with the suffix, so putting back the next word dropped would not fit |
| ShortenFacts.FitWordsAfterSteps | src/sync.rs:326-344 | the words kept are the trimmed text after exactly `FitSteps` rounds of dropping the last word |
| ShortenFacts.FitStepsTooLong | src/sync.rs:332-343 | every candidate before the last round still has a word and, with the suffix, measures over the limit |
| ShortenFacts.ContinuationLinkLength | src/sync.rs:375-376 | `… ` followed by one link counts 25 |
| ShortenFacts.TootShortenedProperties | src/sync.rs:349-379 | `toot_shorten` leaves a text within 500 unchanged; otherwise the result ends with `… https://bsky.app/profile/{handle}/post/{id}`, starts with a prefix of the trimmed text, and counts at most 500 unless only the suffix is left |
| ShortenFacts.ProfileLinkShape | src/sync.rs:366 | the profile link is one `https://` link without white space |
| ShortenFacts.TootShortenedFits | src/sync.rs:349-379 | with a handle and post id without white space, the result always counts at most 500 |
| ShortenFacts.BskyPostShortenedUnchanged | src/sync.rs:312-324 | a text whose link-shortened form fits in 300 comes back unchanged |
| ShortenFacts.BskyPostShortenedShape | src/sync.rs:326-344 | otherwise the result ends with `… {toot_url}` (or nothing) and starts with a prefix of the trimmed text |
| ShortenFacts.BskyPostShortenedFitted | src/sync.rs:326-344 | otherwise the result is the word fitting measured by `get_rich_text`, followed by the suffix |
| ShortenFacts.BskyPostShortenedFits | src/sync.rs:311-345 | the link-shortened result fits in 300 unless only the suffix is left; without a toot URL it always fits |
| Records.StatusUpdates.constructor | src/sync.rs:77-80 | the updates start with both lists empty |
| Records.StatusUpdates.ReverseOrder | src/sync.rs:24-28 | `reverse_order` reverses both lists in place |
| Records.StatusUpdates.PushBskyPost | src/sync.rs:168-178 | a push appends one Bluesky post and leaves the toots alone |
| Records.StatusUpdates.PushToot | src/sync.rs:120-127 | a push appends one toot and leaves the Bluesky posts alone |
| Attachments.TruncateOptionString | src/sync.rs:572-580 | `None` stays `None`; a string keeps its first `min(len, max_chars)` characters |
| Attachments.TootGetAttachments | src/sync.rs:543-562 | the loop returns exactly the specified attachment list |
| Attachments.TootAttachmentsProperties | src/sync.rs:543-562 | the media come from the status itself, or from the boosted status when it has none. Each link has the media URL and the description cut to 1000 characters; it has alt text iff the medium has a description |
| PostCache.Unposted | src/sync.rs:426-442 | the statuses kept are exactly those whose text is not in the cache |
| PostCache.UnpostedAppend | src/sync.rs:426-442 | filtering works element by element, so the original order is kept |
| PostCache.UnpostedNone | src/sync.rs:426-442 | with no cached text, every status is kept |
| PostCache.UnpostedIdempotent | src/sync.rs:426-442 | filtering twice is filtering once |
| PostCache.PushUnpostedBskyPosts | src/sync.rs:426-432 | the Bluesky posts whose text is not in the cache are appended, in order; the Mastodon list is untouched |
| PostCache.PushUnpostedToots | src/sync.rs:433-442 | the Mastodon statuses whose text is not in the cache are appended, in order; the Bluesky list is untouched |
| PostCache.FilterPostedBefore | src/sync.rs:413-445 | empty updates come back as they are; otherwise a new value holds each list filtered against the cache |
| PostCache.CappedCache | src/sync.rs:448-467 | a cache of at most 150 entries is kept, a bigger one is emptied, a missing or unreadable one is empty: never more than 150 entries |
| RecordText.InsertDesc | src/sync.rs:286 | insertion keeps the multiset of facets |
| RecordText.InsertDescSorted | src/sync.rs:286 | insertion keeps the descending order of `byte_start` |
| RecordText.SortFacets | src/sync.rs:285-286 | `sort_by` on descending `byte_start` gives a sorted permutation |
| RecordText.SortFacetsOrder | src/sync.rs:285-286 | the same facets, with descending `byte_start` |
| RecordText.SpliceLink | src/sync.rs:290-293 | `Vec::splice` succeeds iff the range is ordered and within the bytes, and the length changes by the URI's bytes less the range |
| RecordText.SpliceFacetLinks | src/sync.rs:288-295 | the inner loop over one facet's features splices every link feature's URI bytes in place of the facet's byte range, on the raw bytes, failing only where the range is reversed or past the end |
| RecordText.RecordGetText | src/sync.rs:278-309 | the method returns exactly the specified text of a record: the spliced bytes read back as UTF-8, or `None` where a splice range or the final `from_utf8` panics |
| RecordText.TextOfRecord | src/sync.rs:278-309 | without facets the text starts with the record's text; with facets it is `None` exactly when a splice or the final UTF-8 check fails, and otherwise starts with the spliced text; whenever there is a text and a card link, the card link is in it |
| RecordText.CutCharacterRepaired | src/sync.rs:288-298 | a splice may cut a character that a later splice repairs: links over bytes 1 and 0 of "é" give "yx", as only the final bytes are checked |
| RecordText.CutCharacterPanics | src/sync.rs:297-298 | a splice that leaves a cut character makes the final `from_utf8` fail |
| RecordText.WithExternalContains | src/sync.rs:302-307 | the external link is appended with `\n\n` iff the text does not already contain it; the result always contains it |
| RecordText.SpliceSpansBefore | src/sync.rs:287-296 | splicing the bytes of the facets from the highest offset down gives the bytes of the text with each link span replaced by its URI; text after the spans is untouched |
| RecordText.RecordTextReplacesSpans | src/sync.rs:278-309 | for disjoint link spans, the record's text is the text with every span replaced by its URI, plus the external link |
| PostText.ParagraphsBecomeBlankLine | src/sync.rs:399-403 | the ordered literal replacements turn `<p>x</p><p>y</p>` into `x\n\ny` |
| PostText.MarkupReplacedPlain | src/sync.rs:399-403 | a text without `<` goes through the replacements unchanged |
| PostText.MastodonTootText | src/sync.rs:394-408 | content without `<` goes straight to tag stripping and entity decoding: the markup replacements leave it as it is |
| PostText.DecodedText | src/sync.rs:243-273 | without a quote, the decoded text is the record's text, prefixed with `♻️ {handle}: ` for the viewer's repost |
| PostText.WithQuoteKeepsText | src/sync.rs:266-271 | appending a quote keeps the post's text at the front |
| PostText.BskyPostUnshortenDecode | src/sync.rs:243-275 | a decoded text that counts at most 500 is kept as it is; with a handle and a post id without white space the result always counts at most 500 |
| Equality.ReplyNeverEqualsNonReply | src/sync.rs:200-206 | a reply never equals a non-reply, from either side |
| Equality.TootAndPostAreEqual | src/sync.rs:199-228 | equal posts have the same reply structure; the same structure and texts equal up to case make them equal |
| Equality.Unify | src/sync.rs:231-239 | unification never makes the content longer |
| Equality.SameTextIsEqual | src/sync.rs:208-215 | same structure and texts equal up to case: equal |
| Equality.ShortenedTextIsEqual | src/sync.rs:216-225 | same structure and the unified, Bluesky-shortened status text equals the unified post text: equal |
| Equality.UnifyLowercase | src/sync.rs:231-239 | no ASCII capital survives unification |
| Equality.UnifyFixedPoint | src/sync.rs:231-239 | a lowercase text without schemes is its own unification |
| Equality.UnifyNotIdempotent | src/sync.rs:231-239 | unification is not idempotent: `hthttp://tp://` unifies to `http://`, and that unifies to the empty text |
| Search.SomeMatchExists | src/sync.rs:96-106 | a boolean search finds a match iff some element satisfies the test |
| Search.FirstAnswerAt | src/sync.rs:96-106 | a search whose test may panic answers yes, or panics, exactly at the first element that does so with every earlier element answering no; it answers no iff every element does |
| Search.Scan | src/sync.rs:81-128 | a walk emits at most one item per element |
| Search.ScanStep | src/sync.rs:81-128 | one turn of a loop: an ending verdict leaves nothing more; otherwise the turn's item comes next; the loop panics iff this turn does, or this turn goes on and a later one does |
| Search.ScanHorizon | src/sync.rs:103-105 | once an element stops or panics the walk, what follows it has no effect on the output, and after a stop none on whether it panics |
| Search.CrashesAt | src/sync.rs:81-179 | a walk panics iff some element panics with no earlier element stopping or panicking it |
| Search.ScanAppend | src/sync.rs:81-128 | a walk over a prefix that nothing ends is the concatenation, and panics iff the rest does |
| Search.ScanSound | src/sync.rs:81-128 | every emitted item comes from an element that emits it, with no end before it |
| Search.ScanComplete | src/sync.rs:81-128 | an emitting element with no end before it is emitted, in order |
| Search.ScanAllPass | src/sync.rs:81-128 | when every element is skipped, nothing is emitted and nothing panics |
| Search.ScanSameVerdicts | src/sync.rs:81-128 | walks whose verdicts agree element by element agree in output and in panicking |
| Planner.FindOnMastodon | src/sync.rs:96-106 | the inner loop skips replies and returns the specified search answer: yes at an equal status, a panic where `toot_and_post_are_equal` decodes a post without a text |
| Planner.FindOnBluesky | src/sync.rs:151-157 | the inner loop returns the specified search answer: yes at an equal Bluesky post, a panic at the first post with the status's structure and no text |
| Planner.ToMastodon | src/sync.rs:81-128 | at most one new toot per Bluesky post |
| Planner.ToBluesky | src/sync.rs:130-179 | at most one new Bluesky post per status |
| Planner.PlanToot | src/sync.rs:82-127 | one Bluesky post: stops the direction iff its verdict is a stop, panics iff it is a panic (the search or the decode at line 108), otherwise it is skipped or pushed as its verdict says |
| Planner.PlanToots | src/sync.rs:81-128 | the `'bsky` loop appends exactly the specified new toots, and reports a panic exactly when the walk panics |
| Planner.PlanBskyPost | src/sync.rs:131-178 | one status: stops the direction iff its verdict is a stop, panics iff its search panics, otherwise it is skipped or pushed as its verdict says |
| Planner.PlanBskyPosts | src/sync.rs:130-179 | the `'toots` loop appends exactly the specified new Bluesky posts, and reports a panic exactly when the walk panics |
| Planner.DeterminePosts | src/sync.rs:72-187 | `None` exactly when either loop panics; otherwise a new value holds both lists, oldest first: the reversed walks |
| PlannerFacts.OnMastodonDecodable | src/sync.rs:96-106 | for a Bluesky post with a text the search never panics, and answers yes iff some non-reply status equals it |
| PlannerFacts.OnMastodonUndecodable | src/sync.rs:96-106 | for a post without a text the search panics iff there is a non-reply status to compare it with |
| PlannerFacts.OnBlueskyAt | src/sync.rs:151-157 | for a status, the search answers yes iff some non-reply post with a text equals it and every newer post is a reply or a decodable unequal post; it panics iff a non-reply post without a text comes with only such posts before it |
| PlannerFacts.OnBlueskyAllDecodable | src/sync.rs:151-157 | when all non-reply posts have a text, the search never panics and answers yes iff some Bluesky post equals the status |
| PlannerFacts.MastodonVerdictOf | src/sync.rs:82-127 | a post stops the `'bsky` loop iff it is not skipped and found on Mastodon; it panics iff it is not skipped and has no text; otherwise the loop goes on |
| PlannerFacts.ToMastodonHorizon | src/sync.rs:103-105 | a compared Bluesky post found on Mastodon ends that direction: nothing older is emitted or makes it panic |
| PlannerFacts.ToMastodonPanicsAt | src/sync.rs:81-128 | the `'bsky` loop panics iff it reaches a post that is not skipped and has no text |
| PlannerFacts.ToMastodonAllDecodable | src/sync.rs:81-128 | when all non-reply posts have a text, the `'bsky` loop never panics |
| PlannerFacts.ToMastodonSound | src/sync.rs:81-128 | every new toot comes from a Bluesky post that is not a reply, not a skipped repost, has a text, is not on Mastodon and matches the hashtag; the loop went on past every newer post |
| PlannerFacts.ToMastodonComplete | src/sync.rs:81-128 | every such post before the horizon becomes a new toot, in its place |
| PlannerFacts.ToMastodonSkipsPrefix | src/sync.rs:83-94 | replies and skipped reposts never stop the walk, make it panic or produce output |
| PlannerFacts.ToMastodonEmptyHashtag | src/sync.rs:113-118 | an empty sync hashtag filters nothing |
| PlannerFacts.BlueskyNoEnd | src/sync.rs:130-179 | no status before a point ends the `'toots` loop iff each is not compared or its search answers no |
| PlannerFacts.ToBlueskyHorizon | src/sync.rs:154-156 | a compared status found on Bluesky ends that direction: nothing older is emitted or makes it panic |
| PlannerFacts.ToBlueskyPanicsAt | src/sync.rs:130-179 | the `'toots` loop panics iff the search for a compared status panics, with the loop going on past every newer status |
| PlannerFacts.ToBlueskyAllDecodable | src/sync.rs:130-179 | when all non-reply Bluesky posts have a text, the `'toots` loop never panics |
| PlannerFacts.ToBlueskySound | src/sync.rs:130-179 | every new Bluesky post comes from a compared status that is not on Bluesky and matches the hashtag; its text does not start with `@` |
| PlannerFacts.ToBlueskyComplete | src/sync.rs:130-179 | every such status before the horizon becomes a new Bluesky post, in its place |
| PlannerFacts.ToBlueskySkipsPrefix | src/sync.rs:131-149 | replies and skipped reblogs never stop the walk, make it panic or produce output |
| PlannerFacts.ToBlueskyEmptyHashtag | src/sync.rs:161-166 | an empty sync hashtag filters nothing |
| PlannerFacts.ToBlueskyEmptyTimeline | src/sync.rs:151-168 | against an empty Bluesky timeline nothing panics and every compared status matching the hashtag is planned |
| ReplyQueue.LevelsDequeue | src/post.rs:59-76 | one dequeue step: the front reply comes next and its replies join the back of the queue |
| ReplyQueue.LevelsSize | src/post.rs:54-76 | the breadth-first order has one entry per node of the reply forest |
| ReplyQueue.LevelsPermutesPreorder | src/post.rs:54-76 | the breadth-first order is a permutation of the tree's nodes |
| ReplyQueue.ThreadCoversTree | src/post.rs:47-76 | the order in which a thread is sent covers every node of the tree exactly once |
| ReplyQueue.Network.constructor | src/post.rs:49 | a fresh network has sent nothing |
| ReplyQueue.Network.Send | src/post.rs:49 | a send logs the status and gets the answer for it |
| ReplyQueue.Enqueued | src/post.rs:55-57 | enqueuing pairs every reply, in order, with the parent id |
| ReplyQueue.QueueStart | src/post.rs:54-57 | the queue starts with the root's replies, in order, each with the root's id |
| ReplyQueue.QueueStep | src/post.rs:59-75 | one iteration keeps the queue invariant: the next reply sent is the next node in breadth-first order, and it answers its parent's id |
| ReplyQueue.SendingStep | src/post.rs:69-72 | a send is logged unless it is a dry run; a dry run gets the empty id |
| ReplyQueue.Posted | src/post.rs:54-76 | the statuses handed over follow breadth-first order; each reply answers the id its own parent's send returned |
| ReplyQueue.Finished | src/post.rs:47-78 | the final state: a dry run sends nothing, every success sends the whole tree, and the first failure is the result |
| ReplyQueue.PostNext | src/post.rs:60-75 | one loop iteration: dequeue, set `in_reply_to_id`, send unless it is a dry run, enqueue the children with the new id |
| ReplyQueue.PostReplies | src/post.rs:59-76 | the `while !replies.is_empty()` loop runs until the queue is empty or a send fails |
| ReplyQueue.PostRoot | src/post.rs:47-57 | the root is sent first (except in a dry run, where its id is empty) and its replies are enqueued |
| ReplyQueue.PostThread | src/post.rs:34-79 | the root goes first, then the replies breadth first, each answering its parent's id; a dry run sends nothing and succeeds; the first failed send ends the call with its error and nothing after it is sent; without failure every node is sent once |
| DateList.LessIrreflexive | src/config.rs:10 | no key is below itself in `String`'s order |
| DateList.LessTransitive | src/config.rs:10 | the order is transitive |
| DateList.LessTotal | src/config.rs:10 | two different keys are ordered one way or the other |
| DateList.Keys | src/config.rs:10 | the keys of the map |
| DateList.KeySeq | src/delete_favs.rs:31 | the keys in the order the map is iterated |
| DateList.InsertEntries | src/delete_favs.rs:101 | after `insert`, the key maps to the new date and every other entry is kept |
| DateList.InsertOrdered | src/delete_favs.rs:101 | `insert` keeps the keys strictly ascending |
| DateList.RemoveEntries | src/config.rs:71 | after `remove`, exactly the entries of the other keys are left |
| DateList.RemoveOrdered | src/config.rs:71 | `remove` keeps the keys ascending |
| DateList.Older | src/delete_favs.rs:31 | the filter keeps exactly the entries dated before the cutoff |
| DateList.OlderOrdered | src/delete_favs.rs:31 | the filter keeps the map's order |
| FavCache.Cutoff | src/delete_favs.rs:30 | the cutoff, 90 days before now, lies before now |
| FavCache.Saved | src/config.rs:87-98 | saving an empty map deletes the file; otherwise the file holds the map |
| FavCache.RemovedAllEntries | src/config.rs:68-76 | removing keys from the file in turn: a missing file stays missing; otherwise exactly the entries of other keys are left |
| FavCache.RemovedAllOrdered | src/config.rs:68-76 | the file stays ordered |
| FavCache.DateCache.constructor | src/config.rs:78-85 | the cache file holds the given content |
| FavCache.DateCache.Load | src/config.rs:78-85 | `load_dates_from_cache` returns the file's map, or `None` when there is no file |
| FavCache.DateCache.Save | src/config.rs:87-98 | `save_dates_to_cache` leaves the file holding the map, or no file for an empty map |
| FavCache.DateCache.RemoveDate | src/config.rs:68-76 | `remove_date_from_cache` removes the key's entry from an existing file and leaves a missing file missing |
| FavCache.InsertAllOrdered | src/delete_favs.rs:100-102 | inserting a page's entries keeps the map ordered |
| FavCache.Winner | src/delete_favs.rs:100-102 | the last entry inserted for a key, and none iff the key was never inserted |
| FavCache.InsertAllEntries | src/delete_favs.rs:100-102 | after inserting, a key maps to its last inserted entry, and a key never inserted keeps its old entry |
| FavCache.InsertAllAppend | src/delete_favs.rs:100-102 | inserting two pages is inserting one after the other |
| MaxId.DigitRun | src/delete_favs.rs:122 | `\d+` is greedy: the run ends at the text's end or at a non-digit |
| MaxId.FindMatch | src/delete_favs.rs:122-123 | `captures` finds the leftmost `max_id=` followed by a digit, or reports that there is none |
| MaxId.Captured | src/delete_favs.rs:124 | the captured group is a non-empty run of digits |
| MaxId.ParseU64 | src/delete_favs.rs:125 | `parse::<u64>` succeeds iff the value is at most `u64::MAX`, and then it gives the value |
| MaxId.ParseNextMaxId | src/delete_favs.rs:121-131 | a parsed `max_id` always fits in `u64`, and a header without any `max_id=` followed by a digit gives `None` |
| MaxId.ParseNextMaxIdMatches | src/delete_favs.rs:121-131 | the parser returns `Some(n)` iff there is a leftmost match whose digits are at most `u64::MAX`, with `n` their value; it returns `None` iff there is no match or the digits overflow |
| MaxId.FirstMatchUnique | src/delete_favs.rs:123 | there is only one leftmost match |
| MaxId.Decimal | src/delete_favs.rs:95 | `to_string` of a number is a non-empty run of digits |
| MaxId.ValueOfDecimal | src/delete_favs.rs:95 | the digits printed for `n` read back as `n` |
| MaxId.ParseOfPrinted | src/delete_favs.rs:121-131 | a header with `max_id={n}` as its first key, not followed by a digit, parses to `n` when it fits in `u64`, and to `None` when it does not |
| AtUri.IndexOf | src/delete_favs.rs:150 | the first `/` at or after a position, or none |
| AtUri.SplitN3 | src/delete_favs.rs:150 | `splitn(3, '/')` gives 1 to 3 parts, with no `/` in any part when there are fewer than 3 |
| AtUri.Rkey | src/delete_favs.rs:147-155 | the rkey step fails with the prefix error iff the URI does not start with `at://`; an `Ok` rkey is valid and has no `/` |
| AtUri.SplitOfParts | src/delete_favs.rs:150 | `repo/collection/rkey` splits into those three parts (with `/` allowed in the rkey) |
| AtUri.RkeyOfRecordUri | src/delete_favs.rs:147-155 | the rkey of `at://repo/collection/rkey` is that rkey when it is valid, and an rkey error otherwise |
| MastodonFavs.Mastodon.constructor | src/delete_favs.rs:22-25 | a fresh client has made no request |
| MastodonFavs.Mastodon.GetFavourites | src/delete_favs.rs:88-99 | a request logs its `max_id` and gets the answer for it |
| MastodonFavs.Mastodon.UnfavouriteStatus | src/delete_favs.rs:38 | a request logs the id and gets the answer for it |
| MastodonFavs.MaxIdParam | src/delete_favs.rs:92-96 | no `max_id` is sent iff it is `u64::MAX`; otherwise its decimal digits are sent |
| MastodonFavs.NextMaxIdCases | src/delete_favs.rs:104-112 | a `Link` header that is not visible ASCII is an error; a missing header or no parsable `max_id` ends the fetch; otherwise the fetch goes on with the parsed `max_id` |
| MastodonFavs.Entries | src/delete_favs.rs:100-101 | each status gives the entry of its id and `created_at` |
| MastodonFavs.FetchedOrdered | src/delete_favs.rs:100-102 | a page's inserts keep the dates ordered |
| MastodonFavs.Requests | src/delete_favs.rs:88-99 | one request per turn |
| MastodonFavs.TurnsAppend | src/delete_favs.rs:86-113 | after one more turn, the `max_id` is the one that turn read, and the request log grows by the `max_id` sent |
| MastodonFavs.ChainExtend | src/delete_favs.rs:86-113 | a turn fetched after a turn that goes on extends the chain of turns |
| MastodonFavs.InsertEach | src/delete_favs.rs:100-102 | the insert loop gives the dates with every entry inserted in turn |
| MastodonFavs.FetchPage | src/delete_favs.rs:88-112 | one page request with the current `max_id` gives the specified turn |
| MastodonFavs.FetchTurn | src/delete_favs.rs:86-113 | one loop turn extends the chain and the request log |
| MastodonFavs.TurnAppended | src/delete_favs.rs:86-113 | a fetched turn appended to a chain that went on keeps it a chain from the start, adds its `max_id` to the request log, and leaves the `max_id` and the ordered dates it read as the chain's last |
| MastodonFavs.FetchFavDates | src/delete_favs.rs:80-118 | the fetch loop went through a chain of turns, each sending the `max_id` the previous one read. It stopped because a turn did not go on, or because the fuel ran out; it returned that chain's result; on `Ok` the cache file holds the dates |
| MastodonFavs.LoadFavDates | src/delete_favs.rs:70-78 | a cache file answers without any request; otherwise the dates are fetched |
| MastodonFavs.OutcomeOf | src/delete_favs.rs:38-64 | `Ok` and 404 remove the entry; 429 stops with `Ok`; another HTTP status stops with its error; any other error keeps the entry and goes on |
| MastodonFavs.Outcomes | src/delete_favs.rs:31-66 | the outcome of unfavouriting each older key in map order |
| MastodonFavs.FirstStop | src/delete_favs.rs:53-59 | the first outcome that ends the loop, and no earlier one does |
| MastodonFavs.Tried | src/delete_favs.rs:31-66 | the number of unfavourite requests made |
| MastodonFavs.RemovedKeysMembers | src/delete_favs.rs:39-51 | a key is removed iff it was tried and its answer removes it |
| MastodonFavs.RemovedAllStep | src/delete_favs.rs:39-51 | each removal is `remove_date_from_cache` on the file as it is then |
| MastodonFavs.UnfavouriteNext | src/delete_favs.rs:38-64 | one status: one request, and the cache entry is removed iff the outcome removes it |
| MastodonFavs.UnfavouriteAt | src/delete_favs.rs:31-66 | one loop turn extends the request log and the cache removals |
| MastodonFavs.UnfavouriteAll | src/delete_favs.rs:31-67 | a dry run sends nothing and keeps the cache. Otherwise: the requests are the older keys up to and including the first stop; the cache loses exactly the removed keys; the result is `Ok` or the first stopping error |
| MastodonFavs.UnfavouriteEach | src/delete_favs.rs:31-66 | the non-dry loop: the requests are the older keys up to and including the first that stops it; the cache loses exactly the removed keys; the result is `Ok` or the first stopping HTTP error |
| MastodonFavs.DeleteOlderFavs | src/delete_favs.rs:22-68 | a cached file is used as it is, with no request; otherwise the pages are fetched as `LoadFavDates` states; a failed load is the error; otherwise the dates older than 90 days are unfavourited as described above, unless it is a dry run |
| MastodonFavsFacts.ChainAt | src/delete_favs.rs:86-113 | every turn of a chain is fetched with the `max_id` and dates the turns before it left; only the last may stop |
| MastodonFavsFacts.CollectedAll | src/delete_favs.rs:84-102 | the dates are every page's statuses inserted into an empty map |
| MastodonFavsFacts.FetchedGoes | src/delete_favs.rs:99-112 | a turn goes on iff the request succeeded and the visible-ASCII `Link` header yields a `max_id`, which is the next one |
| MastodonFavsFacts.RequestsFollowLinks | src/delete_favs.rs:85-107 | the first request sends no `max_id`; each later one sends the `max_id` parsed from the previous page's `Link` |
| MastodonFavsFacts.LastMaxIdAfter | src/delete_favs.rs:105-107 | after a turn, the `max_id` is the one it read |
| MastodonFavsFacts.RequestAt | src/delete_favs.rs:88-99 | request `k` sends the `max_id` the turns before it left |
| MastodonFavsFacts.FetchEnds | src/delete_favs.rs:86-118 | `Ok` iff the last page came and has no `Link` or no parsable `max_id`, with all pages' dates; the request's error iff the page failed; the header error iff it is not visible ASCII |
| MastodonFavsFacts.FetchedDates | src/delete_favs.rs:100-102 | the fetched map gives each id the `created_at` of its last status |
| MastodonFavsFacts.RemovedWereOlder | src/delete_favs.rs:31-51 | a key leaves the cache only if it is older than the cutoff and its unfavourite succeeded or answered 404 |
| MastodonFavsFacts.CacheAfterLoop | src/delete_favs.rs:39-51 | the cache after the loop is the old file without the removed keys, and still ordered |
| MastodonFavsFacts.StopResultCases | src/delete_favs.rs:53-67 | the run fails iff the first stop is an HTTP error other than 404 and 429, with that error; the last request made is the stop |
| BlueskyFavs.Bluesky.constructor | src/delete_favs.rs:134-140 | a fresh client has made no request |
| BlueskyFavs.Bluesky.GetActorLikes | src/delete_favs.rs:213-226 | a request logs its cursor and gets the answer for it |
| BlueskyFavs.Bluesky.DeleteRecord | src/delete_favs.rs:156-171 | a request logs what it deletes and gets the answer for it |
| BlueskyFavs.CursorFile.constructor | src/delete_favs.rs:186 | the cursor file holds the given content |
| BlueskyFavs.CursorFile.Read | src/delete_favs.rs:187-201 | reading gives the stored cursor, or nothing when there is no file |
| BlueskyFavs.CursorFile.Write | src/delete_favs.rs:256-257 | writing stores the cursor, `null` included |
| BlueskyFavs.LikeEntries | src/delete_favs.rs:235-241 | each liked post gives the entry of its URI and `created_at` |
| BlueskyFavs.LikesFetchedOrdered | src/delete_favs.rs:235-241 | a page's inserts keep the dates ordered |
| BlueskyFavs.CursorRequests | src/delete_favs.rs:213-226 | one request per turn |
| BlueskyFavs.CursorRequestsAppend | src/delete_favs.rs:206-253 | the request log grows by the cursor the turns before left |
| BlueskyFavs.LikesChainExtend | src/delete_favs.rs:206-253 | a turn fetched after a turn that goes on extends the chain |
| BlueskyFavs.InsertLikes | src/delete_favs.rs:235-241 | the insert loop gives the dates with every like inserted in turn |
| BlueskyFavs.FetchLikesPage | src/delete_favs.rs:207-248 | one page request with the current cursor gives the specified turn |
| BlueskyFavs.FetchLikesTurn | src/delete_favs.rs:206-253 | one loop turn extends the chain and the request log |
| BlueskyFavs.LikesTurnAppended | src/delete_favs.rs:206-253 | a fetched turn appended to a chain that went on keeps it a chain, adds the cursor it sent to the request log, and leaves its cursor and dates as the chain's last |
| BlueskyFavs.FetchPages | src/delete_favs.rs:204-253 | the loop makes 1 to 100 requests, and makes 100 when the last turn would still go on; each request sends the cursor the previous turn left |
| BlueskyFavs.FetchFavDates | src/delete_favs.rs:177-260 | a `null` stored cursor with cached dates returns them without any request; otherwise the fetch starts from the stored cursor, saves the dates, and writes the last cursor |
| BlueskyFavs.Attempt | src/delete_favs.rs:147-171 | a deletion succeeds only when the rkey parses and `delete_record` succeeds; an rkey error or the delete error is the result otherwise |
| BlueskyFavs.Attempts | src/delete_favs.rs:141-173 | the attempt for each older key in map order |
| BlueskyFavs.FirstFailure | src/delete_favs.rs:149-172 | the first attempt that fails, and no earlier one does |
| BlueskyFavs.AttemptDone | src/delete_favs.rs:141-173 | a success lets the loop go on; a failure ends it with that error |
| BlueskyFavs.Reached | src/delete_favs.rs:141-173 | the number of keys the loop reached |
| BlueskyFavs.DeleteAt | src/delete_favs.rs:147-172 | one loop turn: at most one delete request, and the cache entry is removed iff it succeeded |
| BlueskyFavs.DeleteStep | src/delete_favs.rs:147-172 | attempt `i` is the one for key `i`; the delete requests grow by one exactly when that key has a record key; the cache after `i + 1` keys is the one after `i` with key `i` removed |
| BlueskyFavs.DeleteAll | src/delete_favs.rs:141-174 | the delete requests are those of the keys reached that have an rkey; the cache loses exactly the keys before the first failure; the result is that failure or `Ok` |
| BlueskyFavs.DeleteOlderFavs | src/delete_favs.rs:134-175 | the dates are those `FetchFavDates` states: the cached ones when the cursor says all were fetched, otherwise those of the chain of pages from the saved cursor, with the requests, the saved dates and the written cursor that go with them; a dry run deletes nothing; otherwise the likes older than 90 days are deleted as described above |
| BlueskyFavsFacts.LikesChainAt | src/delete_favs.rs:206-253 | every turn of a chain is fetched with the cursor and dates the turns before it left; only the last may stop |
| BlueskyFavsFacts.CursorRequestAt | src/delete_favs.rs:213-226 | request `k` sends the cursor the turns before it left |
| BlueskyFavsFacts.CursorsAdvance | src/delete_favs.rs:221-248 | the first request sends the stored cursor; each later one sends the previous page's cursor, which is present and differs from the one sent before |
| BlueskyFavsFacts.TurnCursor | src/delete_favs.rs:228-252 | a failed request stops and keeps the cursor; a missing or unchanged cursor stops and resets it to `None`; otherwise the fetch goes on from the new cursor |
| BlueskyFavsFacts.LikesCollectedAll | src/delete_favs.rs:181-241 | the dates are every page's likes inserted into the cached dates |
| BlueskyFavsFacts.LikesDates | src/delete_favs.rs:181-241 | a fetched URI maps to the `created_at` of its last like; every other cached entry is kept |
| BlueskyFavsFacts.DeleteRequestsShape | src/delete_favs.rs:156-168 | every delete goes to the signed-in actor's repository and `app.bsky.feed.like`, with the valid rkey of one of the URIs |
| BlueskyFavsFacts.DeletedWereOlder | src/delete_favs.rs:141-172 | a key removed from the cache was older than the cutoff, had an rkey, and its like was deleted |
| BlueskyFavsFacts.DeleteResultCases | src/delete_favs.rs:141-174 | the run fails iff some attempt fails, and then with the first failure |

## Left out

- Network, clock and files:
  - HTTP, authentication and the SDK records are left out. Every API call is a function parameter, and its answers may depend on the request and the call count.
  - The clock is the parameter `now`. The 90 days are counted in nanoseconds.
  - The cache files and the cursor file are in-memory fields. Their JSON encoding is left out; a file that fails to parse as JSON is not modelled.
- Errors of the file operations:
  - An I/O failure of `save_dates_to_cache` and `remove_date_from_cache` is not modelled; these always succeed.
  - The same holds for the cursor file's write.
- Printing: `println!` and `eprintln!` are left out. A dry run in both favourites loops only prints, so after the dates are loaded or fetched the model returns and makes no unfavourite or delete request.
- Unicode:
  - One `char` counts as one grapheme; there is no UAX #29 segmentation.
  - `\s` is the Unicode White_Space list and `\d` is the ASCII digits. `\p{P}` is ASCII punctuation plus a few common marks.
  - `to_lowercase` folds only ASCII.
- Text.Lower: folds only A-Z, so the unification lemmas speak of ASCII capitals only.
- HTML: `strip_tags` and `decode_html_entities` are passed in as the parameter `Html`. Only the ordered literal tag replacements are modelled.
- Repost and quote markers and the continuation: the source files store the literals `♻️`, `💬` and the continuation `… ` (src/sync.rs:337 and src/sync.rs:375) in a mis-decoded form. The model uses the intended characters. The `get_rich_text` test at src/bluesky_richtext.rs:212-216 shows this for the markers. The `toot_shorten_link` test at src/sync.rs:609-617 shows it for the continuation: its result counts exactly 500 characters only with a one-character ellipsis, so `Shorten.Continuation` is the ellipsis and a space, two characters.
- Shortening loops and post ids:
  - `bsky_post_shorten` and `toot_shorten` loop forever when every word is gone and the text is still too long. The model stops there and returns the suffix alone.
  - `toot_shorten` panics on a URI ending in `/`. The model takes the empty last segment there.
- Facets:
  - RichText.GetRichText: returns only the text. The SDK's re-indexing of the other facets after `insert` and `delete` is not modelled; the walk uses the offsets of the facets as detected.
  - The inner `for feature in &facet.features` loop reads the single feature every detected facet has.
  - `detect_facets` keeps only the facets and the text.
- Equality: `unify_post_content` is not idempotent (Equality.UnifyNotIdempotent). The model states what the code does, not "idempotent".
- Threads: `determine_thread_replies` is commented out in the source, so it is not modelled. Media upload and video handling in src/post.rs are also left out.
- Mastodon favourites:
  - MastodonFavs.FetchFavDates: the loop runs until the server stops sending a `max_id`. The model bounds it by a `fuel` count and ends with `Err(PageBound)` when the fuel runs out; the source has no such bound.
  - MastodonFavs.FetchFavDates takes the `Link` header step as a parameter, `nextMaxId`. MastodonFavs.LoadFavDates passes the source's own step, `NextMaxId`, and the facts lemmas speak of that one.
  - An error answer other than an HTTP status error, or one without a status, keeps the entry and goes on, as the source's nested `if let`s do.
- Bluesky favourites:
  - `get_session().unwrap()` is the constant `actor`.
  - BlueskyFavs.Attempt: where `parts[2]` panics because the URI has fewer than three parts, the model gives `Err(InvalidUri(MissingRkey))`.
  - Rkey validity is a simplification: 1 to 512 characters from the allowed set, and not `.` or `..`.
  - The `expect` on each liked record, and the `created_at` it reads, are left out. A like carries its URI and date directly.
  - The like record's rkey is taken from the URI in the dates map, that is, from the liked post's URI, as the source does.
- Post cache: reading the file is left out. PostCache.CappedCache takes the parsed set, or `None` for a missing or unreadable file.
