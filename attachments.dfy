/**
  The media of a Mastodon status to attach on Bluesky: the status's own
  media or, when it has none, those of the boosted status, each alt text cut
  to Bluesky's 1000 characters.
 */
module Attachments {
  import opened Wrappers
  import opened Records

  /** Bluesky's limit for an alt text. */
  const MaxAltText: nat := 1000

  /** `truncate_option_string`: the first `maxChars` characters of a text,
      nothing changed when it is no longer. */
  function TruncateOptionString(stringy: Option<string>, maxChars: nat): (r: Option<string>)
    ensures r.None? <==> stringy.None?
    ensures r.Some? ==> |r.value| <= |stringy.value| && r.value == stringy.value[..|r.value|]
    ensures r.Some? && |stringy.value| <= maxChars ==> r.value == stringy.value
    ensures r.Some? && |stringy.value| > maxChars ==> |r.value| == maxChars
  {
    match stringy
    case None => None
    case Some(s) =>
      // `char_indices().nth(max_chars)` finds a character only when the
      // text is longer.
      if |s| <= maxChars then Some(s) else Some(s[..maxChars])
  }

  /** The media the attachments are made of. */
  function AttachmentSource(toot: Toot): seq<MediaAttachment> {
    if toot.mediaAttachments == [] && toot.reblog.Some? then toot.reblog.value.mediaAttachments
    else toot.mediaAttachments
  }

  /** The new media for one attachment. */
  function NewMediaOf(a: MediaAttachment): NewMedia {
    NewMedia(a.url, TruncateOptionString(a.description, MaxAltText))
  }

  /** What `toot_get_attachments` returns. */
  function TootAttachments(toot: Toot): seq<NewMedia> {
    var source := AttachmentSource(toot);
    seq(|source|, k requires 0 <= k < |source| => NewMediaOf(source[k]))
  }

  /** `toot_get_attachments`. */
  method TootGetAttachments(toot: Toot) returns (links: seq<NewMedia>)
    ensures links == TootAttachments(toot)
  {
    links := [];
    var attachments := toot.mediaAttachments;
    // A status without media of its own falls back to the boosted one's.
    if attachments == [] {
      if toot.reblog.Some? {
        attachments := toot.reblog.value.mediaAttachments;
      }
    }
    var i := 0;
    while i < |attachments|
      invariant i <= |attachments| && attachments == AttachmentSource(toot)
      invariant |links| == i
      invariant forall k :: 0 <= k < i ==> links[k] == NewMediaOf(attachments[k])
    {
      links := links + [NewMedia(attachments[i].url, TruncateOptionString(attachments[i].description, 1_000))];
      i := i + 1;
    }
  }

  /** One new media per attachment, in order, with the same URL; a boost's
      media are used only when the status has none of its own; every alt text
      fits Bluesky's limit and is a prefix of the description. */
  lemma TootAttachmentsProperties(toot: Toot)
    ensures var links := TootAttachments(toot);
            var source := AttachmentSource(toot);
            && |links| == |source|
            && (toot.mediaAttachments != [] ==> source == toot.mediaAttachments)
            && (toot.mediaAttachments == [] && toot.reblog.Some? ==> source == toot.reblog.value.mediaAttachments)
            && (toot.mediaAttachments == [] && toot.reblog.None? ==> links == [])
            && forall k :: 0 <= k < |links| ==>
                 && links[k].attachmentUrl == source[k].url
                 && (links[k].altText.Some? <==> source[k].description.Some?)
                 && (links[k].altText.Some? ==> |links[k].altText.value| <= MaxAltText)
                 && (links[k].altText.Some? ==> links[k].altText.value
                                                == source[k].description.value[..|links[k].altText.value|])
  {
  }
}
