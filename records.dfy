/**
  The records the synchronisation reads and writes, with only the fields it
  uses: Mastodon statuses, Bluesky feed posts and their records, the new
  statuses it plans, and the options of a run.
 */
module Records {
  import opened Wrappers
  import opened Text

  /** A media file to attach to a new status. */
  datatype NewMedia = NewMedia(attachmentUrl: string, altText: Option<string>)

  /** A status to post on the other network; `replies` are posted after it
      as a thread. */
  datatype NewStatus = NewStatus(
    text: string,
    attachments: seq<NewMedia>,
    videoStream: Option<string>,
    originalPostUrl: string,
    replies: seq<NewStatus>,
    inReplyToId: Option<string>)

  /** The options of a synchronisation run. */
  datatype SyncOptions = SyncOptions(
    syncReblogs: bool,
    syncReposts: bool,
    syncHashtagBluesky: Option<string>,
    syncHashtagMastodon: Option<string>)

  /** A media attachment of a Mastodon status. */
  datatype MediaAttachment = MediaAttachment(url: string, description: Option<string>)

  /** The boosted status inside a Mastodon boost. */
  datatype Reblog = Reblog(
    username: string,
    content: string,
    url: Option<string>,
    mediaAttachments: seq<MediaAttachment>)

  /** A Mastodon status. */
  datatype Toot = Toot(
    inReplyToId: Option<string>,
    reblog: Option<Reblog>,
    content: string,
    url: Option<string>,
    mediaAttachments: seq<MediaAttachment>)

  /** A feature of a facet of a stored Bluesky record: a link, or anything
      else (a mention, a tag), which the text extraction passes over. */
  datatype RecordFeature = LinkFeature(uri: string) | OtherFeature

  /** A facet of a stored Bluesky record: byte offsets into its text. */
  datatype RecordFacet = RecordFacet(byteStart: nat, byteEnd: nat, features: seq<RecordFeature>)

  /** A stored Bluesky post record; `externalUri` is the URI of a link card
      embed, if the record has one. */
  datatype BskyRecord = BskyRecord(
    text: string,
    facets: Option<seq<RecordFacet>>,
    externalUri: Option<string>)

  /** A quoted post: its author and its record. */
  datatype Quote = Quote(authorHandle: string, record: BskyRecord)

  /** A post of a Bluesky feed: whether it is a reply, whether the account
      reposted it, its author, URI, record and quoted post. The attachments
      and the video stream are taken as they are extracted. */
  datatype BskyPost = BskyPost(
    isReply: bool,
    repostedByViewer: bool,
    authorHandle: string,
    uri: string,
    record: BskyRecord,
    quote: Option<Quote>,
    attachments: seq<NewMedia>,
    videoStream: Option<string>)

  /** The HTML helpers of the Mastodon text: tag stripping and entity
      decoding, both foreign library calls. */
  datatype Html = Html(stripTags: string -> string, decodeEntities: string -> string)

  /** The statuses a run plans to post: on Bluesky and on Mastodon. */
  class StatusUpdates {
    var bskyPosts: seq<NewStatus>
    var toots: seq<NewStatus>

    constructor ()
      ensures bskyPosts == [] && toots == []
    {
      bskyPosts := [];
      toots := [];
    }

    /** `reverse_order`: both lists reversed in place. */
    method ReverseOrder()
      modifies this
      ensures bskyPosts == Reverse(old(bskyPosts))
      ensures toots == Reverse(old(toots))
    {
      bskyPosts := Reverse(bskyPosts);
      toots := Reverse(toots);
    }

    method PushBskyPost(s: NewStatus)
      modifies this
      ensures bskyPosts == old(bskyPosts) + [s] && toots == old(toots)
    {
      bskyPosts := bskyPosts + [s];
    }

    method PushToot(s: NewStatus)
      modifies this
      ensures toots == old(toots) + [s] && bskyPosts == old(bskyPosts)
    {
      toots := toots + [s];
    }
  }
}
