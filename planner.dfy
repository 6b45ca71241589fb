/**
  `determine_posts`, the planner of a synchronisation run. Both timelines
  are read from newest to oldest; each direction stops at the first post
  already on the other network, skips replies, unwanted reposts or boosts,
  mentions and posts without the sync hashtag, and the plans are reversed so
  that the oldest post is sent first. A Bluesky post without a text makes
  the source panic where it is decoded; the model reports that as the
  absence of a plan.
 */
module Planner {
  import opened Wrappers
  import opened Text
  import opened Records
  import opened Shorten
  import opened Attachments
  import opened PostText
  import opened Equality
  import opened Search

  /** A sync hashtag lets a text through when it is unset, empty or in the
      text. */
  predicate HashtagMatches(tag: Option<string>, text: string) {
    tag.None? || tag.value == [] || Contains(text, tag.value)
  }

  // ---------------------------------------------------------------------
  // Bluesky to Mastodon
  // ---------------------------------------------------------------------

  /** A Bluesky post the planner passes over before comparing it. */
  predicate BskySkipped(post: BskyPost, options: SyncOptions) {
    post.isReply || (!options.syncReposts && post.repostedByViewer)
  }

  /** The test of the Bluesky loop's search: statuses that are replies are
      passed over, every other one is compared with the post. */
  function MastodonAnswer(post: BskyPost, html: Html): Toot -> Answer {
    (toot: Toot) => if toot.inReplyToId.Some? then No else Comparison(toot, post, html)
  }

  /** The search of the Bluesky loop for a post among the statuses, from
      the newest status on: yes at the first status that is the same post,
      a panic at the first comparison that decodes a post without a text. */
  function OnMastodon(post: BskyPost, toots: seq<Toot>, html: Html): Answer {
    FirstAnswer(toots, MastodonAnswer(post, html))
  }

  /** The status planned for a Bluesky post. */
  function NewToot(post: BskyPost): NewStatus
    requires Decodable(post)
  {
    NewStatus(BskyPostUnshortenDecode(post), post.attachments, post.videoStream, post.uri, [], None)
  }

  /** What the Bluesky loop does with a post: pass over a skipped one, stop
      at one already on Mastodon, panic where the search or the decoding
      after it decodes a post without a text, pass over one without the
      sync hashtag and otherwise plan a status for it. */
  function MastodonVerdict(toots: seq<Toot>, options: SyncOptions, html: Html): BskyPost -> Verdict<NewStatus> {
    (post: BskyPost) =>
      if BskySkipped(post, options) then Pass
      else
        match OnMastodon(post, toots, html)
        case Yes => Stop
        case Panics => Crash
        case No =>
          if !Decodable(post) then Crash
          else if !HashtagMatches(options.syncHashtagBluesky, BskyPostUnshortenDecode(post)) then Pass
          else Emit(NewToot(post))
  }

  /** The statuses to post on Mastodon, newest first. */
  function ToMastodon(bsky: seq<BskyPost>, toots: seq<Toot>, options: SyncOptions, html: Html): (r: seq<NewStatus>)
    ensures |r| <= |bsky|
  {
    Scan(bsky, MastodonVerdict(toots, options, html))
  }

  /** The Bluesky loop panics. */
  predicate ToMastodonPanics(bsky: seq<BskyPost>, toots: seq<Toot>, options: SyncOptions, html: Html) {
    Crashes(bsky, MastodonVerdict(toots, options, html))
  }

  // ---------------------------------------------------------------------
  // Mastodon to Bluesky
  // ---------------------------------------------------------------------

  /** A status the planner passes over before shortening it. */
  predicate TootSkipped(toot: Toot, options: SyncOptions) {
    toot.inReplyToId.Some? || (toot.reblog.Some? && !options.syncReblogs)
  }

  /** A status's text fitted to Bluesky's limit, linking to the status (to
      the boosted one for a boost). */
  function ShortenedToot(toot: Toot, html: Html): string {
    BskyPostShortened(MastodonTootText(toot, html), TootUrl(toot))
  }

  /** The test of the Mastodon loop's search: every post is compared with
      the status. */
  function BlueskyAnswer(toot: Toot, html: Html): BskyPost -> Answer {
    (post: BskyPost) => Comparison(toot, post, html)
  }

  /** The search of the Mastodon loop for a status among the Bluesky posts,
      from the newest post on: yes at the first post that is the same post,
      a panic at the first comparison that decodes a post without a text. */
  function OnBluesky(toot: Toot, bsky: seq<BskyPost>, html: Html): Answer {
    FirstAnswer(bsky, BlueskyAnswer(toot, html))
  }

  /** The URL of the status (of the boosted one for a boost), or nothing. */
  function OriginalUrl(toot: Toot): string {
    match TootUrl(toot)
    case None => ""
    case Some(url) => url
  }

  /** The Bluesky post planned for a status. */
  function NewPost(toot: Toot, html: Html): NewStatus {
    NewStatus(ShortenedToot(toot, html), TootAttachments(toot), None, OriginalUrl(toot), [], None)
  }

  /** What the Mastodon loop does with a status: pass over a skipped one or
      one that addresses a user, stop at one already on Bluesky, panic where
      the search panics, pass over one without the sync hashtag and
      otherwise plan a post for it. */
  function BlueskyVerdict(bsky: seq<BskyPost>, options: SyncOptions, html: Html): Toot -> Verdict<NewStatus> {
    (toot: Toot) =>
      if TootSkipped(toot, options) || StartsWith(ShortenedToot(toot, html), "@") then Pass
      else
        match OnBluesky(toot, bsky, html)
        case Yes => Stop
        case Panics => Crash
        case No =>
          if !HashtagMatches(options.syncHashtagMastodon, MastodonTootText(toot, html)) then Pass
          else Emit(NewPost(toot, html))
  }

  /** The posts to make on Bluesky, newest first. */
  function ToBluesky(toots: seq<Toot>, bsky: seq<BskyPost>, options: SyncOptions, html: Html): (r: seq<NewStatus>)
    ensures |r| <= |toots|
  {
    Scan(toots, BlueskyVerdict(bsky, options, html))
  }

  /** The Mastodon loop panics. */
  predicate ToBlueskyPanics(toots: seq<Toot>, bsky: seq<BskyPost>, options: SyncOptions, html: Html) {
    Crashes(toots, BlueskyVerdict(bsky, options, html))
  }

  // ---------------------------------------------------------------------
  // determine_posts
  // ---------------------------------------------------------------------

  /** The inner loop of the Bluesky direction: is some status that is not
      a reply the same post, or does a comparison panic first? */
  method FindOnMastodon(post: BskyPost, mastodonStatuses: seq<Toot>, html: Html) returns (answer: Answer)
    ensures answer == OnMastodon(post, mastodonStatuses, html)
  {
    var j := 0;
    while j < |mastodonStatuses|
      invariant j <= |mastodonStatuses|
      invariant OnMastodon(post, mastodonStatuses, html)
                == FirstAnswer(mastodonStatuses[j..], MastodonAnswer(post, html))
    {
      var toot := mastodonStatuses[j];
      assert mastodonStatuses[j..][0] == toot && mastodonStatuses[j..][1..] == mastodonStatuses[j + 1..];
      // Statuses that are replies take no part in the comparison.
      if toot.inReplyToId.None? {
        // The comparison decodes the post once the structure agrees.
        if SameStructure(toot, post) && !Decodable(post) {
          return Panics;
        }
        if TootAndPostAreEqual(toot, post, html) {
          return Yes;
        }
      }
      j := j + 1;
    }
    return No;
  }

  /** The inner loop of the Mastodon direction: is some Bluesky post the
      same post, or does a comparison panic first? */
  method FindOnBluesky(toot: Toot, bskyStatuses: seq<BskyPost>, html: Html) returns (answer: Answer)
    ensures answer == OnBluesky(toot, bskyStatuses, html)
  {
    var j := 0;
    while j < |bskyStatuses|
      invariant j <= |bskyStatuses|
      invariant OnBluesky(toot, bskyStatuses, html) == FirstAnswer(bskyStatuses[j..], BlueskyAnswer(toot, html))
    {
      var post := bskyStatuses[j];
      assert bskyStatuses[j..][0] == post && bskyStatuses[j..][1..] == bskyStatuses[j + 1..];
      // The comparison decodes the post once the structure agrees.
      if SameStructure(toot, post) && !Decodable(post) {
        return Panics;
      }
      if TootAndPostAreEqual(toot, post, html) {
        return Yes;
      }
      j := j + 1;
    }
    return No;
  }

  /** One turn of the Bluesky loop: it stops at a post already on Mastodon,
      panics where the source does and otherwise appends the status planned
      for the post, if any. */
  method PlanToot(updates: StatusUpdates, post: BskyPost, mastodonStatuses: seq<Toot>,
                  options: SyncOptions, html: Html) returns (synced: bool, panicked: bool)
    modifies updates
    ensures synced == MastodonVerdict(mastodonStatuses, options, html)(post).Stop?
    ensures panicked == MastodonVerdict(mastodonStatuses, options, html)(post).Crash?
    ensures updates.toots == old(updates.toots) + Emitted(MastodonVerdict(mastodonStatuses, options, html)(post))
    ensures updates.bskyPosts == old(updates.bskyPosts)
  {
    // A reply is not planned here.
    if post.isReply {
      return false, false;
    }
    // A repost needs the syncReposts option.
    if !options.syncReposts && post.repostedByViewer {
      return false, false;
    }
    // A post already on Mastodon ends this direction.
    var found := FindOnMastodon(post, mastodonStatuses, html);
    if found.Panics? {
      return false, true;
    }
    if found.Yes? {
      return true, false;
    }
    // Not on Mastodon: the post is decoded, which panics without a text.
    if !Decodable(post) {
      return false, true;
    }
    var decodedPost := BskyPostUnshortenDecode(post);
    if options.syncHashtagBluesky.Some? {
      var syncHashtag := options.syncHashtagBluesky.value;
      if syncHashtag != [] && !Contains(decodedPost, syncHashtag) {
        // The hashtag filter: the decoded text must contain the tag.
        return false, false;
      }
    }
    updates.PushToot(NewStatus(decodedPost, post.attachments, post.videoStream, post.uri, [], None));
    return false, false;
  }

  /** The Bluesky loop: appends the statuses for Mastodon, newest first,
      and reports whether it panics. */
  method PlanToots(updates: StatusUpdates, mastodonStatuses: seq<Toot>, bskyStatuses: seq<BskyPost>,
                   options: SyncOptions, html: Html) returns (panicked: bool)
    modifies updates
    ensures panicked == ToMastodonPanics(bskyStatuses, mastodonStatuses, options, html)
    ensures updates.toots == old(updates.toots) + ToMastodon(bskyStatuses, mastodonStatuses, options, html)
    ensures updates.bskyPosts == old(updates.bskyPosts)
  {
    ghost var verdict := MastodonVerdict(mastodonStatuses, options, html);
    var i := 0;
    while i < |bskyStatuses|
      invariant i <= |bskyStatuses| && updates.bskyPosts == old(updates.bskyPosts)
      invariant old(updates.toots) + Scan(bskyStatuses, verdict) == updates.toots + Scan(bskyStatuses[i..], verdict)
      invariant Crashes(bskyStatuses, verdict) == Crashes(bskyStatuses[i..], verdict)
    {
      ScanLoopStep(old(updates.toots) + Scan(bskyStatuses, verdict), updates.toots, bskyStatuses, i, verdict);
      var synced, crashed := PlanToot(updates, bskyStatuses[i], mastodonStatuses, options, html);
      if synced || crashed {
        return crashed;
      }
      i := i + 1;
    }
    return false;
  }

  /** One turn of the Mastodon loop: it stops at a status already on
      Bluesky, panics where the search does and otherwise appends the post
      planned for the status, if any. */
  method PlanBskyPost(updates: StatusUpdates, toot: Toot, bskyStatuses: seq<BskyPost>,
                      options: SyncOptions, html: Html) returns (synced: bool, panicked: bool)
    modifies updates
    ensures synced == BlueskyVerdict(bskyStatuses, options, html)(toot).Stop?
    ensures panicked == BlueskyVerdict(bskyStatuses, options, html)(toot).Crash?
    ensures updates.toots == old(updates.toots)
    ensures updates.bskyPosts == old(updates.bskyPosts) + Emitted(BlueskyVerdict(bskyStatuses, options, html)(toot))
  {
    // A reply is not planned here.
    if toot.inReplyToId.Some? {
      return false, false;
    }
    // A boost needs the syncReblogs option.
    if toot.reblog.Some? && !options.syncReblogs {
      return false, false;
    }
    var fulltext := MastodonTootText(toot, html);
    // TootUrl is the boosted status's URL for a boost.
    var post := BskyPostShorten(fulltext, TootUrl(toot));
    // A text that opens with a mention is treated as a direct message.
    if StartsWith(post, "@") {
      return false, false;
    }
    // A status already on Bluesky ends this direction.
    var found := FindOnBluesky(toot, bskyStatuses, html);
    if found.Panics? {
      return false, true;
    }
    if found.Yes? {
      return true, false;
    }
    // Not on Bluesky: the hashtag filter reads the full text.
    if options.syncHashtagMastodon.Some? {
      var syncHashtag := options.syncHashtagMastodon.value;
      if syncHashtag != [] && !Contains(fulltext, syncHashtag) {
        return false, false;
      }
    }
    var attachments := TootGetAttachments(toot);
    updates.PushBskyPost(NewStatus(post, attachments, None, OriginalUrl(toot), [], None));
    return false, false;
  }

  /** The Mastodon loop: appends the posts for Bluesky, newest first, and
      reports whether it panics. */
  method PlanBskyPosts(updates: StatusUpdates, mastodonStatuses: seq<Toot>, bskyStatuses: seq<BskyPost>,
                       options: SyncOptions, html: Html) returns (panicked: bool)
    modifies updates
    ensures panicked == ToBlueskyPanics(mastodonStatuses, bskyStatuses, options, html)
    ensures updates.bskyPosts == old(updates.bskyPosts) + ToBluesky(mastodonStatuses, bskyStatuses, options, html)
    ensures updates.toots == old(updates.toots)
  {
    ghost var verdict := BlueskyVerdict(bskyStatuses, options, html);
    var t := 0;
    while t < |mastodonStatuses|
      invariant t <= |mastodonStatuses| && updates.toots == old(updates.toots)
      invariant old(updates.bskyPosts) + Scan(mastodonStatuses, verdict)
                == updates.bskyPosts + Scan(mastodonStatuses[t..], verdict)
      invariant Crashes(mastodonStatuses, verdict) == Crashes(mastodonStatuses[t..], verdict)
    {
      ScanLoopStep(old(updates.bskyPosts) + Scan(mastodonStatuses, verdict), updates.bskyPosts, mastodonStatuses, t, verdict);
      var synced, crashed := PlanBskyPost(updates, mastodonStatuses[t], bskyStatuses, options, html);
      if synced || crashed {
        return crashed;
      }
      t := t + 1;
    }
    return false;
  }

  /** `determine_posts`: both plans, oldest first, or `None` where the
      source panics. */
  method DeterminePosts(mastodonStatuses: seq<Toot>, bskyStatuses: seq<BskyPost>, options: SyncOptions, html: Html)
    returns (r: Option<StatusUpdates>)
    ensures r.None? <==> ToMastodonPanics(bskyStatuses, mastodonStatuses, options, html)
                         || ToBlueskyPanics(mastodonStatuses, bskyStatuses, options, html)
    ensures r.Some? ==> fresh(r.value)
    ensures r.Some? ==> r.value.toots == Reverse(ToMastodon(bskyStatuses, mastodonStatuses, options, html))
    ensures r.Some? ==> r.value.bskyPosts == Reverse(ToBluesky(mastodonStatuses, bskyStatuses, options, html))
  {
    var updates := new StatusUpdates();
    var panicked := PlanToots(updates, mastodonStatuses, bskyStatuses, options, html);
    if panicked {
      return None;
    }
    panicked := PlanBskyPosts(updates, mastodonStatuses, bskyStatuses, options, html);
    if panicked {
      return None;
    }
    assert updates.toots == ToMastodon(bskyStatuses, mastodonStatuses, options, html);
    assert updates.bskyPosts == ToBluesky(mastodonStatuses, bskyStatuses, options, html);
    // Both walks ran newest first; the plan lists oldest first.
    updates.ReverseOrder();
    return Some(updates);
  }
}
