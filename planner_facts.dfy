/**
  What the plans of `determine_posts` hold: the searches find any matching
  post, and panic only on a post without a text that they reach; each
  direction stops at the newest post already on the other network, or
  panics where the source does; and every planned post comes from a post of
  the timeline that is not skipped, not synchronised and carries the sync
  hashtag.
 */
module PlannerFacts {
  import opened Wrappers
  import opened Text
  import opened Records
  import opened PostText
  import opened Equality
  import opened Planner
  import opened Search

  /** Every Bluesky post that is not a reply has a text. */
  predicate AllDecodable(bsky: seq<BskyPost>) {
    forall k :: 0 <= k < |bsky| && !bsky[k].isReply ==> Decodable(bsky[k])
  }

  // ---------------------------------------------------------------------
  // The searches
  // ---------------------------------------------------------------------

  /** For a post with a text, the Bluesky loop's search never panics, and
      it answers yes exactly when some status that is not a reply is the
      same post. */
  lemma OnMastodonDecodable(post: BskyPost, toots: seq<Toot>, html: Html)
    requires !post.isReply && Decodable(post)
    ensures OnMastodon(post, toots, html) != Panics
    ensures OnMastodon(post, toots, html) == Yes <==>
              exists j :: 0 <= j < |toots| && toots[j].inReplyToId.None? && TootAndPostAreEqual(toots[j], post, html)
  {
    var test := MastodonAnswer(post, html);
    FirstAnswerAt(toots, test, Yes);
    FirstAnswerAt(toots, test, Panics);
    assert forall j :: 0 <= j < |toots| ==>
             test(toots[j]) != Panics
             && (test(toots[j]) == Yes <==> toots[j].inReplyToId.None? && TootAndPostAreEqual(toots[j], post, html));
  }

  /** For a post without a text, the search panics as soon as there is a
      status that is not a reply to compare it with, and answers no
      otherwise. */
  lemma OnMastodonUndecodable(post: BskyPost, toots: seq<Toot>, html: Html)
    requires !post.isReply && !Decodable(post)
    ensures OnMastodon(post, toots, html)
            == if exists j :: 0 <= j < |toots| && toots[j].inReplyToId.None? then Panics else No
  {
    var test := MastodonAnswer(post, html);
    FirstAnswerAt(toots, test, Yes);
    FirstAnswerAt(toots, test, Panics);
    assert forall j :: 0 <= j < |toots| ==> test(toots[j]) != Yes && (test(toots[j]).No? <==> toots[j].inReplyToId.Some?);
  }

  /** The Bluesky post passes the comparison with a status that is not a
      reply without a panic and without being the same post. */
  predicate PassedOver(toot: Toot, post: BskyPost, html: Html) {
    post.isReply || (Decodable(post) && !TootAndPostAreEqual(toot, post, html))
  }

  /** For a status that is not a reply, the Mastodon loop's search answers
      yes exactly when some post that is not a reply, with a text, is the
      same post and every newer post is passed over; it panics exactly when
      some post that is not a reply has no text and every newer post is
      passed over. */
  lemma OnBlueskyAt(toot: Toot, bsky: seq<BskyPost>, html: Html)
    requires toot.inReplyToId.None?
    ensures OnBluesky(toot, bsky, html) == Yes <==>
              exists k :: 0 <= k < |bsky| && !bsky[k].isReply && Decodable(bsky[k])
                          && TootAndPostAreEqual(toot, bsky[k], html)
                          && forall j :: 0 <= j < k ==> PassedOver(toot, bsky[j], html)
    ensures OnBluesky(toot, bsky, html) == Panics <==>
              exists k :: 0 <= k < |bsky| && !bsky[k].isReply && !Decodable(bsky[k])
                          && forall j :: 0 <= j < k ==> PassedOver(toot, bsky[j], html)
  {
    var test := BlueskyAnswer(toot, html);
    FirstAnswerAt(bsky, test, Yes);
    FirstAnswerAt(bsky, test, Panics);
    assert forall j :: 0 <= j < |bsky| ==> (test(bsky[j]).No? <==> PassedOver(toot, bsky[j], html));
    forall k | 0 <= k <= |bsky|
      ensures NoBefore(bsky, k, test) <==> forall j :: 0 <= j < k ==> PassedOver(toot, bsky[j], html)
    {
    }
  }

  /** When every post that is not a reply has a text, the search for a
      status that is not a reply never panics, and it answers yes exactly
      when some post is the same post. */
  lemma OnBlueskyAllDecodable(toot: Toot, bsky: seq<BskyPost>, html: Html)
    requires toot.inReplyToId.None? && AllDecodable(bsky)
    ensures OnBluesky(toot, bsky, html) != Panics
    ensures OnBluesky(toot, bsky, html) == Yes <==> exists k :: 0 <= k < |bsky| && TootAndPostAreEqual(toot, bsky[k], html)
  {
    var test := BlueskyAnswer(toot, html);
    FirstAnswerAt(bsky, test, Yes);
    FirstAnswerAt(bsky, test, Panics);
    forall k | 0 <= k < |bsky|
      ensures test(bsky[k]) != Panics && (test(bsky[k]) == Yes <==> TootAndPostAreEqual(toot, bsky[k], html))
    {
      BlueskyAnswerDecodable(toot, bsky, k, html);
    }
  }

  lemma BlueskyAnswerDecodable(toot: Toot, bsky: seq<BskyPost>, k: nat, html: Html)
    requires toot.inReplyToId.None? && AllDecodable(bsky) && k < |bsky|
    ensures SameStructure(toot, bsky[k]) ==> Decodable(bsky[k])
    ensures BlueskyAnswer(toot, html)(bsky[k]) != Panics
    ensures BlueskyAnswer(toot, html)(bsky[k]) == Yes <==> TootAndPostAreEqual(toot, bsky[k], html)
  {
  }

  // ---------------------------------------------------------------------
  // Bluesky to Mastodon
  // ---------------------------------------------------------------------

  /** The Bluesky loop goes on past the post: it is skipped, or it has a
      text and is not on Mastodon. */
  predicate MastodonGoesOn(post: BskyPost, toots: seq<Toot>, options: SyncOptions, html: Html) {
    BskySkipped(post, options) || (Decodable(post) && OnMastodon(post, toots, html) == No)
  }

  /** What the Bluesky loop does with one post: it stops at a post that is
      not skipped and is on Mastodon, panics at every post that is not
      skipped and has no text, and otherwise goes on. */
  lemma MastodonVerdictOf(post: BskyPost, toots: seq<Toot>, options: SyncOptions, html: Html)
    ensures MastodonVerdict(toots, options, html)(post).Stop?
            <==> !BskySkipped(post, options) && OnMastodon(post, toots, html) == Yes
    ensures MastodonVerdict(toots, options, html)(post).Crash? <==> !BskySkipped(post, options) && !Decodable(post)
    ensures !Ends(MastodonVerdict(toots, options, html)(post)) <==> MastodonGoesOn(post, toots, options, html)
  {
    if !BskySkipped(post, options) {
      if Decodable(post) {
        OnMastodonDecodable(post, toots, html);
      } else {
        OnMastodonUndecodable(post, toots, html);
      }
    }
  }

  /** No post before `k` ends the Bluesky loop exactly when the loop goes
      on past each of them. */
  lemma MastodonNoEnd(bsky: seq<BskyPost>, k: nat, toots: seq<Toot>, options: SyncOptions, html: Html)
    requires k <= |bsky|
    ensures NoEndBefore(bsky, k, MastodonVerdict(toots, options, html))
            <==> forall j :: 0 <= j < k ==> MastodonGoesOn(bsky[j], toots, options, html)
  {
    forall j | 0 <= j < k {
      MastodonVerdictOf(bsky[j], toots, options, html);
    }
  }

  /** The Bluesky loop stops at the newest post that is not skipped and is
      already on Mastodon: nothing older is planned, and nothing older makes
      it panic. */
  lemma ToMastodonHorizon(bsky: seq<BskyPost>, k: nat, toots: seq<Toot>, options: SyncOptions, html: Html)
    requires k < |bsky|
    requires !BskySkipped(bsky[k], options) && OnMastodon(bsky[k], toots, html) == Yes
    ensures ToMastodon(bsky, toots, options, html) == ToMastodon(bsky[..k], toots, options, html)
    ensures ToMastodonPanics(bsky, toots, options, html) == ToMastodonPanics(bsky[..k], toots, options, html)
  {
    ScanHorizon(bsky, k, MastodonVerdict(toots, options, html));
  }

  /** The Bluesky loop panics exactly when it reaches a post that is not
      skipped and has no text. */
  lemma ToMastodonPanicsAt(bsky: seq<BskyPost>, toots: seq<Toot>, options: SyncOptions, html: Html)
    ensures ToMastodonPanics(bsky, toots, options, html) <==>
              exists k :: 0 <= k < |bsky| && !BskySkipped(bsky[k], options) && !Decodable(bsky[k])
                          && forall j :: 0 <= j < k ==> MastodonGoesOn(bsky[j], toots, options, html)
  {
    var verdict := MastodonVerdict(toots, options, html);
    CrashesAt(bsky, verdict);
    forall k | 0 <= k < |bsky|
      ensures verdict(bsky[k]).Crash? && NoEndBefore(bsky, k, verdict)
              <==> !BskySkipped(bsky[k], options) && !Decodable(bsky[k])
                   && forall j :: 0 <= j < k ==> MastodonGoesOn(bsky[j], toots, options, html)
    {
      MastodonVerdictOf(bsky[k], toots, options, html);
      MastodonNoEnd(bsky, k, toots, options, html);
    }
  }

  /** When every post that is not a reply has a text, the Bluesky loop
      never panics. */
  lemma ToMastodonAllDecodable(bsky: seq<BskyPost>, toots: seq<Toot>, options: SyncOptions, html: Html)
    requires AllDecodable(bsky)
    ensures !ToMastodonPanics(bsky, toots, options, html)
  {
    ToMastodonPanicsAt(bsky, toots, options, html);
  }

  /** Every planned status is the new status of a post that is not skipped,
      has a text, is not on Mastodon and carries the sync hashtag, and the
      loop goes on past every newer post. */
  lemma ToMastodonSound(bsky: seq<BskyPost>, toots: seq<Toot>, options: SyncOptions, html: Html, s: NewStatus)
    returns (k: nat)
    requires s in ToMastodon(bsky, toots, options, html)
    ensures k < |bsky| && !BskySkipped(bsky[k], options) && Decodable(bsky[k])
    ensures OnMastodon(bsky[k], toots, html) == No
    ensures HashtagMatches(options.syncHashtagBluesky, BskyPostUnshortenDecode(bsky[k]))
    ensures s == NewToot(bsky[k])
    ensures forall j :: 0 <= j < k ==> MastodonGoesOn(bsky[j], toots, options, html)
  {
    k := ScanSound(bsky, MastodonVerdict(toots, options, html), s);
    MastodonNoEnd(bsky, k, toots, options, html);
  }

  /** Every post that is not skipped, has a text, is not on Mastodon and
      carries the sync hashtag, with the loop going on past every newer
      post, has its status planned, after those of the newer posts. */
  lemma ToMastodonComplete(bsky: seq<BskyPost>, k: nat, toots: seq<Toot>, options: SyncOptions, html: Html)
    requires k < |bsky| && !BskySkipped(bsky[k], options) && Decodable(bsky[k])
    requires OnMastodon(bsky[k], toots, html) == No
    requires HashtagMatches(options.syncHashtagBluesky, BskyPostUnshortenDecode(bsky[k]))
    requires forall j :: 0 <= j < k ==> MastodonGoesOn(bsky[j], toots, options, html)
    ensures ToMastodon(bsky, toots, options, html)
            == ToMastodon(bsky[..k], toots, options, html) + [NewToot(bsky[k])]
               + ToMastodon(bsky[k + 1..], toots, options, html)
  {
    MastodonNoEnd(bsky, k, toots, options, html);
    ScanComplete(bsky, k, MastodonVerdict(toots, options, html));
  }

  /** Posts that are all skipped in front of a timeline change nothing. */
  lemma ToMastodonSkipsPrefix(skipped: seq<BskyPost>, bsky: seq<BskyPost>, toots: seq<Toot>,
                              options: SyncOptions, html: Html)
    requires forall j :: 0 <= j < |skipped| ==> BskySkipped(skipped[j], options)
    ensures ToMastodon(skipped + bsky, toots, options, html) == ToMastodon(bsky, toots, options, html)
    ensures ToMastodonPanics(skipped + bsky, toots, options, html) == ToMastodonPanics(bsky, toots, options, html)
  {
    var verdict := MastodonVerdict(toots, options, html);
    ScanAllPass(skipped, verdict);
    ScanAppend(skipped, bsky, verdict);
  }

  /** An empty Bluesky sync hashtag filters nothing, like an unset one. */
  lemma ToMastodonEmptyHashtag(bsky: seq<BskyPost>, toots: seq<Toot>, options: SyncOptions, html: Html)
    ensures ToMastodon(bsky, toots, options.(syncHashtagBluesky := Some([])), html)
            == ToMastodon(bsky, toots, options.(syncHashtagBluesky := None), html)
    ensures ToMastodonPanics(bsky, toots, options.(syncHashtagBluesky := Some([])), html)
            == ToMastodonPanics(bsky, toots, options.(syncHashtagBluesky := None), html)
  {
    ScanSameVerdicts(bsky, MastodonVerdict(toots, options.(syncHashtagBluesky := Some([])), html),
                     MastodonVerdict(toots, options.(syncHashtagBluesky := None), html));
  }

  // ---------------------------------------------------------------------
  // Mastodon to Bluesky
  // ---------------------------------------------------------------------

  /** A status the Mastodon loop compares with the Bluesky timeline: not
      skipped and not addressed to a user. */
  predicate Compared(toot: Toot, options: SyncOptions, html: Html) {
    !TootSkipped(toot, options) && !StartsWith(ShortenedToot(toot, html), "@")
  }

  /** The Mastodon loop goes on past the status: it is not compared, or
      its search answers no. */
  predicate BlueskyGoesOn(toot: Toot, bsky: seq<BskyPost>, options: SyncOptions, html: Html) {
    !Compared(toot, options, html) || OnBluesky(toot, bsky, html) == No
  }

  /** A status ends the Mastodon loop exactly when the loop does not go on
      past it. */
  lemma BlueskyVerdictOf(toot: Toot, bsky: seq<BskyPost>, options: SyncOptions, html: Html)
    ensures !Ends(BlueskyVerdict(bsky, options, html)(toot)) <==> BlueskyGoesOn(toot, bsky, options, html)
  {
  }

  /** No status before `k` ends the Mastodon loop exactly when the loop
      goes on past each of them. */
  lemma BlueskyNoEnd(toots: seq<Toot>, k: nat, bsky: seq<BskyPost>, options: SyncOptions, html: Html)
    requires k <= |toots|
    ensures NoEndBefore(toots, k, BlueskyVerdict(bsky, options, html))
            <==> forall j :: 0 <= j < k ==> BlueskyGoesOn(toots[j], bsky, options, html)
  {
    forall j | 0 <= j < k {
      BlueskyVerdictOf(toots[j], bsky, options, html);
    }
  }

  /** The Mastodon loop stops at the newest status it compares and finds on
      Bluesky: nothing older is planned, and nothing older makes it
      panic. */
  lemma ToBlueskyHorizon(toots: seq<Toot>, k: nat, bsky: seq<BskyPost>, options: SyncOptions, html: Html)
    requires k < |toots|
    requires Compared(toots[k], options, html) && OnBluesky(toots[k], bsky, html) == Yes
    ensures ToBluesky(toots, bsky, options, html) == ToBluesky(toots[..k], bsky, options, html)
    ensures ToBlueskyPanics(toots, bsky, options, html) == ToBlueskyPanics(toots[..k], bsky, options, html)
  {
    ScanHorizon(toots, k, BlueskyVerdict(bsky, options, html));
  }

  /** The Mastodon loop panics exactly when the search for a status it
      compares panics, with the loop going on past every newer status. */
  lemma ToBlueskyPanicsAt(toots: seq<Toot>, bsky: seq<BskyPost>, options: SyncOptions, html: Html)
    ensures ToBlueskyPanics(toots, bsky, options, html) <==>
              exists k :: 0 <= k < |toots| && Compared(toots[k], options, html) && OnBluesky(toots[k], bsky, html) == Panics
                          && forall j :: 0 <= j < k ==> BlueskyGoesOn(toots[j], bsky, options, html)
  {
    var verdict := BlueskyVerdict(bsky, options, html);
    CrashesAt(toots, verdict);
    forall k | 0 <= k < |toots|
      ensures verdict(toots[k]).Crash? && NoEndBefore(toots, k, verdict)
              <==> Compared(toots[k], options, html) && OnBluesky(toots[k], bsky, html) == Panics
                   && forall j :: 0 <= j < k ==> BlueskyGoesOn(toots[j], bsky, options, html)
    {
      BlueskyNoEnd(toots, k, bsky, options, html);
    }
  }

  /** When every Bluesky post that is not a reply has a text, the Mastodon
      loop never panics. */
  lemma ToBlueskyAllDecodable(toots: seq<Toot>, bsky: seq<BskyPost>, options: SyncOptions, html: Html)
    requires AllDecodable(bsky)
    ensures !ToBlueskyPanics(toots, bsky, options, html)
  {
    ToBlueskyPanicsAt(toots, bsky, options, html);
    forall k | 0 <= k < |toots| && Compared(toots[k], options, html)
      ensures OnBluesky(toots[k], bsky, html) != Panics
    {
      OnBlueskyAllDecodable(toots[k], bsky, html);
    }
  }

  /** Every planned post is the new post of a status that is compared, not
      on Bluesky and carries the sync hashtag, with the loop going on past
      every newer status; in particular no planned text addresses a
      user. */
  lemma ToBlueskySound(toots: seq<Toot>, bsky: seq<BskyPost>, options: SyncOptions, html: Html, s: NewStatus)
    returns (k: nat)
    requires s in ToBluesky(toots, bsky, options, html)
    ensures k < |toots| && Compared(toots[k], options, html) && OnBluesky(toots[k], bsky, html) == No
    ensures HashtagMatches(options.syncHashtagMastodon, MastodonTootText(toots[k], html))
    ensures s == NewPost(toots[k], html) && !StartsWith(s.text, "@")
    ensures forall j :: 0 <= j < k ==> BlueskyGoesOn(toots[j], bsky, options, html)
  {
    k := ScanSound(toots, BlueskyVerdict(bsky, options, html), s);
    BlueskyNoEnd(toots, k, bsky, options, html);
  }

  /** Every status that is compared, not on Bluesky and carries the sync
      hashtag, with the loop going on past every newer status, has its post
      planned, after those of the newer statuses. */
  lemma ToBlueskyComplete(toots: seq<Toot>, k: nat, bsky: seq<BskyPost>, options: SyncOptions, html: Html)
    requires k < |toots| && Compared(toots[k], options, html) && OnBluesky(toots[k], bsky, html) == No
    requires HashtagMatches(options.syncHashtagMastodon, MastodonTootText(toots[k], html))
    requires forall j :: 0 <= j < k ==> BlueskyGoesOn(toots[j], bsky, options, html)
    ensures ToBluesky(toots, bsky, options, html)
            == ToBluesky(toots[..k], bsky, options, html) + [NewPost(toots[k], html)]
               + ToBluesky(toots[k + 1..], bsky, options, html)
  {
    BlueskyNoEnd(toots, k, bsky, options, html);
    ScanComplete(toots, k, BlueskyVerdict(bsky, options, html));
  }

  /** Statuses that are all skipped in front of a timeline change nothing. */
  lemma ToBlueskySkipsPrefix(skipped: seq<Toot>, toots: seq<Toot>, bsky: seq<BskyPost>,
                             options: SyncOptions, html: Html)
    requires forall j :: 0 <= j < |skipped| ==> TootSkipped(skipped[j], options)
    ensures ToBluesky(skipped + toots, bsky, options, html) == ToBluesky(toots, bsky, options, html)
    ensures ToBlueskyPanics(skipped + toots, bsky, options, html) == ToBlueskyPanics(toots, bsky, options, html)
  {
    var verdict := BlueskyVerdict(bsky, options, html);
    ScanAllPass(skipped, verdict);
    ScanAppend(skipped, toots, verdict);
  }

  /** An empty Mastodon sync hashtag filters nothing, like an unset one. */
  lemma ToBlueskyEmptyHashtag(toots: seq<Toot>, bsky: seq<BskyPost>, options: SyncOptions, html: Html)
    ensures ToBluesky(toots, bsky, options.(syncHashtagMastodon := Some([])), html)
            == ToBluesky(toots, bsky, options.(syncHashtagMastodon := None), html)
    ensures ToBlueskyPanics(toots, bsky, options.(syncHashtagMastodon := Some([])), html)
            == ToBlueskyPanics(toots, bsky, options.(syncHashtagMastodon := None), html)
  {
    var v := BlueskyVerdict(bsky, options.(syncHashtagMastodon := Some([])), html);
    var w := BlueskyVerdict(bsky, options.(syncHashtagMastodon := None), html);
    forall j | 0 <= j < |toots| ensures v(toots[j]) == w(toots[j]) {
      BlueskyVerdictEmptyHashtag(toots[j], bsky, options, html);
    }
    ScanSameVerdicts(toots, v, w);
  }

  lemma BlueskyVerdictEmptyHashtag(toot: Toot, bsky: seq<BskyPost>, options: SyncOptions, html: Html)
    ensures BlueskyVerdict(bsky, options.(syncHashtagMastodon := Some([])), html)(toot)
            == BlueskyVerdict(bsky, options.(syncHashtagMastodon := None), html)(toot)
  {
  }

  /** With an empty Bluesky timeline nothing is found there and nothing
      panics, so every status that is compared and carries the sync hashtag
      is planned. */
  lemma ToBlueskyEmptyTimeline(toots: seq<Toot>, options: SyncOptions, html: Html, k: nat)
    requires k < |toots| && Compared(toots[k], options, html)
    requires HashtagMatches(options.syncHashtagMastodon, MastodonTootText(toots[k], html))
    ensures NewPost(toots[k], html) in ToBluesky(toots, [], options, html)
    ensures !ToBlueskyPanics(toots, [], options, html)
  {
    ToBlueskyAllDecodable(toots, [], options, html);
    ToBlueskyComplete(toots, k, [], options, html);
  }
}
