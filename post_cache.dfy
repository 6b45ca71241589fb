/**
  The cache of texts posted by recent runs, which keeps a run from posting
  a text again (a synchronisation loop), and the size cap applied when it is
  loaded.
 */
module PostCache {
  import opened Wrappers
  import opened Records

  /** Above this many entries a loaded cache is dropped. */
  const MaxCacheEntries: nat := 150

  /** The statuses whose text is not in the cache, in their order. */
  function Unposted(statuses: seq<NewStatus>, cache: set<string>): (r: seq<NewStatus>)
    ensures |r| <= |statuses|
    ensures forall s :: s in r ==> s in statuses && s.text !in cache
    ensures forall s :: s in statuses && s.text !in cache ==> s in r
  {
    if statuses == [] then []
    else if statuses[0].text in cache then Unposted(statuses[1..], cache)
    else [statuses[0]] + Unposted(statuses[1..], cache)
  }

  /** Filtering keeps the order: the statuses kept from `a + b` are those
      kept from `a` followed by those kept from `b`. */
  lemma {:induction false} UnpostedAppend(a: seq<NewStatus>, b: seq<NewStatus>, cache: set<string>)
    ensures Unposted(a + b, cache) == Unposted(a, cache) + Unposted(b, cache)
  {
    if a == [] {
      assert a + b == b;
    } else {
      assert (a + b)[0] == a[0] && (a + b)[1..] == a[1..] + b;
      UnpostedAppend(a[1..], b, cache);
    }
  }

  /** One status more: it is kept unless its text is in the cache. */
  lemma UnpostedStep(statuses: seq<NewStatus>, i: nat, cache: set<string>)
    requires i < |statuses|
    ensures Unposted(statuses[..i + 1], cache)
            == Unposted(statuses[..i], cache) + (if statuses[i].text in cache then [] else [statuses[i]])
  {
    var s := statuses[i];
    UnpostedAppend(statuses[..i], [s], cache);
    assert statuses[..i + 1] == statuses[..i] + [s];
    assert [s][1..] == [];
  }

  /** Nothing is dropped when no text is in the cache. */
  lemma {:induction false} UnpostedNone(statuses: seq<NewStatus>, cache: set<string>)
    requires forall k :: 0 <= k < |statuses| ==> statuses[k].text !in cache
    ensures Unposted(statuses, cache) == statuses
  {
    if statuses != [] {
      UnpostedNone(statuses[1..], cache);
    }
  }

  /** Filtering twice is filtering once. */
  lemma {:induction false} UnpostedIdempotent(statuses: seq<NewStatus>, cache: set<string>)
    ensures Unposted(Unposted(statuses, cache), cache) == Unposted(statuses, cache)
  {
    var r := Unposted(statuses, cache);
    forall k | 0 <= k < |r| ensures r[k].text !in cache {
      assert r[k] in r;
    }
    UnpostedNone(r, cache);
  }

  /** `filter_posted_before`: the same updates when there are none, otherwise
      new updates with only the statuses whose text is not in the cache. */
  method FilterPostedBefore(posts: StatusUpdates, postCache: set<string>) returns (filtered: StatusUpdates)
    ensures posts.toots == [] && posts.bskyPosts == [] ==> filtered == posts
    ensures !(posts.toots == [] && posts.bskyPosts == []) ==>
              && fresh(filtered)
              && filtered.bskyPosts == Unposted(posts.bskyPosts, postCache)
              && filtered.toots == Unposted(posts.toots, postCache)
  {
    // Nothing to filter: the updates come back as they are.
    if posts.toots == [] && posts.bskyPosts == [] {
      return posts;
    }
    filtered := new StatusUpdates();
    PushUnpostedBskyPosts(filtered, posts.bskyPosts, postCache);
    PushUnpostedToots(filtered, posts.toots, postCache);
  }

  /** The loop over the Bluesky posts of `filter_posted_before`. */
  method PushUnpostedBskyPosts(filtered: StatusUpdates, bskyPosts: seq<NewStatus>, postCache: set<string>)
    modifies filtered
    ensures filtered.bskyPosts == old(filtered.bskyPosts) + Unposted(bskyPosts, postCache)
    ensures filtered.toots == old(filtered.toots)
  {
    ghost var start := filtered.bskyPosts;
    var i := 0;
    while i < |bskyPosts|
      invariant i <= |bskyPosts| && filtered.toots == old(filtered.toots)
      invariant filtered.bskyPosts == start + Unposted(bskyPosts[..i], postCache)
    {
      UnpostedStep(bskyPosts, i, postCache);
      if bskyPosts[i].text !in postCache {
        Concat3(start, Unposted(bskyPosts[..i], postCache), [bskyPosts[i]]);
        filtered.PushBskyPost(bskyPosts[i]);
      } else {
        assert Unposted(bskyPosts[..i], postCache) + [] == Unposted(bskyPosts[..i], postCache);
      }
      i := i + 1;
    }
    assert bskyPosts[..i] == bskyPosts;
  }

  /** The loop over the Mastodon statuses of `filter_posted_before`. */
  method PushUnpostedToots(filtered: StatusUpdates, toots: seq<NewStatus>, postCache: set<string>)
    modifies filtered
    ensures filtered.toots == old(filtered.toots) + Unposted(toots, postCache)
    ensures filtered.bskyPosts == old(filtered.bskyPosts)
  {
    ghost var start := filtered.toots;
    var j := 0;
    while j < |toots|
      invariant j <= |toots| && filtered.bskyPosts == old(filtered.bskyPosts)
      invariant filtered.toots == start + Unposted(toots[..j], postCache)
    {
      UnpostedStep(toots, j, postCache);
      if toots[j].text !in postCache {
        Concat3(start, Unposted(toots[..j], postCache), [toots[j]]);
        filtered.PushToot(toots[j]);
      } else {
        assert Unposted(toots[..j], postCache) + [] == Unposted(toots[..j], postCache);
      }
      j := j + 1;
    }
    assert toots[..j] == toots;
  }

  /** The cap rule of `read_post_cache`: the cache read, or the empty set when
      reading or parsing failed (`None`) or when it holds more than 150
      entries. */
  function CappedCache(loaded: Option<set<string>>): (cache: set<string>)
    ensures |cache| <= MaxCacheEntries
    ensures loaded.Some? && |loaded.value| <= MaxCacheEntries ==> cache == loaded.value
    ensures loaded.Some? && |loaded.value| > MaxCacheEntries ==> cache == {}
    ensures loaded.None? ==> cache == {}
  {
    match loaded
    case Some(c) => if |c| > MaxCacheEntries then {} else c
    case None => {}
  }
}
