/**
  What a run of `mastodon_delete_older_favs` does, read off the chain of
  turns its fetch goes through and the outcomes of its unfavourite
  requests.
 */
module MastodonFavsFacts {
  import opened Wrappers
  import opened DateList
  import opened FavCache
  import opened MaxId
  import opened MastodonFavs

  /** The entries of every page the turns got, in the order fetched. */
  function AllEntries(turns: seq<Turn>): seq<Entry>
    decreases |turns|
  {
    if turns == [] then []
    else
      var here := if turns[0].page.Some? then Entries(turns[0].page.value.statuses) else [];
      here + AllEntries(turns[1..])
  }

  /** Turn `k` of a chain is the turn fetched with the `max_id` and the
      dates the turns before it left. */
  lemma {:induction false} ChainAt(favourites: (Option<string>, nat) -> Result<Page, string>,
                                   nextMaxId: Option<string> -> Result<Option<nat>, Error>, count: nat,
                                   maxId: nat, dates: seq<Entry>, turns: seq<Turn>, k: nat)
    requires Chain(favourites, nextMaxId, count, maxId, dates, turns)
    requires k < |turns|
    ensures k + 1 < |turns| ==> Goes(turns[k])
    ensures turns[k] == Fetched(favourites, nextMaxId, count + k, LastMaxId(maxId, turns[..k]), LastDates(dates, turns[..k]))
    decreases k
  {
    var t0 := turns[0];
    if k > 0 {
      ChainAt(favourites, nextMaxId, count + 1, t0.next.value.value, t0.collected, turns[1..], k - 1);
      assert turns[1..][..k - 1] == turns[..k][1..];
      assert turns[1..][k - 1] == turns[k];
      if k > 1 {
        assert turns[..k][|turns[..k]| - 1] == turns[1..][..k - 1][k - 2];
      }
    }
  }

  /** The dates a chain leaves are those its pages' statuses `insert` into
      the dates it started with: a failed request adds none. */
  lemma {:induction false} CollectedAll(favourites: (Option<string>, nat) -> Result<Page, string>,
                                        nextMaxId: Option<string> -> Result<Option<nat>, Error>, count: nat,
                                        maxId: nat, dates: seq<Entry>, turns: seq<Turn>)
    requires Chain(favourites, nextMaxId, count, maxId, dates, turns)
    ensures LastDates(dates, turns) == InsertAll(dates, AllEntries(turns))
    decreases |turns|
  {
    if turns != [] {
      var t0 := turns[0];
      var here := if t0.page.Some? then Entries(t0.page.value.statuses) else [];
      assert t0.collected == InsertAll(dates, here);
      if |turns| > 1 {
        CollectedAll(favourites, nextMaxId, count + 1, t0.next.value.value, t0.collected, turns[1..]);
        assert turns[1..][|turns[1..]| - 1] == turns[|turns| - 1];
      } else {
        assert AllEntries(turns[1..]) == [];
        assert here + [] == here;
      }
      InsertAllAppend(dates, here, AllEntries(turns[1..]));
    }
  }

  /** With the `Link` header parsed as `mastodon_fetch_fav_dates` does, a
      turn goes on exactly when its request succeeded and the page carries
      a visible-ASCII `Link` header from which a `max_id` parses: the one it
      goes on with. */
  lemma FetchedGoes(favourites: (Option<string>, nat) -> Result<Page, string>, count: nat,
                    maxId: nat, dates: seq<Entry>)
    ensures var t := Fetched(favourites, NextMaxId, count, maxId, dates);
            var answer := favourites(MaxIdParam(maxId), count);
            && (Goes(t) <==> answer.Ok? && answer.value.link.Some? && VisibleAscii(answer.value.link.value)
                             && ParseNextMaxId(answer.value.link.value).Some?)
            && (Goes(t) ==> t.next.value.value == ParseNextMaxId(answer.value.link.value).value)
  {
    var answer := favourites(MaxIdParam(maxId), count);
    if answer.Ok? {
      NextMaxIdCases(answer.value.link);
    }
  }

  /** The first request of a fetch sends no `max_id`; each later one sends
      the `max_id` parsed from the page before it. */
  lemma RequestsFollowLinks(favourites: (Option<string>, nat) -> Result<Page, string>, count: nat,
                            turns: seq<Turn>, k: nat)
    requires Chain(favourites, NextMaxId, count, U64Max, [], turns)
    requires k < |turns|
    ensures k == 0 ==> Requests(U64Max, turns)[k] == None
    ensures k > 0 ==>
              && turns[k - 1].page.Some? && turns[k - 1].page.value.link.Some?
              && ParseNextMaxId(turns[k - 1].page.value.link.value).Some?
              && Requests(U64Max, turns)[k] == MaxIdParam(ParseNextMaxId(turns[k - 1].page.value.link.value).value)
  {
    RequestAt(U64Max, turns, k);
    if k > 0 {
      var j := k - 1;
      ChainAt(favourites, NextMaxId, count, U64Max, [], turns, j);
      FetchedGoes(favourites, count + j, LastMaxId(U64Max, turns[..j]), LastDates([], turns[..j]));
      LastMaxIdAfter(U64Max, turns, j);
    }
  }

  /** The `max_id` after a turn that goes on is the one it read. */
  lemma LastMaxIdAfter(maxId: nat, turns: seq<Turn>, j: nat)
    requires j < |turns|
    ensures LastMaxId(maxId, turns[..j + 1]) == NextOr(turns[j], LastMaxId(maxId, turns[..j]))
  {
    TurnsAppend(maxId, turns[..j], turns[j]);
    assert turns[..j] + [turns[j]] == turns[..j + 1];
  }

  /** Request `k` sends the `max_id` the turns before it left. */
  lemma {:induction false} RequestAt(maxId: nat, turns: seq<Turn>, k: nat)
    requires k < |turns|
    ensures Requests(maxId, turns)[k] == MaxIdParam(LastMaxId(maxId, turns[..k]))
    decreases k
  {
    if k > 0 {
      RequestAt(NextOr(turns[0], maxId), turns[1..], k - 1);
      assert turns[1..][..k - 1] == turns[..k][1..];
    }
  }

  /** How a fetch ends, with the `Link`
      header parsed as `mastodon_fetch_fav_dates` does: with the dates of
      all pages when the last page carries no `Link` header or no `max_id`;
      with the request's error; with the header's error; or at the bound. */
  lemma FetchEnds(favourites: (Option<string>, nat) -> Result<Page, string>, count: nat, turns: seq<Turn>)
    requires Chain(favourites, NextMaxId, count, U64Max, [], turns)
    requires turns != []
    ensures var last := turns[|turns| - 1];
            var r := FetchResult(turns);
            && (r.Ok? <==> last.page.Some? && (last.page.value.link.None? ||
                             (VisibleAscii(last.page.value.link.value) && ParseNextMaxId(last.page.value.link.value).None?)))
            && (r.Ok? ==> r.value == InsertAll([], AllEntries(turns)))
            && (r == Err(LinkNotVisibleAscii) <==> last.page.Some? && last.page.value.link.Some? && !VisibleAscii(last.page.value.link.value))
            && (r.Err? && r.error.FetchFailed? <==> last.page.None?)
            && (r == Err(PageBound) <==> Goes(last))
  {
    var k := |turns| - 1;
    ChainAt(favourites, NextMaxId, count, U64Max, [], turns, k);
    var answer := favourites(MaxIdParam(LastMaxId(U64Max, turns[..k])), count + k);
    if answer.Ok? {
      NextMaxIdCases(answer.value.link);
    }
    CollectedAll(favourites, NextMaxId, count, U64Max, [], turns);
  }

  /** An entry of the dates an `Ok` fetch returns is, for its key, the
      `created_at` of the last status with that id; every status's id has
      one. */
  lemma FetchedDates(favourites: (Option<string>, nat) -> Result<Page, string>, count: nat,
                     turns: seq<Turn>, e: Entry)
    requires Chain(favourites, NextMaxId, count, U64Max, [], turns)
    requires FetchResult(turns).Ok?
    ensures e in FetchResult(turns).value <==> Winner(AllEntries(turns), e.key) == Some(e)
  {
    FetchEnds(favourites, count, turns);
    InsertAllEntries([], AllEntries(turns), e);
  }

  // ---------------------------------------------------------------------
  // Unfavouriting
  // ---------------------------------------------------------------------

  /** A key leaves the cache only if its entry is older than the cutoff
      and its `unfavourite_status` succeeded or answered 404. */
  lemma RemovedWereOlder(unfavourite: (string, nat) -> Result<(), ApiError>, count: nat,
                         dates: seq<Entry>, cutoff: int, n: nat, k: string)
    requires n <= |Older(dates, cutoff)|
    requires k in RemovedKeys(KeySeq(Older(dates, cutoff)), Outcomes(unfavourite, count, KeySeq(Older(dates, cutoff))), n)
    ensures exists i :: 0 <= i < n && Older(dates, cutoff)[i].key == k
                        && Older(dates, cutoff)[i] in dates && Older(dates, cutoff)[i].date < cutoff
                        && var answer := unfavourite(k, count + i);
                           answer.Ok? || answer.error == HttpStatusError(Some(404), answer.error.message)
  {
    var older := Older(dates, cutoff);
    var keys := KeySeq(older);
    var outcomes := Outcomes(unfavourite, count, keys);
    RemovedKeysMembers(keys, outcomes, n);
    var i :| 0 <= i < n && keys[i] == k && outcomes[i] == Removed;
    assert older[i] in older;
  }

  /** The cache file after the loop holds every entry it held whose key
      was not removed, and nothing else. */
  lemma CacheAfterLoop(file: Option<seq<Entry>>, keys: seq<string>, outcomes: seq<Outcome>, n: nat, e: Entry)
    requires n <= |keys| == |outcomes|
    requires file.Some? ==> Ordered(file.value)
    ensures file.None? ==> RemovedAll(file, RemovedKeys(keys, outcomes, n)).None?
    ensures var after := RemovedAll(file, RemovedKeys(keys, outcomes, n));
            after.Some? ==>
              && Ordered(after.value)
              && (e in after.value <==> e in file.value && !exists i :: 0 <= i < n && keys[i] == e.key && outcomes[i] == Removed)
  {
    RemovedKeysMembers(keys, outcomes, n);
    RemovedAllEntries(file, RemovedKeys(keys, outcomes, n));
    RemovedAllOrdered(file, RemovedKeys(keys, outcomes, n));
  }

  /** The run fails exactly when the first answer that stops it is an HTTP
      error other than 404 and 429, with that error; a 429 or no stop at all
      ends it with `Ok`. */
  lemma StopResultCases(outcomes: seq<Outcome>)
    ensures StopResult(outcomes).Err? <==>
              exists i :: 0 <= i < |outcomes| && outcomes[i].Failed? && forall j :: 0 <= j < i ==> !Stops(outcomes[j])
    ensures StopResult(outcomes).Err? ==> StopResult(outcomes).error == UnfavouriteFailed(outcomes[FirstStop(outcomes)].error)
    ensures Tried(outcomes) < |outcomes| ==> Stops(outcomes[Tried(outcomes) - 1])
  {
    var stop := FirstStop(outcomes);
    if StopResult(outcomes).Err? {
      assert outcomes[stop].Failed?;
    }
    forall i | 0 <= i < |outcomes| && outcomes[i].Failed? && (forall j :: 0 <= j < i ==> !Stops(outcomes[j]))
      ensures i == stop
    {
    }
  }
}
