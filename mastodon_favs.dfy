/**
  Deleting old Mastodon favourites (`mastodon_delete_older_favs`). The
  favourites' dates are kept in a cache file; when there is none they are
  fetched page by page, newest first, following the `max_id` of each
  response's `Link` header. Every favourite liked more than ninety days ago
  is then unfavourited and its entry removed from the cache, until the
  server's rate limit or an HTTP error stops the run.
 */
module MastodonFavs {
  import opened Wrappers
  import opened DateList
  import opened FavCache
  import opened MaxId

  /** The fields of a favourited status that are read. */
  datatype Status = Status(id: string, createdAt: int)

  /** A response of `get_favourites`: its statuses and its `Link` header. */
  datatype Page = Page(statuses: seq<Status>, link: Option<string>)

  /** An error of the Mastodon client. Only an HTTP status error may carry
      the response's status; every other kind of error is `OtherError`. */
  datatype ApiError =
    | HttpStatusError(status: Option<nat>, message: string)
    | OtherError(message: string)

  /** Why a run fails. */
  datatype Error =
    | FetchFailed(message: string)          // `get_favourites` failed
    | LinkNotVisibleAscii                   // `HeaderValue::to_str` failed
    | UnfavouriteFailed(error: ApiError)    // `unfavourite_status` answered an HTTP error
    | PageBound                             // the bound on the pages fetched was reached

  /** The Mastodon server. `requests` records the `max_id` of every
      `get_favourites` request, `unfavourited` the id of every
      `unfavourite_status` request; each answer is any function of the
      request and of the number of such requests before it. */
  class Mastodon {
    var requests: seq<Option<string>>
    var unfavourited: seq<string>
    const favourites: (Option<string>, nat) -> Result<Page, string>
    const unfavourite: (string, nat) -> Result<(), ApiError>

    constructor (favourites: (Option<string>, nat) -> Result<Page, string>,
                 unfavourite: (string, nat) -> Result<(), ApiError>)
      ensures requests == [] && unfavourited == []
      ensures this.favourites == favourites && this.unfavourite == unfavourite
    {
      requests := [];
      unfavourited := [];
      this.favourites := favourites;
      this.unfavourite := unfavourite;
    }

    /** `get_favourites` with a limit of 40 and the given `max_id`. */
    method GetFavourites(maxId: Option<string>) returns (r: Result<Page, string>)
      modifies this
      ensures requests == old(requests) + [maxId] && unfavourited == old(unfavourited)
      ensures r == favourites(maxId, |old(requests)|)
    {
      r := favourites(maxId, |requests|);
      requests := requests + [maxId];
    }

    /** `unfavourite_status`. */
    method UnfavouriteStatus(id: string) returns (r: Result<(), ApiError>)
      modifies this
      ensures unfavourited == old(unfavourited) + [id] && requests == old(requests)
      ensures r == unfavourite(id, |old(unfavourited)|)
    {
      r := unfavourite(id, |unfavourited|);
      unfavourited := unfavourited + [id];
    }
  }

  // ---------------------------------------------------------------------
  // Fetching the dates
  // ---------------------------------------------------------------------

  /** The `max_id` a request sends: none for `u64::MAX`, where the fetch
      starts, otherwise the number in decimal. */
  function MaxIdParam(maxId: nat): (param: Option<string>)
    ensures param.None? <==> maxId == U64Max
    ensures param.Some? ==> AllDigits(param.value) && Value(param.value) == maxId
  {
    if maxId == U64Max then None
    else
      ValueOfDecimal(maxId);
      Some(Decimal(maxId))
  }

  /** `HeaderValue::to_str` succeeds: every character is a tab or visible
      ASCII. */
  predicate VisibleAscii(s: string) {
    forall i :: 0 <= i < |s| ==> s[i] == '\t' || (' ' <= s[i] <= '~')
  }

  /** The `max_id` of the next page read from a `Link` header, `None` when
      the fetch is over. */
  function NextMaxId(link: Option<string>): Result<Option<nat>, Error> {
    match link
    case None => Ok(None)
    case Some(l) => if VisibleAscii(l) then Ok(ParseNextMaxId(l)) else Err(LinkNotVisibleAscii)
  }

  /** The fetch fails on a header that is not visible ASCII, and is over
      when there is no header or no `max_id` can be parsed from it. */
  lemma NextMaxIdCases(link: Option<string>)
    ensures NextMaxId(link).Err? <==> link.Some? && !VisibleAscii(link.value)
    ensures NextMaxId(link) == Ok(None) <==>
              link.None? || (VisibleAscii(link.value) && ParseNextMaxId(link.value).None?)
    ensures NextMaxId(link).Ok? && NextMaxId(link).value.Some? ==>
              link.Some? && VisibleAscii(link.value) && NextMaxId(link).value == ParseNextMaxId(link.value)
  {
  }

  /** The `(id, created_at)` pairs of a page, in order. */
  function Entries(statuses: seq<Status>): (r: seq<Entry>)
    ensures |r| == |statuses|
    ensures forall i :: 0 <= i < |r| ==> r[i] == Entry(statuses[i].id, statuses[i].createdAt)
  {
    seq(|statuses|, i requires 0 <= i < |statuses| => Entry(statuses[i].id, statuses[i].createdAt))
  }

  /** One turn of the fetch loop: the page got, if any, the `max_id` to
      go on with (`None` when the fetch is over) or the error that ends it,
      and the dates collected. */
  datatype Turn = Turn(page: Option<Page>, next: Result<Option<nat>, Error>, collected: seq<Entry>)

  /** The fetch goes on after the turn. */
  predicate Goes(t: Turn) {
    t.next.Ok? && t.next.value.Some?
  }

  /** The turn whose request sends `maxId` as the `count`-th request, with
      `dates` collected before it. */
  function Fetched(favourites: (Option<string>, nat) -> Result<Page, string>,
                   nextMaxId: Option<string> -> Result<Option<nat>, Error>, count: nat,
                   maxId: nat, dates: seq<Entry>): Turn
  {
    match favourites(MaxIdParam(maxId), count)
    case Err(e) => Turn(None, Err(FetchFailed(e)), dates)
    case Ok(page) => Turn(Some(page), nextMaxId(page.link), InsertAll(dates, Entries(page.statuses)))
  }

  /** A turn keeps the collected dates a map. */
  lemma FetchedOrdered(favourites: (Option<string>, nat) -> Result<Page, string>,
                       nextMaxId: Option<string> -> Result<Option<nat>, Error>, count: nat,
                       maxId: nat, dates: seq<Entry>)
    requires Ordered(dates)
    ensures Ordered(Fetched(favourites, nextMaxId, count, maxId, dates).collected)
  {
    var answer := favourites(MaxIdParam(maxId), count);
    if answer.Ok? {
      InsertAllOrdered(dates, Entries(answer.value.statuses));
    }
  }

  /** The `max_id` when the fetch goes on after `t`, `maxId` otherwise. */
  function NextOr(t: Turn, maxId: nat): nat {
    if Goes(t) then t.next.value.value else maxId
  }

  /** `turns` are the turns of a fetch that starts with the `count`-th
      request, sending `maxId`, with `dates` collected: each turn but the
      last goes on, and the next turn sends the `max_id` the one before it
      read, with the dates it collected. */
  ghost predicate Chain(favourites: (Option<string>, nat) -> Result<Page, string>,
                        nextMaxId: Option<string> -> Result<Option<nat>, Error>, count: nat,
                        maxId: nat, dates: seq<Entry>, turns: seq<Turn>)
    decreases |turns|
  {
    turns != [] ==>
      var t := Fetched(favourites, nextMaxId, count, maxId, dates);
      && turns[0] == t
      && (|turns| > 1 ==> Goes(t) && Chain(favourites, nextMaxId, count + 1, t.next.value.value, t.collected, turns[1..]))
  }

  /** The `max_id` the fetch sends after `turns`. */
  function LastMaxId(maxId: nat, turns: seq<Turn>): nat
    decreases |turns|
  {
    if turns == [] then maxId else LastMaxId(NextOr(turns[0], maxId), turns[1..])
  }

  /** The dates collected after `turns`. */
  function LastDates(dates: seq<Entry>, turns: seq<Turn>): seq<Entry> {
    if turns == [] then dates else turns[|turns| - 1].collected
  }

  /** The `max_id`s sent by a fetch's turns, as request parameters. */
  function Requests(maxId: nat, turns: seq<Turn>): (r: seq<Option<string>>)
    ensures |r| == |turns|
    decreases |turns|
  {
    if turns == [] then [] else [MaxIdParam(maxId)] + Requests(NextOr(turns[0], maxId), turns[1..])
  }

  /** What a fetch whose turns are `turns` returns: the error or the dates
      of its last turn when that one does not go on, and reaching the bound
      otherwise. */
  function FetchResult(turns: seq<Turn>): Result<seq<Entry>, Error> {
    if turns == [] || Goes(turns[|turns| - 1]) then Err(PageBound)
    else
      var last := turns[|turns| - 1];
      if last.next.Err? then Err(last.next.error) else Ok(last.collected)
  }

  /** One turn more: the `max_id` after it, the requests of all of them. */
  lemma {:induction false} TurnsAppend(maxId: nat, turns: seq<Turn>, t: Turn)
    ensures LastMaxId(maxId, turns + [t]) == NextOr(t, LastMaxId(maxId, turns))
    ensures Requests(maxId, turns + [t]) == Requests(maxId, turns) + [MaxIdParam(LastMaxId(maxId, turns))]
    decreases |turns|
  {
    if turns == [] {
      assert turns + [t] == [t];
    } else {
      assert (turns + [t])[1..] == turns[1..] + [t];
      TurnsAppend(NextOr(turns[0], maxId), turns[1..], t);
    }
  }

  /** A chain one turn longer. */
  lemma {:induction false} ChainExtend(favourites: (Option<string>, nat) -> Result<Page, string>,
                                       nextMaxId: Option<string> -> Result<Option<nat>, Error>, count: nat,
                                       maxId: nat, dates: seq<Entry>, turns: seq<Turn>, t: Turn)
    requires Chain(favourites, nextMaxId, count, maxId, dates, turns)
    requires turns != [] ==> Goes(turns[|turns| - 1])
    requires t == Fetched(favourites, nextMaxId, count + |turns|, LastMaxId(maxId, turns), LastDates(dates, turns))
    ensures Chain(favourites, nextMaxId, count, maxId, dates, turns + [t])
    decreases |turns|
  {
    if turns == [] {
      assert turns + [t] == [t];
    } else {
      var t0 := turns[0];
      assert (turns + [t])[1..] == turns[1..] + [t];
      assert |turns| == 1 ==> Goes(t0);
      ChainExtend(favourites, nextMaxId, count + 1, t0.next.value.value, t0.collected, turns[1..], t);
    }
  }

  /** `dates.insert(status.id, status.created_at)` for each status of a
      page in turn. */
  method InsertEach(dates: seq<Entry>, entries: seq<Entry>) returns (collected: seq<Entry>)
    ensures collected == InsertAll(dates, entries)
  {
    collected := dates;
    var i := 0;
    while i < |entries|
      invariant 0 <= i <= |entries|
      invariant collected == InsertAll(dates, entries[..i])
    {
      InsertAllStep(dates, entries, i);
      collected := Insert(collected, entries[i].key, entries[i].date);
      i := i + 1;
    }
    assert entries[..i] == entries;
  }

  /** One turn of the fetch loop: the request for `maxId`, the page's
      statuses inserted into `dates` and the `max_id` of the next page read
      from its `Link` header. */
  method FetchPage(api: Mastodon, nextMaxId: Option<string> -> Result<Option<nat>, Error>, maxId: nat, dates: seq<Entry>)
    returns (t: Turn)
    modifies api
    ensures api.requests == old(api.requests) + [MaxIdParam(maxId)]
    ensures api.unfavourited == old(api.unfavourited)
    ensures t == Fetched(api.favourites, nextMaxId, |old(api.requests)|, maxId, dates)
  {
    var response := api.GetFavourites(MaxIdParam(maxId));
    if response.Err? {
      return Turn(None, Err(FetchFailed(response.error)), dates);
    }
    var collected := InsertEach(dates, Entries(response.value.statuses));
    t := Turn(Some(response.value), nextMaxId(response.value.link), collected);
  }

  /** The next turn of a fetch whose turns so far are `turns`, sent after
      the requests `before`. */
  method FetchTurn(api: Mastodon, nextMaxId: Option<string> -> Result<Option<nat>, Error>,
                   ghost before: seq<Option<string>>, ghost turns: seq<Turn>, maxId: nat, dates: seq<Entry>)
    returns (t: Turn)
    requires Chain(api.favourites, nextMaxId, |before|, U64Max, [], turns)
    requires turns != [] ==> Goes(turns[|turns| - 1])
    requires maxId == LastMaxId(U64Max, turns)
    requires dates == LastDates([], turns) && Ordered(dates)
    requires api.requests == before + Requests(U64Max, turns)
    modifies api
    ensures Chain(api.favourites, nextMaxId, |before|, U64Max, [], turns + [t])
    ensures api.requests == before + Requests(U64Max, turns + [t])
    ensures api.unfavourited == old(api.unfavourited)
    ensures NextOr(t, maxId) == LastMaxId(U64Max, turns + [t])
    ensures t.collected == LastDates([], turns + [t]) && Ordered(t.collected)
  {
    ghost var sent := Requests(U64Max, turns);
    assert |api.requests| == |before| + |turns|;
    t := FetchPage(api, nextMaxId, maxId, dates);
    TurnAppended(api.favourites, nextMaxId, |before|, turns, maxId, dates, t);
    assert api.requests == before + (sent + [MaxIdParam(maxId)]);
  }

  /** The chain, the `max_id`s, the requests and the dates one fetched turn
      more. */
  lemma TurnAppended(favourites: (Option<string>, nat) -> Result<Page, string>,
                     nextMaxId: Option<string> -> Result<Option<nat>, Error>, count: nat,
                     turns: seq<Turn>, maxId: nat, dates: seq<Entry>, t: Turn)
    requires Chain(favourites, nextMaxId, count, U64Max, [], turns)
    requires turns != [] ==> Goes(turns[|turns| - 1])
    requires maxId == LastMaxId(U64Max, turns)
    requires dates == LastDates([], turns) && Ordered(dates)
    requires t == Fetched(favourites, nextMaxId, count + |turns|, maxId, dates)
    ensures Chain(favourites, nextMaxId, count, U64Max, [], turns + [t])
    ensures Requests(U64Max, turns + [t]) == Requests(U64Max, turns) + [MaxIdParam(maxId)]
    ensures NextOr(t, maxId) == LastMaxId(U64Max, turns + [t])
    ensures t.collected == LastDates([], turns + [t]) && Ordered(t.collected)
  {
    FetchedOrdered(favourites, nextMaxId, count + |turns|, maxId, dates);
    ChainExtend(favourites, nextMaxId, count, U64Max, [], turns, t);
    TurnsAppend(U64Max, turns, t);
    assert (turns + [t])[|turns + [t]| - 1] == t;
  }

  /** `mastodon_fetch_fav_dates`, sending at most `fuel` requests: the
      turns of the fetch, each request sending the `max_id` the page before
      it carried, until a page carries none, an error ends the fetch or the
      bound is reached. The dates it returns are saved to the cache; after
      an error the cache is left as it was. */
  method FetchFavDates(api: Mastodon, nextMaxId: Option<string> -> Result<Option<nat>, Error>, cache: DateCache, fuel: nat)
    returns (r: Result<seq<Entry>, Error>, ghost turns: seq<Turn>)
    requires cache.Valid()
    modifies api, cache
    ensures Chain(api.favourites, nextMaxId, |old(api.requests)|, U64Max, [], turns)
    ensures api.requests == old(api.requests) + Requests(U64Max, turns)
    ensures |turns| <= fuel
    ensures r == FetchResult(turns)
    ensures turns == [] || Goes(turns[|turns| - 1]) ==> |turns| == fuel
    ensures api.unfavourited == old(api.unfavourited)
    ensures cache.file == (if r.Ok? then Saved(r.value) else old(cache.file))
    ensures cache.Valid()
    ensures r.Ok? ==> Ordered(r.value)
  {
    var dates: seq<Entry> := [];
    var maxId := U64Max;
    var left: nat := fuel;
    turns := [];
    while left > 0
      invariant left + |turns| == fuel
      invariant Chain(api.favourites, nextMaxId, |old(api.requests)|, U64Max, [], turns)
      invariant turns != [] ==> Goes(turns[|turns| - 1])
      invariant maxId == LastMaxId(U64Max, turns)
      invariant dates == LastDates([], turns) && Ordered(dates)
      invariant api.requests == old(api.requests) + Requests(U64Max, turns)
      invariant api.unfavourited == old(api.unfavourited)
      invariant cache.file == old(cache.file)
      decreases left
    {
      var t := FetchTurn(api, nextMaxId, old(api.requests), turns, maxId, dates);
      turns := turns + [t];
      if !Goes(t) {
        if t.next.Err? {
          r := Err(t.next.error);
        } else {
          cache.Save(t.collected);
          r := Ok(t.collected);
        }
        return;
      }
      dates := t.collected;
      maxId := t.next.value.value;
      left := left - 1;
    }
    r := Err(PageBound);
  }

  /** `mastodon_load_fav_dates`: the cached dates, or when there is no
      cache file, the fetched ones. */
  method LoadFavDates(api: Mastodon, cache: DateCache, fuel: nat)
    returns (r: Result<seq<Entry>, Error>, ghost turns: seq<Turn>)
    requires cache.Valid()
    modifies api, cache
    ensures old(cache.file).Some? ==>
              r == Ok(old(cache.file).value) && api.requests == old(api.requests) && cache.file == old(cache.file)
    ensures old(cache.file).None? ==>
              && Chain(api.favourites, NextMaxId, |old(api.requests)|, U64Max, [], turns)
              && api.requests == old(api.requests) + Requests(U64Max, turns)
              && |turns| <= fuel && r == FetchResult(turns) && (turns == [] || Goes(turns[|turns| - 1]) ==> |turns| == fuel)
              && cache.file == (if r.Ok? then Saved(r.value) else old(cache.file))
    ensures api.unfavourited == old(api.unfavourited)
    ensures cache.Valid()
    ensures r.Ok? ==> Ordered(r.value)
  {
    var cached := cache.Load();
    turns := [];
    if cached.Some? {
      r := Ok(cached.value);
    } else {
      r, turns := FetchFavDates(api, NextMaxId, cache, fuel);
    }
  }

  // ---------------------------------------------------------------------
  // Unfavouriting
  // ---------------------------------------------------------------------

  /** What the answer to an `unfavourite_status` does to the run. */
  datatype Outcome =
    | Removed               // unfavourited, or already gone (404): the entry leaves the cache
    | Kept                  // an error without an HTTP status: ignored, the entry stays
    | RateLimited           // 429: the run stops without error
    | Failed(error: ApiError) // any other HTTP status: the run stops with the error

  function OutcomeOf(answer: Result<(), ApiError>): (o: Outcome)
    ensures o == Removed <==> answer.Ok? || answer.error == HttpStatusError(Some(404), answer.error.message)
    ensures o == RateLimited <==> answer.Err? && answer.error.HttpStatusError? && answer.error.status == Some(429)
    ensures o.Failed? <==> answer.Err? && answer.error.HttpStatusError? && answer.error.status.Some?
                           && answer.error.status.value != 404 && answer.error.status.value != 429
    ensures o.Failed? ==> o.error == answer.error
  {
    match answer
    case Ok(_) => Removed
    case Err(HttpStatusError(Some(404), _)) => Removed
    case Err(HttpStatusError(Some(429), _)) => RateLimited
    case Err(HttpStatusError(Some(_), _)) => Failed(answer.error)
    case Err(_) => Kept
  }

  predicate Stops(o: Outcome) {
    o.RateLimited? || o.Failed?
  }

  /** The outcome of unfavouriting each `keys[i]` as the `count + i`-th
      request. */
  function Outcomes(unfavourite: (string, nat) -> Result<(), ApiError>, count: nat, keys: seq<string>): (r: seq<Outcome>)
    ensures |r| == |keys|
    ensures forall i :: 0 <= i < |keys| ==> r[i] == OutcomeOf(unfavourite(keys[i], count + i))
  {
    seq(|keys|, i requires 0 <= i < |keys| => OutcomeOf(unfavourite(keys[i], count + i)))
  }

  /** The index of the first outcome that stops the run, `|outcomes|` when
      none does. */
  function FirstStop(outcomes: seq<Outcome>): (n: nat)
    ensures n <= |outcomes|
    ensures forall i :: 0 <= i < n ==> !Stops(outcomes[i])
    ensures n < |outcomes| ==> Stops(outcomes[n])
    decreases |outcomes|
  {
    if outcomes == [] || Stops(outcomes[0]) then 0 else 1 + FirstStop(outcomes[1..])
  }

  /** How many requests the loop sends: up to the first that stops it. */
  function Tried(outcomes: seq<Outcome>): (n: nat)
    ensures n <= |outcomes|
  {
    if FirstStop(outcomes) < |outcomes| then FirstStop(outcomes) + 1 else |outcomes|
  }

  /** What the loop returns: the error of the answer that stopped it, if
      that was an HTTP error other than 429. */
  function StopResult(outcomes: seq<Outcome>): Result<(), Error> {
    var stop := FirstStop(outcomes);
    if stop < |outcomes| && outcomes[stop].Failed? then Err(UnfavouriteFailed(outcomes[stop].error)) else Ok(())
  }

  /** The keys among the first `n` whose outcome removes their entry. */
  function RemovedKeys(keys: seq<string>, outcomes: seq<Outcome>, n: nat): seq<string>
    requires n <= |keys| == |outcomes|
  {
    if n == 0 then []
    else
      var front := RemovedKeys(keys, outcomes, n - 1);
      if outcomes[n - 1] == Removed then front + [keys[n - 1]] else front
  }

  /** A key is removed when one of its turns among the first `n` removed
      it. */
  lemma {:induction false} RemovedKeysMembers(keys: seq<string>, outcomes: seq<Outcome>, n: nat)
    requires n <= |keys| == |outcomes|
    ensures forall k :: k in RemovedKeys(keys, outcomes, n) <==>
                          exists i :: 0 <= i < n && keys[i] == k && outcomes[i] == Removed
  {
    if n > 0 {
      RemovedKeysMembers(keys, outcomes, n - 1);
    }
  }

  /** The cache file after one more turn of the loop. */
  lemma RemovedAllStep(file: Option<seq<Entry>>, keys: seq<string>, outcomes: seq<Outcome>, i: nat)
    requires i < |keys| == |outcomes|
    ensures RemovedAll(file, RemovedKeys(keys, outcomes, i + 1))
            == if outcomes[i] == Removed then RemovedFrom(RemovedAll(file, RemovedKeys(keys, outcomes, i)), keys[i])
               else RemovedAll(file, RemovedKeys(keys, outcomes, i))
  {
    var front := RemovedKeys(keys, outcomes, i);
    if outcomes[i] == Removed {
      assert (front + [keys[i]])[..|front|] == front;
    }
  }

  /** One turn of the unfavouriting loop. */
  method UnfavouriteNext(api: Mastodon, cache: DateCache, key: string) returns (o: Outcome)
    requires cache.Valid()
    modifies api, cache
    ensures api.unfavourited == old(api.unfavourited) + [key] && api.requests == old(api.requests)
    ensures o == OutcomeOf(api.unfavourite(key, |old(api.unfavourited)|))
    ensures cache.file == (if o == Removed then RemovedFrom(old(cache.file), key) else old(cache.file))
    ensures cache.Valid()
  {
    var answer := api.UnfavouriteStatus(key);
    o := OutcomeOf(answer);
    if o == Removed {
      cache.RemoveDate(key);
    }
  }

  /** Turn `i` of the unfavouriting loop over `older`, sent after the
      requests `before`, with the cache file `file` at the start. */
  method UnfavouriteAt(api: Mastodon, cache: DateCache, older: seq<Entry>, i: nat,
                       ghost before: seq<string>, ghost file: Option<seq<Entry>>)
    returns (o: Outcome)
    requires i < |older| && cache.Valid()
    requires api.unfavourited == before + KeySeq(older)[..i]
    requires cache.file == RemovedAll(file, RemovedKeys(KeySeq(older), Outcomes(api.unfavourite, |before|, KeySeq(older)), i))
    modifies api, cache
    ensures o == Outcomes(api.unfavourite, |before|, KeySeq(older))[i]
    ensures api.unfavourited == before + KeySeq(older)[..i + 1]
    ensures cache.file == RemovedAll(file, RemovedKeys(KeySeq(older), Outcomes(api.unfavourite, |before|, KeySeq(older)), i + 1))
    ensures api.requests == old(api.requests) && cache.Valid()
  {
    ghost var keys := KeySeq(older);
    ghost var outcomes := Outcomes(api.unfavourite, |before|, keys);
    assert |api.unfavourited| == |before| + i;
    assert outcomes[i] == OutcomeOf(api.unfavourite(older[i].key, |api.unfavourited|));
    RemovedAllStep(file, keys, outcomes, i);
    o := UnfavouriteNext(api, cache, older[i].key);
    assert keys[..i + 1] == keys[..i] + [keys[i]];
  }

  /** The loop of `mastodon_delete_older_favs` over the `older` entries:
      nothing on a dry run; otherwise each is unfavourited in turn until one
      stops the run. */
  method UnfavouriteAll(api: Mastodon, cache: DateCache, dryRun: bool, older: seq<Entry>)
    returns (r: Result<(), Error>)
    requires cache.Valid()
    modifies api, cache
    ensures api.requests == old(api.requests)
    ensures dryRun ==> r == Ok(()) && api.unfavourited == old(api.unfavourited) && cache.file == old(cache.file)
    ensures !dryRun ==>
              var keys := KeySeq(older);
              var outcomes := Outcomes(api.unfavourite, |old(api.unfavourited)|, keys);
              && api.unfavourited == old(api.unfavourited) + keys[..Tried(outcomes)]
              && cache.file == RemovedAll(old(cache.file), RemovedKeys(keys, outcomes, Tried(outcomes)))
              && r == StopResult(outcomes)
    ensures cache.Valid()
  {
    if dryRun {
      // Each entry is only printed.
      return Ok(());
    }
    r := UnfavouriteEach(api, cache, older, KeySeq(older));
  }

  /** The loop over `keys`, the keys of the `older` entries: each is
      unfavourited in turn until one stops the run. */
  method UnfavouriteEach(api: Mastodon, cache: DateCache, older: seq<Entry>, ghost keys: seq<string>)
    returns (r: Result<(), Error>)
    requires cache.Valid() && keys == KeySeq(older)
    modifies api, cache
    ensures api.requests == old(api.requests)
    ensures var outcomes := Outcomes(api.unfavourite, |old(api.unfavourited)|, keys);
            && api.unfavourited == old(api.unfavourited) + keys[..Tried(outcomes)]
            && cache.file == RemovedAll(old(cache.file), RemovedKeys(keys, outcomes, Tried(outcomes)))
            && r == StopResult(outcomes)
    ensures cache.Valid()
  {
    ghost var outcomes := Outcomes(api.unfavourite, |api.unfavourited|, keys);
    var i := 0;
    while i < |older|
      invariant 0 <= i <= FirstStop(outcomes)
      invariant cache.Valid()
      invariant api.requests == old(api.requests)
      invariant api.unfavourited == old(api.unfavourited) + keys[..i]
      invariant cache.file == RemovedAll(old(cache.file), RemovedKeys(keys, outcomes, i))
    {
      var o := UnfavouriteAt(api, cache, older, i, old(api.unfavourited), old(cache.file));
      if Stops(o) {
        assert FirstStop(outcomes) == i && Tried(outcomes) == i + 1;
        // A 429 ends the run quietly; any other HTTP error fails it.
        r := if o.Failed? then Err(UnfavouriteFailed(o.error)) else Ok(());
        return;
      }
      i := i + 1;
    }
    r := Ok(());
  }

  /** `mastodon_delete_older_favs` at time `now`, fetching at most `fuel`
      pages when there is no cache. */
  method DeleteOlderFavs(api: Mastodon, cache: DateCache, dryRun: bool, now: int, fuel: nat)
    returns (r: Result<(), Error>, loaded: Result<seq<Entry>, Error>, fetched: Option<seq<Entry>>, ghost turns: seq<Turn>)
    requires cache.Valid()
    modifies api, cache
    ensures loaded.Err? ==> r == Err(loaded.error) && api.unfavourited == old(api.unfavourited)
    ensures loaded.Ok? && dryRun ==> r == Ok(()) && api.unfavourited == old(api.unfavourited)
    ensures loaded.Ok? && !dryRun ==>
              var keys := KeySeq(Older(loaded.value, Cutoff(now)));
              var outcomes := Outcomes(api.unfavourite, |old(api.unfavourited)|, keys);
              && api.unfavourited == old(api.unfavourited) + keys[..Tried(outcomes)]
              && cache.file == RemovedAll(fetched, RemovedKeys(keys, outcomes, Tried(outcomes)))
              && r == StopResult(outcomes)
    ensures loaded.Ok? && dryRun ==> cache.file == fetched
    ensures old(cache.file).Some? ==>
              loaded == Ok(old(cache.file).value) && fetched == old(cache.file) && api.requests == old(api.requests)
    ensures old(cache.file).None? ==>
              && Chain(api.favourites, NextMaxId, |old(api.requests)|, U64Max, [], turns)
              && api.requests == old(api.requests) + Requests(U64Max, turns)
              && |turns| <= fuel && loaded == FetchResult(turns) && (turns == [] || Goes(turns[|turns| - 1]) ==> |turns| == fuel)
    ensures old(cache.file).None? && loaded.Ok? ==> fetched == Saved(loaded.value)
    ensures cache.Valid()
  {
    loaded, turns := LoadFavDates(api, cache, fuel);
    fetched := cache.file;
    if loaded.Err? {
      r := Err(loaded.error);
      return;
    }
    var older := Older(loaded.value, Cutoff(now));
    r := UnfavouriteAll(api, cache, dryRun, older);
  }
}
