/**
  Deleting old Bluesky likes (`bluesky_delete_older_favs`). The liked
  posts' dates are kept in a cache file keyed by the post's URI; each run
  adds the likes of at most 100 more pages of `getActorLikes`, resuming from
  the cursor saved by the run before. Every entry dated more than ninety days
  ago is then deleted as a like record and removed from the cache, until a
  URI without a valid record key or a failed deletion stops the run.
 */
module BlueskyFavs {
  import opened Wrappers
  import opened DateList
  import opened FavCache
  import opened AtUri

  /** The fields of a liked post that are read: its URI and the
      `created_at` of its record. */
  datatype Like = Like(uri: string, createdAt: int)

  /** A response of `getActorLikes`: its posts and its cursor. */
  datatype LikePage = LikePage(likes: seq<Like>, cursor: Option<string>)

  /** The input of `com.atproto.repo.deleteRecord`. */
  datatype DeleteRequest = DeleteRequest(repo: string, collection: string, rkey: string)

  /** Why a run fails. */
  datatype Error =
    | InvalidUri(reason: RkeyError)   // no record key could be read from a post's URI
    | DeleteFailed(message: string)   // `deleteRecord` failed

  /** The collection of like records. */
  const LikeCollection: string := "app.bsky.feed.like"

  /** How many pages one run fetches at most. */
  const MaxPages: nat := 100

  /** The Bluesky server, signed in as `actor`. `requests` records the
      cursor of every `getActorLikes` request, `deleted` every
      `deleteRecord` request; each answer is any function of the request and
      of the number of such requests before it. */
  class Bluesky {
    var requests: seq<Option<string>>
    var deleted: seq<DeleteRequest>
    const actor: string
    const actorLikes: (Option<string>, nat) -> Result<LikePage, string>
    const deleteRecord: (DeleteRequest, nat) -> Result<(), string>

    constructor (actor: string, actorLikes: (Option<string>, nat) -> Result<LikePage, string>,
                 deleteRecord: (DeleteRequest, nat) -> Result<(), string>)
      ensures requests == [] && deleted == []
      ensures this.actor == actor && this.actorLikes == actorLikes && this.deleteRecord == deleteRecord
    {
      requests := [];
      deleted := [];
      this.actor := actor;
      this.actorLikes := actorLikes;
      this.deleteRecord := deleteRecord;
    }

    /** `getActorLikes` of `actor` with a limit of 100 and the given
        cursor. */
    method GetActorLikes(cursor: Option<string>) returns (r: Result<LikePage, string>)
      modifies this
      ensures requests == old(requests) + [cursor] && deleted == old(deleted)
      ensures r == actorLikes(cursor, |old(requests)|)
    {
      r := actorLikes(cursor, |requests|);
      requests := requests + [cursor];
    }

    /** `deleteRecord`. */
    method DeleteRecord(request: DeleteRequest) returns (r: Result<(), string>)
      modifies this
      ensures deleted == old(deleted) + [request] && requests == old(requests)
      ensures r == deleteRecord(request, |old(deleted)|)
    {
      r := deleteRecord(request, |deleted|);
      deleted := deleted + [request];
    }
  }

  /** The cursor file. `content` is `None` when there is none, otherwise the
      JSON value it holds: `null` or a cursor. */
  class CursorFile {
    var content: Option<Option<string>>

    constructor (content: Option<Option<string>>)
      ensures this.content == content
    {
      this.content := content;
    }

    method Read() returns (r: Option<Option<string>>)
      ensures r == content
    {
      r := content;
    }

    /** `fs::write` of the cursor as JSON. */
    method Write(cursor: Option<string>)
      modifies this
      ensures content == Some(cursor)
    {
      content := Some(cursor);
    }
  }

  // ---------------------------------------------------------------------
  // Fetching the dates
  // ---------------------------------------------------------------------

  /** The `(uri, created_at)` pairs of a page, in order. */
  function LikeEntries(likes: seq<Like>): (r: seq<Entry>)
    ensures |r| == |likes|
    ensures forall i :: 0 <= i < |likes| ==> r[i] == Entry(likes[i].uri, likes[i].createdAt)
  {
    seq(|likes|, i requires 0 <= i < |likes| => Entry(likes[i].uri, likes[i].createdAt))
  }

  /** The run returns the cached dates at once: the cursor file holds
      `null`, so every like was fetched before, and the cache is not
      empty. */
  predicate Early(content: Option<Option<string>>, loaded: seq<Entry>) {
    content == Some(None) && loaded != []
  }

  /** The cursor the first request sends: the one in the cursor file, if
      any. */
  function StartCursor(content: Option<Option<string>>): Option<string> {
    if content.Some? then content.value else None
  }

  /** One turn of the fetch loop: the page got, if any, the dates collected,
      the cursor after it, and whether the fetch goes on. */
  datatype LikesTurn = LikesTurn(page: Option<LikePage>, collected: seq<Entry>, cursor: Option<string>, goes: bool)

  /** The turn whose request sends `cursor` as the `count`-th request, with
      `dates` collected before it. A failed request ends the fetch and keeps
      the cursor; a page whose cursor is missing or the one sent ends it and
      resets the cursor. */
  function LikesFetched(actorLikes: (Option<string>, nat) -> Result<LikePage, string>, count: nat,
                        cursor: Option<string>, dates: seq<Entry>): LikesTurn
  {
    match actorLikes(cursor, count)
    case Err(_) => LikesTurn(None, dates, cursor, false)
    case Ok(page) =>
      var collected := InsertAll(dates, LikeEntries(page.likes));
      if page.cursor.None? || page.cursor == cursor then LikesTurn(Some(page), collected, None, false)
      else LikesTurn(Some(page), collected, page.cursor, true)
  }

  /** A turn keeps the collected dates a map. */
  lemma LikesFetchedOrdered(actorLikes: (Option<string>, nat) -> Result<LikePage, string>, count: nat,
                            cursor: Option<string>, dates: seq<Entry>)
    requires Ordered(dates)
    ensures Ordered(LikesFetched(actorLikes, count, cursor, dates).collected)
  {
    var answer := actorLikes(cursor, count);
    if answer.Ok? {
      InsertAllOrdered(dates, LikeEntries(answer.value.likes));
    }
  }

  /** `turns` are the turns of a fetch that starts with the `count`-th
      request, sending `cursor`, with `dates` collected: each turn but the
      last goes on, and the next turn sends the cursor the one before it
      left, with the dates it collected. */
  ghost predicate LikesChain(actorLikes: (Option<string>, nat) -> Result<LikePage, string>, count: nat,
                             cursor: Option<string>, dates: seq<Entry>, turns: seq<LikesTurn>)
    decreases |turns|
  {
    turns != [] ==>
      var t := LikesFetched(actorLikes, count, cursor, dates);
      && turns[0] == t
      && (|turns| > 1 ==> t.goes && LikesChain(actorLikes, count + 1, t.cursor, t.collected, turns[1..]))
  }

  /** The cursor after `turns`. */
  function LastCursor(cursor: Option<string>, turns: seq<LikesTurn>): Option<string> {
    if turns == [] then cursor else turns[|turns| - 1].cursor
  }

  /** The dates collected after `turns`. */
  function LastCollected(dates: seq<Entry>, turns: seq<LikesTurn>): seq<Entry> {
    if turns == [] then dates else turns[|turns| - 1].collected
  }

  /** The cursors sent by a fetch's turns. */
  function CursorRequests(cursor: Option<string>, turns: seq<LikesTurn>): (r: seq<Option<string>>)
    ensures |r| == |turns|
    decreases |turns|
  {
    if turns == [] then [] else [cursor] + CursorRequests(turns[0].cursor, turns[1..])
  }

  /** One turn more sends the cursor the turns before it left. */
  lemma {:induction false} CursorRequestsAppend(cursor: Option<string>, turns: seq<LikesTurn>, t: LikesTurn)
    ensures CursorRequests(cursor, turns + [t]) == CursorRequests(cursor, turns) + [LastCursor(cursor, turns)]
    decreases |turns|
  {
    if turns == [] {
      assert turns + [t] == [t];
    } else {
      assert (turns + [t])[1..] == turns[1..] + [t];
      CursorRequestsAppend(turns[0].cursor, turns[1..], t);
    }
  }

  /** A chain one turn longer. */
  lemma {:induction false} LikesChainExtend(actorLikes: (Option<string>, nat) -> Result<LikePage, string>, count: nat,
                                            cursor: Option<string>, dates: seq<Entry>, turns: seq<LikesTurn>, t: LikesTurn)
    requires LikesChain(actorLikes, count, cursor, dates, turns)
    requires turns != [] ==> turns[|turns| - 1].goes
    requires t == LikesFetched(actorLikes, count + |turns|, LastCursor(cursor, turns), LastCollected(dates, turns))
    ensures LikesChain(actorLikes, count, cursor, dates, turns + [t])
    decreases |turns|
  {
    if turns == [] {
      assert turns + [t] == [t];
    } else {
      var t0 := turns[0];
      assert (turns + [t])[1..] == turns[1..] + [t];
      LikesChainExtend(actorLikes, count + 1, t0.cursor, t0.collected, turns[1..], t);
    }
  }

  /** `dates.insert(post.uri, created_at)` for each post of a page in
      turn. */
  method InsertLikes(dates: seq<Entry>, entries: seq<Entry>) returns (collected: seq<Entry>)
    ensures collected == InsertAll(dates, entries)
  {
    collected := dates;
    var i := 0;
    while i < |entries|
      invariant 0 <= i <= |entries|
      invariant collected == InsertAll(dates, entries[..i])
    {
      InsertAllStep(dates, entries, i);
      collected := Insert(collected, entries[i].key, entries[i].date);
      i := i + 1;
    }
    assert entries[..i] == entries;
  }

  /** One turn of the fetch loop: the request for `cursor`, the page's
      posts inserted into `dates` and the cursor checked. */
  method FetchLikesPage(api: Bluesky, cursor: Option<string>, dates: seq<Entry>) returns (t: LikesTurn)
    modifies api
    ensures api.requests == old(api.requests) + [cursor] && api.deleted == old(api.deleted)
    ensures t == LikesFetched(api.actorLikes, |old(api.requests)|, cursor, dates)
  {
    var feed := api.GetActorLikes(cursor);
    if feed.Err? {
      return LikesTurn(None, dates, cursor, false);
    }
    var collected := InsertLikes(dates, LikeEntries(feed.value.likes));
    if feed.value.cursor.None? || feed.value.cursor == cursor {
      return LikesTurn(Some(feed.value), collected, None, false);
    }
    t := LikesTurn(Some(feed.value), collected, feed.value.cursor, true);
  }

  /** The next turn of a fetch that started with `cursor0` and `dates0`,
      whose turns so far are `turns`, sent after the requests `before`. */
  method FetchLikesTurn(api: Bluesky, ghost before: seq<Option<string>>, ghost cursor0: Option<string>,
                        ghost dates0: seq<Entry>, ghost turns: seq<LikesTurn>,
                        cursor: Option<string>, dates: seq<Entry>)
    returns (t: LikesTurn)
    requires LikesChain(api.actorLikes, |before|, cursor0, dates0, turns)
    requires turns != [] ==> turns[|turns| - 1].goes
    requires cursor == LastCursor(cursor0, turns)
    requires dates == LastCollected(dates0, turns) && Ordered(dates)
    requires api.requests == before + CursorRequests(cursor0, turns)
    modifies api
    ensures LikesChain(api.actorLikes, |before|, cursor0, dates0, turns + [t])
    ensures api.requests == before + CursorRequests(cursor0, turns + [t])
    ensures api.deleted == old(api.deleted)
    ensures t.cursor == LastCursor(cursor0, turns + [t])
    ensures t.collected == LastCollected(dates0, turns + [t]) && Ordered(t.collected)
  {
    ghost var sent := CursorRequests(cursor0, turns);
    ghost var count := |api.requests|;
    assert count == |before| + |turns|;
    LikesFetchedOrdered(api.actorLikes, count, cursor, dates);
    t := FetchLikesPage(api, cursor, dates);
    LikesTurnAppended(api.actorLikes, |before|, cursor0, dates0, turns, cursor, dates, t);
    assert api.requests == before + (sent + [cursor]);
  }

  /** The chain, the cursors and the requests one fetched turn more. */
  lemma LikesTurnAppended(actorLikes: (Option<string>, nat) -> Result<LikePage, string>, count: nat,
                          cursor0: Option<string>, dates0: seq<Entry>, turns: seq<LikesTurn>,
                          cursor: Option<string>, dates: seq<Entry>, t: LikesTurn)
    requires LikesChain(actorLikes, count, cursor0, dates0, turns)
    requires turns != [] ==> turns[|turns| - 1].goes
    requires cursor == LastCursor(cursor0, turns)
    requires dates == LastCollected(dates0, turns)
    requires t == LikesFetched(actorLikes, count + |turns|, cursor, dates)
    ensures LikesChain(actorLikes, count, cursor0, dates0, turns + [t])
    ensures CursorRequests(cursor0, turns + [t]) == CursorRequests(cursor0, turns) + [cursor]
    ensures t.cursor == LastCursor(cursor0, turns + [t])
    ensures t.collected == LastCollected(dates0, turns + [t])
  {
    LikesChainExtend(actorLikes, count, cursor0, dates0, turns, t);
    CursorRequestsAppend(cursor0, turns, t);
    LastOfAppended(cursor0, dates0, turns, t);
  }

  /** The cursor and the dates after one turn more are that turn's. */
  lemma LastOfAppended(cursor: Option<string>, dates: seq<Entry>, turns: seq<LikesTurn>, t: LikesTurn)
    ensures LastCursor(cursor, turns + [t]) == t.cursor
    ensures LastCollected(dates, turns + [t]) == t.collected
  {
    assert (turns + [t])[|turns + [t]| - 1] == t;
  }

  /** The loop of `bluesky_fetch_fav_dates`: pages from `cursor0` on, at
      most 100 of them, their posts inserted into `dates0`. */
  method FetchPages(api: Bluesky, cursor0: Option<string>, dates0: seq<Entry>)
    returns (dates: seq<Entry>, cursor: Option<string>, ghost turns: seq<LikesTurn>)
    requires Ordered(dates0)
    modifies api
    ensures LikesChain(api.actorLikes, |old(api.requests)|, cursor0, dates0, turns)
    ensures 1 <= |turns| <= MaxPages
    ensures turns[|turns| - 1].goes ==> |turns| == MaxPages
    ensures api.requests == old(api.requests) + CursorRequests(cursor0, turns)
    ensures api.deleted == old(api.deleted)
    ensures dates == turns[|turns| - 1].collected && cursor == turns[|turns| - 1].cursor && Ordered(dates)
  {
    dates, cursor, turns := dates0, cursor0, [];
    var counter: nat := 0;
    while counter < MaxPages
      invariant counter == |turns| <= MaxPages
      invariant LikesChain(api.actorLikes, |old(api.requests)|, cursor0, dates0, turns)
      invariant turns != [] ==> turns[|turns| - 1].goes
      invariant cursor == LastCursor(cursor0, turns)
      invariant dates == LastCollected(dates0, turns) && Ordered(dates)
      invariant api.requests == old(api.requests) + CursorRequests(cursor0, turns)
      invariant api.deleted == old(api.deleted)
      decreases MaxPages - counter
    {
      var t := FetchLikesTurn(api, old(api.requests), cursor0, dates0, turns, cursor, dates);
      turns := turns + [t];
      dates := t.collected;
      cursor := t.cursor;
      if !t.goes {
        break;
      }
      counter := counter + 1;
    }
  }

  /** `bluesky_fetch_fav_dates`: the cached dates, with the likes of at most
      100 more pages added, from the cursor in the cursor file on; then the
      dates are saved and the cursor after the last page is written back.
      When the cursor file holds `null` and the cache is not empty, the
      cached dates are returned and nothing is fetched or written. */
  method FetchFavDates(api: Bluesky, cache: DateCache, cursorFile: CursorFile)
    returns (dates: seq<Entry>, ghost turns: seq<LikesTurn>)
    requires cache.Valid()
    modifies api, cache, cursorFile
    ensures api.deleted == old(api.deleted)
    ensures var loaded := if old(cache.file).Some? then old(cache.file).value else [];
            Early(old(cursorFile.content), loaded) ==>
              && dates == loaded && turns == [] && api.requests == old(api.requests)
              && cache.file == old(cache.file) && cursorFile.content == old(cursorFile.content)
    ensures var loaded := if old(cache.file).Some? then old(cache.file).value else [];
            !Early(old(cursorFile.content), loaded) ==>
              && LikesChain(api.actorLikes, |old(api.requests)|, StartCursor(old(cursorFile.content)), loaded, turns)
              && 1 <= |turns| <= MaxPages
              && (turns[|turns| - 1].goes ==> |turns| == MaxPages)
              && api.requests == old(api.requests) + CursorRequests(StartCursor(old(cursorFile.content)), turns)
              && dates == turns[|turns| - 1].collected
              && cache.file == Saved(dates)
              && cursorFile.content == Some(turns[|turns| - 1].cursor)
    ensures Ordered(dates) && cache.Valid()
  {
    var loaded := cache.Load();
    dates := if loaded.Some? then loaded.value else [];
    var stored := cursorFile.Read();
    turns := [];
    if stored.Some? && stored.value.None? && dates != [] {
      return;
    }
    var cursor := if stored.Some? then stored.value else None;
    dates, cursor, turns := FetchPages(api, cursor, dates);
    cache.Save(dates);
    cursorFile.Write(cursor);
  }

  // ---------------------------------------------------------------------
  // Deleting the likes
  // ---------------------------------------------------------------------

  /** The `deleteRecord` request for the like of the post at `key`: the
      signed-in actor's repository, the like collection and the record key
      of the URI. */
  function DeleteRequestFor(actor: string, key: string): DeleteRequest
    requires Rkey(key).Ok?
  {
    DeleteRequest(actor, LikeCollection, Rkey(key).value)
  }

  /** What deleting the like of the post at `key` as the `count`-th
      `deleteRecord` request gives. */
  function Attempt(deleteRecord: (DeleteRequest, nat) -> Result<(), string>, actor: string,
                   key: string, count: nat): (r: Result<(), Error>)
    ensures r.Ok? ==> Rkey(key).Ok? && deleteRecord(DeleteRequestFor(actor, key), count).Ok?
    ensures Rkey(key).Err? ==> r == Err(InvalidUri(Rkey(key).error))
    ensures Rkey(key).Ok? && deleteRecord(DeleteRequestFor(actor, key), count).Err? ==>
              r == Err(DeleteFailed(deleteRecord(DeleteRequestFor(actor, key), count).error))
  {
    match Rkey(key)
    case Err(e) => Err(InvalidUri(e))
    case Ok(_) =>
      match deleteRecord(DeleteRequestFor(actor, key), count)
      case Err(m) => Err(DeleteFailed(m))
      case Ok(_) => Ok(())
  }

  /** The attempt at each `keys[i]` as the `count + i`-th request. */
  function Attempts(deleteRecord: (DeleteRequest, nat) -> Result<(), string>, actor: string,
                    count: nat, keys: seq<string>): (r: seq<Result<(), Error>>)
    ensures |r| == |keys|
    ensures forall i :: 0 <= i < |keys| ==> r[i] == Attempt(deleteRecord, actor, keys[i], count + i)
  {
    seq(|keys|, i requires 0 <= i < |keys| => Attempt(deleteRecord, actor, keys[i], count + i))
  }

  /** The index of the first attempt that fails, `|attempts|` when none
      does. */
  function FirstFailure(attempts: seq<Result<(), Error>>): (n: nat)
    ensures n <= |attempts|
    ensures forall i :: 0 <= i < n ==> attempts[i].Ok?
    ensures n < |attempts| ==> attempts[n].Err?
    decreases |attempts|
  {
    if attempts == [] || attempts[0].Err? then 0 else 1 + FirstFailure(attempts[1..])
  }

  /** What the loop returns: the first failure, if any. */
  function DeleteResult(attempts: seq<Result<(), Error>>): Result<(), Error> {
    if FirstFailure(attempts) < |attempts| then attempts[FirstFailure(attempts)] else Ok(())
  }

  /** The loop after attempt `i`: it goes on past a success, and a
      failure is the first one, the last key reached and the result. */
  lemma AttemptDone(attempts: seq<Result<(), Error>>, i: nat)
    requires i <= FirstFailure(attempts) && i < |attempts|
    ensures attempts[i].Ok? ==> i + 1 <= FirstFailure(attempts)
    ensures attempts[i].Err? ==>
              FirstFailure(attempts) == i && Reached(attempts) == i + 1 && DeleteResult(attempts) == attempts[i]
  {
  }

  /** The `deleteRecord` requests sent for `keys`: one for each key whose
      URI has a record key. */
  function DeleteRequests(actor: string, keys: seq<string>): seq<DeleteRequest>
    decreases |keys|
  {
    if keys == [] then []
    else
      var last := keys[|keys| - 1];
      DeleteRequests(actor, keys[..|keys| - 1]) + (if Rkey(last).Ok? then [DeleteRequestFor(actor, last)] else [])
  }

  /** How many keys the loop gets to: up to the first failure. */
  function Reached(attempts: seq<Result<(), Error>>): (n: nat)
    ensures n <= |attempts|
  {
    if FirstFailure(attempts) < |attempts| then FirstFailure(attempts) + 1 else |attempts|
  }

  /** Turn `i` of the deletion loop over `older`, sent after the requests
      `before`, with the cache file `file` at the start. */
  method DeleteAt(api: Bluesky, cache: DateCache, older: seq<Entry>, i: nat,
                  ghost before: seq<DeleteRequest>, ghost file: Option<seq<Entry>>)
    returns (a: Result<(), Error>)
    requires i < |older| && cache.Valid()
    requires api.deleted == before + DeleteRequests(api.actor, KeySeq(older)[..i])
    requires |DeleteRequests(api.actor, KeySeq(older)[..i])| == i
    requires cache.file == RemovedAll(file, KeySeq(older)[..i])
    modifies api, cache
    ensures a == Attempts(api.deleteRecord, api.actor, |before|, KeySeq(older))[i]
    ensures api.deleted == before + DeleteRequests(api.actor, KeySeq(older)[..i + 1])
    ensures a.Ok? ==> |DeleteRequests(api.actor, KeySeq(older)[..i + 1])| == i + 1
    ensures cache.file == if a.Ok? then RemovedAll(file, KeySeq(older)[..i + 1]) else old(cache.file)
    ensures api.requests == old(api.requests) && cache.Valid()
  {
    ghost var keys := KeySeq(older);
    var key := older[i].key;
    DeleteStep(api.deleteRecord, api.actor, |before|, keys, i, file);
    ghost var sent := DeleteRequests(api.actor, keys[..i]);
    assert |api.deleted| == |before| + i;
    var rkey := Rkey(key);
    if rkey.Err? {
      assert sent + [] == sent;
      return Err(InvalidUri(rkey.error));
    }
    var answer := api.DeleteRecord(DeleteRequest(api.actor, LikeCollection, rkey.value));
    Concat3(before, sent, [DeleteRequestFor(api.actor, key)]);
    if answer.Err? {
      return Err(DeleteFailed(answer.error));
    }
    cache.RemoveDate(key);
    a := Ok(());
  }

  /** What attempt `i` of the deletion loop is, and what it adds to the
      requests and takes from the cache file. */
  lemma DeleteStep(deleteRecord: (DeleteRequest, nat) -> Result<(), string>, actor: string, count: nat,
                   keys: seq<string>, i: nat, file: Option<seq<Entry>>)
    requires i < |keys|
    ensures Attempts(deleteRecord, actor, count, keys)[i] == Attempt(deleteRecord, actor, keys[i], count + i)
    ensures DeleteRequests(actor, keys[..i + 1])
            == DeleteRequests(actor, keys[..i]) + (if Rkey(keys[i]).Ok? then [DeleteRequestFor(actor, keys[i])] else [])
    ensures RemovedAll(file, keys[..i + 1]) == RemovedFrom(RemovedAll(file, keys[..i]), keys[i])
  {
    assert keys[..i + 1][..i] == keys[..i] && keys[..i + 1][i] == keys[i];
  }

  /** The loop of `bluesky_delete_older_favs` over the `older` entries:
      each like is deleted and its entry removed from the cache in turn,
      until an attempt fails. */
  method DeleteAll(api: Bluesky, cache: DateCache, older: seq<Entry>) returns (r: Result<(), Error>)
    requires cache.Valid()
    modifies api, cache
    ensures var keys := KeySeq(older);
            var attempts := Attempts(api.deleteRecord, api.actor, |old(api.deleted)|, keys);
            && api.deleted == old(api.deleted) + DeleteRequests(api.actor, keys[..Reached(attempts)])
            && cache.file == RemovedAll(old(cache.file), keys[..FirstFailure(attempts)])
            && r == DeleteResult(attempts)
    ensures api.requests == old(api.requests) && cache.Valid()
  {
    ghost var keys := KeySeq(older);
    ghost var attempts := Attempts(api.deleteRecord, api.actor, |api.deleted|, keys);
    var i := 0;
    while i < |older|
      invariant 0 <= i <= FirstFailure(attempts)
      invariant api.deleted == old(api.deleted) + DeleteRequests(api.actor, keys[..i])
      invariant |DeleteRequests(api.actor, keys[..i])| == i
      invariant cache.file == RemovedAll(old(cache.file), keys[..i])
      invariant api.requests == old(api.requests) && cache.Valid()
    {
      assert attempts == Attempts(api.deleteRecord, api.actor, |old(api.deleted)|, KeySeq(older));
      var a := DeleteAt(api, cache, older, i, old(api.deleted), old(cache.file));
      AttemptDone(attempts, i);
      if a.Err? {
        return a;
      }
      i := i + 1;
    }
    assert keys[..i] == keys;
    r := Ok(());
  }

  /** `bluesky_delete_older_favs` at time `now`: the dates are fetched as
      `bluesky_fetch_fav_dates` does, and nothing is deleted on a dry
      run. */
  method DeleteOlderFavs(api: Bluesky, cache: DateCache, cursorFile: CursorFile, dryRun: bool, now: int)
    returns (r: Result<(), Error>, dates: seq<Entry>, fetched: Option<seq<Entry>>, ghost turns: seq<LikesTurn>)
    requires cache.Valid()
    modifies api, cache, cursorFile
    ensures var loaded := if old(cache.file).Some? then old(cache.file).value else [];
            Early(old(cursorFile.content), loaded) ==>
              && dates == loaded && turns == [] && api.requests == old(api.requests)
              && fetched == old(cache.file) && cursorFile.content == old(cursorFile.content)
    ensures var loaded := if old(cache.file).Some? then old(cache.file).value else [];
            !Early(old(cursorFile.content), loaded) ==>
              && LikesChain(api.actorLikes, |old(api.requests)|, StartCursor(old(cursorFile.content)), loaded, turns)
              && 1 <= |turns| <= MaxPages
              && (turns[|turns| - 1].goes ==> |turns| == MaxPages)
              && api.requests == old(api.requests) + CursorRequests(StartCursor(old(cursorFile.content)), turns)
              && dates == turns[|turns| - 1].collected
              && fetched == Saved(dates)
              && cursorFile.content == Some(turns[|turns| - 1].cursor)
    ensures dryRun ==> r == Ok(()) && api.deleted == old(api.deleted) && cache.file == fetched
    ensures !dryRun ==>
              var keys := KeySeq(Older(dates, Cutoff(now)));
              var attempts := Attempts(api.deleteRecord, api.actor, |old(api.deleted)|, keys);
              && api.deleted == old(api.deleted) + DeleteRequests(api.actor, keys[..Reached(attempts)])
              && cache.file == RemovedAll(fetched, keys[..FirstFailure(attempts)])
              && r == DeleteResult(attempts)
    ensures Ordered(dates) && (fetched.Some? ==> Ordered(fetched.value))
    ensures cache.Valid()
  {
    dates, turns := FetchFavDates(api, cache, cursorFile);
    fetched := cache.file;
    var older := Older(dates, Cutoff(now));
    if dryRun {
      // Each entry is only printed.
      return Ok(()), dates, fetched, turns;
    }
    r := DeleteAll(api, cache, older);
  }
}
