/**
  What a run of `bluesky_delete_older_favs` does, read off the chain of
  turns its fetch goes through and the attempts of its deletion loop.
 */
module BlueskyFavsFacts {
  import opened Wrappers
  import opened DateList
  import opened FavCache
  import opened AtUri
  import opened BlueskyFavs

  /** The entries of every page the turns got, in the order fetched. */
  function AllLikeEntries(turns: seq<LikesTurn>): seq<Entry>
    decreases |turns|
  {
    if turns == [] then []
    else
      var here := if turns[0].page.Some? then LikeEntries(turns[0].page.value.likes) else [];
      here + AllLikeEntries(turns[1..])
  }

  /** Turn `k` of a chain is the turn fetched with the cursor and the dates
      the turns before it left. */
  lemma {:induction false} LikesChainAt(actorLikes: (Option<string>, nat) -> Result<LikePage, string>, count: nat,
                                        cursor: Option<string>, dates: seq<Entry>, turns: seq<LikesTurn>, k: nat)
    requires LikesChain(actorLikes, count, cursor, dates, turns)
    requires k < |turns|
    ensures k + 1 < |turns| ==> turns[k].goes
    ensures turns[k] == LikesFetched(actorLikes, count + k, LastCursor(cursor, turns[..k]), LastCollected(dates, turns[..k]))
    decreases k
  {
    var t0 := turns[0];
    if k > 0 {
      LikesChainAt(actorLikes, count + 1, t0.cursor, t0.collected, turns[1..], k - 1);
      assert turns[1..][..k - 1] == turns[..k][1..];
      assert turns[1..][k - 1] == turns[k];
      if k > 1 {
        assert turns[..k][|turns[..k]| - 1] == turns[1..][..k - 1][k - 2];
      }
    }
  }

  /** Request `k` sends the cursor the turns before it left. */
  lemma {:induction false} CursorRequestAt(cursor: Option<string>, turns: seq<LikesTurn>, k: nat)
    requires k < |turns|
    ensures CursorRequests(cursor, turns)[k] == LastCursor(cursor, turns[..k])
    decreases k
  {
    if k > 0 {
      CursorRequestAt(turns[0].cursor, turns[1..], k - 1);
      assert turns[1..][..k - 1] == turns[..k][1..];
      if k > 1 {
        assert turns[..k][|turns[..k]| - 1] == turns[1..][..k - 1][k - 2];
      }
    }
  }

  /** The first request sends the starting cursor; each later one sends the
      cursor of the page before it, which is there and differs from the
      cursor that page was asked with. */
  lemma CursorsAdvance(actorLikes: (Option<string>, nat) -> Result<LikePage, string>, count: nat,
                       cursor: Option<string>, dates: seq<Entry>, turns: seq<LikesTurn>, k: nat)
    requires LikesChain(actorLikes, count, cursor, dates, turns)
    requires k < |turns|
    ensures k == 0 ==> CursorRequests(cursor, turns)[k] == cursor
    ensures k > 0 ==>
              && turns[k - 1].page.Some?
              && CursorRequests(cursor, turns)[k] == turns[k - 1].page.value.cursor
              && CursorRequests(cursor, turns)[k].Some?
              && CursorRequests(cursor, turns)[k] != CursorRequests(cursor, turns)[k - 1]
  {
    CursorRequestAt(cursor, turns, k);
    if k > 0 {
      CursorRequestAt(cursor, turns, k - 1);
      LikesChainAt(actorLikes, count, cursor, dates, turns, k - 1);
      assert turns[..k][..k - 1] == turns[..k - 1];
    }
  }

  /** How a turn ends the fetch: a failed request keeps the cursor it sent;
      a page without a cursor, or with the one sent, resets it to `None`;
      otherwise the fetch goes on from the page's cursor. */
  lemma TurnCursor(actorLikes: (Option<string>, nat) -> Result<LikePage, string>, count: nat,
                   cursor: Option<string>, dates: seq<Entry>)
    ensures var t := LikesFetched(actorLikes, count, cursor, dates);
            var answer := actorLikes(cursor, count);
            && (answer.Err? ==> !t.goes && t.cursor == cursor && t.collected == dates)
            && (answer.Ok? && (answer.value.cursor.None? || answer.value.cursor == cursor) ==> !t.goes && t.cursor == None)
            && (t.goes <==> answer.Ok? && answer.value.cursor.Some? && answer.value.cursor != cursor)
            && (t.goes ==> t.cursor == answer.value.cursor)
  {
  }

  /** The dates a chain leaves are those its pages' posts `insert` into the
      dates it started with: a failed request adds none. */
  lemma {:induction false} LikesCollectedAll(actorLikes: (Option<string>, nat) -> Result<LikePage, string>, count: nat,
                                             cursor: Option<string>, dates: seq<Entry>, turns: seq<LikesTurn>)
    requires LikesChain(actorLikes, count, cursor, dates, turns)
    ensures LastCollected(dates, turns) == InsertAll(dates, AllLikeEntries(turns))
    decreases |turns|
  {
    if turns != [] {
      var t0 := turns[0];
      var here := if t0.page.Some? then LikeEntries(t0.page.value.likes) else [];
      assert t0.collected == InsertAll(dates, here);
      if |turns| > 1 {
        LikesCollectedAll(actorLikes, count + 1, t0.cursor, t0.collected, turns[1..]);
        assert turns[1..][|turns[1..]| - 1] == turns[|turns| - 1];
      } else {
        assert AllLikeEntries(turns[1..]) == [];
        assert here + [] == here;
      }
      InsertAllAppend(dates, here, AllLikeEntries(turns[1..]));
    }
  }

  /** Every cached entry of a key no fetched post has is kept; a fetched
      post's URI has the `created_at` of the last post fetched with it. */
  lemma LikesDates(actorLikes: (Option<string>, nat) -> Result<LikePage, string>, count: nat,
                   cursor: Option<string>, dates: seq<Entry>, turns: seq<LikesTurn>, e: Entry)
    requires LikesChain(actorLikes, count, cursor, dates, turns)
    requires Ordered(dates)
    ensures e in LastCollected(dates, turns) <==>
              match Winner(AllLikeEntries(turns), e.key)
              case None => e in dates
              case Some(w) => e == w
  {
    LikesCollectedAll(actorLikes, count, cursor, dates, turns);
    InsertAllEntries(dates, AllLikeEntries(turns), e);
  }

  // ---------------------------------------------------------------------
  // Deleting
  // ---------------------------------------------------------------------

  /** Every `deleteRecord` request goes to the signed-in actor's
      repository and the like collection, with the record key of one of the
      URIs. */
  lemma {:induction false} DeleteRequestsShape(actor: string, keys: seq<string>)
    ensures forall q :: q in DeleteRequests(actor, keys) ==>
              q.repo == actor && q.collection == LikeCollection && ValidRkey(q.rkey)
              && exists k :: k in keys && Rkey(k) == Ok(q.rkey)
    decreases |keys|
  {
    if keys != [] {
      var front := keys[..|keys| - 1];
      DeleteRequestsShape(actor, front);
      assert forall k :: k in front ==> k in keys;
      assert keys[|keys| - 1] in keys;
    }
  }

  /** A key whose entry left the cache was one of the entries older than
      the cutoff, had a record key, and its like was deleted. */
  lemma DeletedWereOlder(deleteRecord: (DeleteRequest, nat) -> Result<(), string>, actor: string, count: nat,
                         dates: seq<Entry>, cutoff: int, i: nat)
    requires var keys := KeySeq(Older(dates, cutoff));
             i < FirstFailure(Attempts(deleteRecord, actor, count, keys))
    ensures var e := Older(dates, cutoff)[i];
            && e in dates && e.date < cutoff
            && Rkey(e.key).Ok?
            && deleteRecord(DeleteRequest(actor, LikeCollection, Rkey(e.key).value), count + i).Ok?
  {
    var older := Older(dates, cutoff);
    assert older[i] in older;
  }

  /** The run fails exactly when some attempt fails, with the first
      failure. */
  lemma DeleteResultCases(attempts: seq<Result<(), Error>>)
    ensures DeleteResult(attempts).Err? <==> exists i :: 0 <= i < |attempts| && attempts[i].Err?
    ensures DeleteResult(attempts).Err? ==>
              exists i :: 0 <= i < |attempts| && DeleteResult(attempts) == attempts[i]
                          && forall j :: 0 <= j < i ==> attempts[j].Ok?
  {
    var n := FirstFailure(attempts);
    if n < |attempts| {
      assert attempts[n].Err?;
    }
  }
}
