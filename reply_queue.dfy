/**
  Sending a new status with its thread of replies (`post_to_mastodon` and
  `post_to_bluesky`, which differ only in the network they send to). The
  status is sent first; its replies are then sent from a first-in first-out
  queue of (parent id, reply) pairs, so the thread goes out breadth first,
  each reply answering the id its parent got.
 */
module ReplyQueue {
  import opened Wrappers
  import opened Records

  // ---------------------------------------------------------------------
  // Threads
  // ---------------------------------------------------------------------

  /** The number of statuses in a thread. */
  function Size(s: NewStatus): nat {
    1 + SizeAll(s.replies)
  }

  /** The number of statuses in a sequence of threads. */
  function SizeAll(threads: seq<NewStatus>): nat {
    if threads == [] then 0 else Size(threads[0]) + SizeAll(threads[1..])
  }

  /** The replies of each thread, one thread after the other. */
  function Children(threads: seq<NewStatus>): seq<NewStatus> {
    if threads == [] then [] else threads[0].replies + Children(threads[1..])
  }

  lemma {:induction false} SizeAllAppend(a: seq<NewStatus>, b: seq<NewStatus>)
    ensures SizeAll(a + b) == SizeAll(a) + SizeAll(b)
    decreases |a|
  {
    if a == [] {
      assert a + b == b;
    } else {
      assert (a + b)[0] == a[0] && (a + b)[1..] == a[1..] + b;
      SizeAllAppend(a[1..], b);
    }
  }

  lemma {:induction false} ChildrenAppend(a: seq<NewStatus>, b: seq<NewStatus>)
    ensures Children(a + b) == Children(a) + Children(b)
    decreases |a|
  {
    if a == [] {
      assert a + b == b;
    } else {
      assert (a + b)[0] == a[0] && (a + b)[1..] == a[1..] + b;
      ChildrenAppend(a[1..], b);
    }
  }

  /** A sequence of threads holds its roots and the statuses below them. */
  lemma {:induction false} SizeAllChildren(threads: seq<NewStatus>)
    ensures SizeAll(threads) == |threads| + SizeAll(Children(threads))
    decreases |threads|
  {
    if threads != [] {
      SizeAllChildren(threads[1..]);
      SizeAllAppend(threads[0].replies, Children(threads[1..]));
    }
  }

  /** The statuses of a sequence of threads level by level: the roots, then
      their replies, then the replies to those, and so on. */
  function Levels(threads: seq<NewStatus>): seq<NewStatus>
    decreases SizeAll(threads)
  {
    if threads == [] then []
    else
      SizeAllChildren(threads);
      threads + Levels(Children(threads))
  }

  /** The statuses of a thread in the order they are sent: breadth first. */
  function Thread(root: NewStatus): seq<NewStatus> {
    [root] + Levels(root.replies)
  }

  /** The statuses of a sequence of threads depth first, each before its
      replies: the reference enumeration of a thread's statuses. */
  function Preorder(threads: seq<NewStatus>): seq<NewStatus> {
    if threads == [] then []
    else [threads[0]] + Preorder(threads[0].replies) + Preorder(threads[1..])
  }

  // ---------------------------------------------------------------------
  // Properties of the breadth-first order
  // ---------------------------------------------------------------------

  /** The queue discipline: with `a` at the front of the queue, `a` goes
      out first, followed by the rest of the queue with the replies of `a`
      appended. */
  lemma {:induction false} LevelsSplit(a: seq<NewStatus>, b: seq<NewStatus>)
    ensures Levels(a + b) == a + Levels(b + Children(a))
    decreases SizeAll(a + b)
  {
    if a == [] {
      assert a + b == b && b + Children(a) == b;
    } else if b + Children(a) == [] {
      assert b == [] && Children(a) == [] && a + b == a;
    } else {
      var ca, cb := Children(a), Children(b);
      var cca := Children(ca);
      ChildrenAppend(a, b);
      SizeAllChildren(a + b);
      LevelsSplit(ca, cb);
      ChildrenAppend(b, ca);
      var rest := Levels(cb + cca);
      assert Levels(a + b) == (a + b) + (ca + rest);
      assert Levels(b + ca) == (b + ca) + rest;
      Concat4(a, b, ca, rest);
    }
  }

  /** One turn of the queue: the front goes out, its replies join the back. */
  lemma LevelsDequeue(front: NewStatus, rest: seq<NewStatus>)
    ensures Levels([front] + rest) == [front] + Levels(rest + front.replies)
  {
    LevelsSplit([front], rest);
    assert Children([front]) == front.replies + [];
    assert front.replies + [] == front.replies;
  }

  /** Each status of the threads goes out once: the breadth-first order
      has as many entries as the threads have statuses. */
  lemma {:induction false} LevelsSize(threads: seq<NewStatus>)
    ensures |Levels(threads)| == SizeAll(threads)
    decreases SizeAll(threads)
  {
    if threads != [] {
      SizeAllChildren(threads);
      LevelsSize(Children(threads));
    }
  }

  lemma {:induction false} PreorderAppend(a: seq<NewStatus>, b: seq<NewStatus>)
    ensures Preorder(a + b) == Preorder(a) + Preorder(b)
    decreases |a|
  {
    if a == [] {
      assert a + b == b;
    } else {
      assert (a + b)[0] == a[0] && (a + b)[1..] == a[1..] + b;
      PreorderAppend(a[1..], b);
    }
  }

  /** The depth-first enumeration holds the roots and the enumeration of
      their replies. */
  lemma {:induction false} PreorderRoots(threads: seq<NewStatus>)
    ensures multiset(Preorder(threads)) == multiset(threads) + multiset(Preorder(Children(threads)))
    decreases |threads|
  {
    if threads != [] {
      var t := threads[0];
      PreorderRoots(threads[1..]);
      PreorderAppend(t.replies, Children(threads[1..]));
      assert threads == [t] + threads[1..];
    }
  }

  /** The breadth-first order is a permutation of the depth-first
      enumeration: every status of the threads goes out exactly once. */
  lemma {:induction false} LevelsPermutesPreorder(threads: seq<NewStatus>)
    ensures multiset(Levels(threads)) == multiset(Preorder(threads))
    decreases SizeAll(threads)
  {
    if threads != [] {
      SizeAllChildren(threads);
      LevelsPermutesPreorder(Children(threads));
      PreorderRoots(threads);
    }
  }

  /** The whole thread goes out, each status once. */
  lemma ThreadCoversTree(root: NewStatus)
    ensures |Thread(root)| == Size(root)
    ensures multiset(Thread(root)) == multiset(Preorder([root]))
  {
    LevelsSize(root.replies);
    LevelsPermutesPreorder(root.replies);
    assert [root][1..] == [];
  }

  // ---------------------------------------------------------------------
  // Sending
  // ---------------------------------------------------------------------

  /** The network a thread is sent to. `sent` records every status sent so
      far; the answer to a send, the new status's id or an error, is any
      function of the status and of the number of sends before it. */
  class Network {
    var sent: seq<NewStatus>
    const answer: (NewStatus, nat) -> Result<string, string>

    constructor (answer: (NewStatus, nat) -> Result<string, string>)
      ensures sent == [] && this.answer == answer
    {
      sent := [];
      this.answer := answer;
    }

    /** `send_single_post_to_mastodon` / `send_single_post_to_bluesky`. */
    method Send(status: NewStatus) returns (r: Result<string, string>)
      modifies this
      ensures sent == old(sent) + [status]
      ensures r == answer(status, |old(sent)|)
    {
      r := answer(status, |sent|);
      sent := sent + [status];
    }
  }

  /** A reply waiting in the queue, with the id of the status it answers. */
  datatype Pending = Pending(parentId: string, reply: NewStatus)

  /** `n` copies of `v`. */
  function Repeat(v: nat, n: nat): (r: seq<nat>)
    ensures |r| == n && forall k :: 0 <= k < n ==> r[k] == v
  {
    if n == 0 then [] else [v] + Repeat(v, n - 1)
  }

  /** The replies waiting in a queue, in order. */
  function Replies(queue: seq<Pending>): (r: seq<NewStatus>)
    ensures |r| == |queue| && forall k :: 0 <= k < |queue| ==> r[k] == queue[k].reply
  {
    seq(|queue|, k requires 0 <= k < |queue| => queue[k].reply)
  }

  /** The replies of a status, each waiting to answer `parentId`. */
  function Enqueued(parentId: string, replies: seq<NewStatus>): (r: seq<Pending>)
    ensures Replies(r) == replies
    ensures forall k :: 0 <= k < |r| ==> r[k] == Pending(parentId, replies[k])
  {
    if replies == [] then [] else [Pending(parentId, replies[0])] + Enqueued(parentId, replies[1..])
  }

  lemma RepliesAppend(a: seq<Pending>, b: seq<Pending>)
    ensures Replies(a + b) == Replies(a) + Replies(b)
  {
    assert forall k :: 0 <= k < |a + b| ==> (a + b)[k] == if k < |a| then a[k] else b[k - |a|];
  }

  /** A status as sent matches the status of the thread except, perhaps, for
      the id it answers. */
  predicate SentAs(sent: NewStatus, status: NewStatus) {
    sent.(inReplyToId := status.inReplyToId) == status
  }

  /** The statuses handed out so far are the first `n` of the
      breadth-first order, and the queue holds the rest of it. */
  ghost predicate InOrder(thread: seq<NewStatus>, n: nat, queue: seq<Pending>) {
    n <= |thread| && thread[n..] == Levels(Replies(queue))
  }

  /** Each queued reply answers one of the first `n` statuses, whose
      position `queued` records, and waits for the id that status got. */
  ghost predicate QueuedParents(thread: seq<NewStatus>, n: nat, ids: seq<string>, queue: seq<Pending>, queued: seq<nat>)
    requires n <= |thread| && |ids| == n
  {
    && |queued| == |queue|
    && forall k :: 0 <= k < |queue| ==>
         && queued[k] < n
         && queue[k].reply in thread[queued[k]].replies
         && queue[k].parentId == ids[queued[k]]
  }

  /** Every status handed out after the first answers an earlier one, its
      parent in the thread, with the id that parent got. */
  ghost predicate AttemptParents(thread: seq<NewStatus>, attempts: seq<NewStatus>, ids: seq<string>, parents: seq<nat>)
    requires |attempts| <= |thread| && |ids| == |parents| == |attempts|
  {
    forall j :: 1 <= j < |attempts| ==>
      && parents[j] < j
      && thread[j] in thread[parents[j]].replies
      && attempts[j].inReplyToId == Some(ids[parents[j]])
  }

  /** What the sending loop keeps true of the thread, the statuses handed
      out so far (`attempts`), the ids they got, the position of each one's
      parent, the queue, and the position of each queued reply's parent. */
  ghost predicate QueueInvariant(thread: seq<NewStatus>, attempts: seq<NewStatus>, ids: seq<string>, parents: seq<nat>,
                                 queue: seq<Pending>, queued: seq<nat>)
  {
    && 0 < |attempts| == |ids| == |parents|
    && InOrder(thread, |attempts|, queue)
    && (forall i :: 0 <= i < |attempts| ==> SentAs(attempts[i], thread[i]))
    && QueuedParents(thread, |attempts|, ids, queue, queued)
    && AttemptParents(thread, attempts, ids, parents)
  }

  /** The queue at the start: the root is out and its replies wait for its
      id. */
  lemma QueueStart(root: NewStatus, id: string)
    ensures QueueInvariant(Thread(root), [root], [id], [0], Enqueued(id, root.replies),
                           Repeat(0, |root.replies|))
  {
    var thread := Thread(root);
    assert thread[0] == root && thread[..1] == [root];
  }

  /** The front of the breadth-first order grows by the front of the
      queue. */
  lemma QueueStepOrder(thread: seq<NewStatus>, n: nat, queue: seq<Pending>, id: string)
    requires InOrder(thread, n, queue) && queue != []
    ensures n < |thread| && thread[n] == queue[0].reply
    ensures InOrder(thread, n + 1, queue[1..] + Enqueued(id, queue[0].reply.replies))
  {
    var reply := queue[0].reply;
    assert Replies(queue) == [reply] + Replies(queue[1..]);
    LevelsDequeue(reply, Replies(queue[1..]));
    RepliesAppend(queue[1..], Enqueued(id, reply.replies));
    assert thread[n..] == [reply] + Levels(Replies(queue[1..]) + reply.replies);
    assert thread[n + 1..] == thread[n..][1..];
  }

  /** The replies of the dequeued status wait for its id. */
  lemma QueueStepQueued(thread: seq<NewStatus>, n: nat, ids: seq<string>, queue: seq<Pending>, queued: seq<nat>, id: string)
    requires n < |thread| && |ids| == n && queue != [] && thread[n] == queue[0].reply
    requires QueuedParents(thread, n, ids, queue, queued)
    ensures QueuedParents(thread, n + 1, ids + [id], queue[1..] + Enqueued(id, queue[0].reply.replies),
                          queued[1..] + Repeat(n, |queue[0].reply.replies|))
  {
    var children := Enqueued(id, queue[0].reply.replies);
    var newQueue := queue[1..] + children;
    var newQueued := queued[1..] + Repeat(n, |queue[0].reply.replies|);
    forall k | 0 <= k < |newQueue|
      ensures newQueued[k] < n + 1
      ensures newQueue[k].reply in thread[newQueued[k]].replies
      ensures newQueue[k].parentId == (ids + [id])[newQueued[k]]
    {
      if k < |queue| - 1 {
        assert newQueue[k] == queue[k + 1] && newQueued[k] == queued[k + 1];
      } else {
        assert newQueue[k] == children[k - (|queue| - 1)] && newQueued[k] == n;
      }
    }
  }

  /** The dequeued status answers its parent with the id the parent got. */
  lemma QueueStepParents(thread: seq<NewStatus>, attempts: seq<NewStatus>, ids: seq<string>, parents: seq<nat>,
                         queue: seq<Pending>, queued: seq<nat>, id: string)
    requires |attempts| < |thread| && |ids| == |parents| == |attempts| && queue != []
    requires thread[|attempts|] == queue[0].reply
    requires QueuedParents(thread, |attempts|, ids, queue, queued)
    requires AttemptParents(thread, attempts, ids, parents)
    ensures AttemptParents(thread, attempts + [queue[0].reply.(inReplyToId := Some(queue[0].parentId))],
                           ids + [id], parents + [queued[0]])
  {
  }

  /** One turn of the loop keeps the invariant. */
  lemma QueueStep(thread: seq<NewStatus>, attempts: seq<NewStatus>, ids: seq<string>, parents: seq<nat>,
                  queue: seq<Pending>, queued: seq<nat>, id: string)
    requires QueueInvariant(thread, attempts, ids, parents, queue, queued) && queue != []
    ensures |attempts| < |thread|
    ensures var front := queue[0];
            QueueInvariant(thread, attempts + [front.reply.(inReplyToId := Some(front.parentId))], ids + [id],
                           parents + [queued[0]], queue[1..] + Enqueued(id, front.reply.replies),
                           queued[1..] + Repeat(|attempts|, |front.reply.replies|))
  {
    var front := queue[0];
    var attempts' := attempts + [front.reply.(inReplyToId := Some(front.parentId))];
    var ids', parents' := ids + [id], parents + [queued[0]];
    var queue' := queue[1..] + Enqueued(id, front.reply.replies);
    var queued' := queued[1..] + Repeat(|attempts|, |front.reply.replies|);
    QueueStepOrder(thread, |attempts|, queue, id);
    assert InOrder(thread, |attempts'|, queue');
    QueueStepQueued(thread, |attempts|, ids, queue, queued, id);
    assert QueuedParents(thread, |attempts'|, ids', queue', queued');
    QueueStepParents(thread, attempts, ids, parents, queue, queued, id);
    assert AttemptParents(thread, attempts', ids', parents');
    QueueStepSent(thread, attempts, front.reply, front.parentId);
  }

  /** The dequeued status is sent as it is in the thread, answering its
      parent. */
  lemma QueueStepSent(thread: seq<NewStatus>, attempts: seq<NewStatus>, reply: NewStatus, parentId: string)
    requires |attempts| < |thread| && thread[|attempts|] == reply
    requires forall i :: 0 <= i < |attempts| ==> SentAs(attempts[i], thread[i])
    ensures var next := attempts + [reply.(inReplyToId := Some(parentId))];
            forall i :: 0 <= i < |next| ==> SentAs(next[i], thread[i])
  {
    var next := attempts + [reply.(inReplyToId := Some(parentId))];
    forall i | 0 <= i < |next| ensures SentAs(next[i], thread[i]) {
      if i < |attempts| {
        assert next[i] == attempts[i];
      }
    }
  }

  /** The answer a network gives to the `index`th send of a status. */
  type Answer = (NewStatus, nat) -> Result<string, string>

  /** The id a send got: none after a failed send. */
  function IdOf(result: Result<string, string>): string {
    match result
    case Ok(id) => id
    case Err(_) => ""
  }

  /** The error a send reports, if it failed. */
  function Failure(result: Result<string, string>): Option<string> {
    match result
    case Ok(_) => None
    case Err(error) => Some(error)
  }

  /** The id the status sent as the `index`th call got: none in a dry run,
      and none after a failed send. */
  function GotId(answer: Answer, status: NewStatus, index: nat, dryRun: bool): string {
    if dryRun then "" else IdOf(answer(status, index))
  }

  /** `ids` are the ids the attempts got, the first attempt being the
      `base`th call. */
  ghost predicate Answered(answer: Answer, base: nat, dryRun: bool, attempts: seq<NewStatus>, ids: seq<string>) {
    && |ids| == |attempts|
    && forall i :: 0 <= i < |attempts| ==> ids[i] == GotId(answer, attempts[i], base + i, dryRun)
  }

  /** What the network saw of the attempts: all of them were sent in turn,
      unless this is a dry run; every send but the last succeeded;
      `failure` is the last one's error, if it failed; and `ids` are the ids
      the attempts got. */
  ghost predicate Sending(answer: Answer, sent0: seq<NewStatus>, sent: seq<NewStatus>, dryRun: bool,
                          attempts: seq<NewStatus>, ids: seq<string>, failure: Option<string>)
  {
    && (dryRun ==> sent == sent0 && failure.None?)
    && (!dryRun ==> sent == sent0 + attempts)
    && Answered(answer, |sent0|, dryRun, attempts, ids)
    && (!dryRun ==> forall i :: 0 <= i < |attempts| - 1 ==> answer(attempts[i], |sent0| + i).Ok?)
    && (!dryRun ==> failure == if attempts == [] then None
                               else Failure(answer(attempts[|attempts| - 1], |sent0| + |attempts| - 1)))
  }

  /** A send, or its announcement in a dry run, after sends that all
      succeeded. */
  lemma SendingStep(answer: Answer, sent0: seq<NewStatus>, sent: seq<NewStatus>, dryRun: bool,
                    attempts: seq<NewStatus>, ids: seq<string>, status: NewStatus, result: Result<string, string>,
                    sentAfter: seq<NewStatus>)
    requires Sending(answer, sent0, sent, dryRun, attempts, ids, None)
    requires !dryRun ==> result == answer(status, |sent|) && sentAfter == sent + [status]
    requires dryRun ==> result == Ok("") && sentAfter == sent
    ensures Sending(answer, sent0, sentAfter, dryRun, attempts + [status], ids + [IdOf(result)], Failure(result))
  {
    var newAttempts := attempts + [status];
    assert forall i :: 0 <= i < |attempts| ==> newAttempts[i] == attempts[i];
  }

  /** What the invariant says of the statuses handed out once the loop
      ends. */
  lemma Posted(thread: seq<NewStatus>, attempts: seq<NewStatus>, ids: seq<string>, parents: seq<nat>,
               queue: seq<Pending>, queued: seq<nat>, answer: Answer, base: nat, dryRun: bool)
    requires QueueInvariant(thread, attempts, ids, parents, queue, queued)
    requires Answered(answer, base, dryRun, attempts, ids)
    ensures 0 < |attempts| <= |thread|
    ensures queue == [] ==> |attempts| == |thread|
    ensures forall i :: 0 <= i < |attempts| ==> SentAs(attempts[i], thread[i])
    ensures |parents| == |attempts|
    ensures forall j :: 1 <= j < |attempts| ==>
              && parents[j] < j && thread[j] in thread[parents[j]].replies
              && attempts[j].inReplyToId == Some(GotId(answer, attempts[parents[j]], base + parents[j], dryRun))
  {
    assert queue == [] ==> Replies(queue) == [];
  }

  /** What the loop's invariant and the outcome of the last send say of
      the whole call. */
  lemma Finished(root: NewStatus, thread: seq<NewStatus>, answer: Answer, sent0: seq<NewStatus>, sent: seq<NewStatus>,
                 dryRun: bool, attempts: seq<NewStatus>, ids: seq<string>, parents: seq<nat>,
                 queue: seq<Pending>, queued: seq<nat>, failure: Option<string>, r: Result<(), string>)
    requires thread == Thread(root)
    requires QueueInvariant(thread, attempts, ids, parents, queue, queued) && attempts[0] == root
    requires Sending(answer, sent0, sent, dryRun, attempts, ids, failure)
    requires failure.None? ==> queue == []
    requires r == if failure.None? then Ok(()) else Err(failure.value)
    ensures dryRun ==> sent == sent0
    ensures !dryRun ==> sent == sent0 + attempts
    ensures 0 < |attempts| <= |Thread(root)| && attempts[0] == root
    ensures forall i :: 0 <= i < |attempts| ==> SentAs(attempts[i], Thread(root)[i])
    ensures r.Ok? ==> |attempts| == |Thread(root)|
    ensures |parents| == |attempts|
    ensures forall j :: 1 <= j < |attempts| ==>
              && parents[j] < j && Thread(root)[j] in Thread(root)[parents[j]].replies
              && attempts[j].inReplyToId == Some(GotId(answer, attempts[parents[j]], |sent0| + parents[j], dryRun))
    ensures dryRun ==> r.Ok?
    ensures !dryRun ==> forall i :: 0 <= i < |attempts| - 1 ==> answer(attempts[i], |sent0| + i).Ok?
    ensures !dryRun ==> Failure(answer(attempts[|attempts| - 1], |sent0| + |attempts| - 1))
                        == if r.Ok? then None else Some(r.error)
  {
    Posted(thread, attempts, ids, parents, queue, queued, answer, |sent0|, dryRun);
  }

  /** One turn of the loop: the reply at the front of the queue is sent,
      answering its parent's id, or only announced in a dry run; unless the
      send failed, its own replies join the back of the queue, waiting for
      the id it got. */
  method PostNext(network: Network, dryRun: bool, replies: seq<Pending>, ghost thread: seq<NewStatus>,
                  ghost sent0: seq<NewStatus>, ghost attempts: seq<NewStatus>, ghost ids: seq<string>,
                  ghost parents: seq<nat>, ghost queued: seq<nat>)
    returns (failure: Option<string>, sent: NewStatus, newReplies: seq<Pending>, ghost newIds: seq<string>,
             ghost newParents: seq<nat>, ghost newQueue: seq<Pending>, ghost newQueued: seq<nat>)
    modifies network
    requires replies != []
    requires QueueInvariant(thread, attempts, ids, parents, replies, queued)
    requires Sending(network.answer, sent0, network.sent, dryRun, attempts, ids, None)
    ensures sent == replies[0].reply.(inReplyToId := Some(replies[0].parentId))
    ensures QueueInvariant(thread, attempts + [sent], newIds, newParents, newQueue, newQueued)
    ensures Sending(network.answer, sent0, network.sent, dryRun, attempts + [sent], newIds, failure)
    ensures failure.None? ==> newReplies == newQueue
  {
    var parentId := replies[0].parentId;
    var reply := replies[0].reply;
    ghost var sentBefore := network.sent;
    // The reply answers the id its parent got.
    sent := reply.(inReplyToId := Some(parentId));
    var sendResult: Result<string, string> := Ok("");
    if !dryRun {
      sendResult := network.Send(sent);
    }
    SendingStep(network.answer, sent0, sentBefore, dryRun, attempts, ids, sent, sendResult, network.sent);
    failure := Failure(sendResult);
    var parentStatusId := IdOf(sendResult);
    QueueStep(thread, attempts, ids, parents, replies, queued, parentStatusId);
    newIds := ids + [parentStatusId];
    newParents := parents + [queued[0]];
    newQueue := replies[1..] + Enqueued(parentStatusId, reply.replies);
    newQueued := queued[1..] + Repeat(|attempts|, |reply.replies|);
    newReplies := replies;
    if failure.None? {
      newReplies := replies[1..] + Enqueued(parentStatusId, reply.replies);
    }
  }

  /** The loop of `post_to_mastodon` / `post_to_bluesky`: sends the queued
      replies one by one until the queue is empty or a send fails; nothing
      is sent when the `earlier` send, the root's, already failed. */
  method PostReplies(network: Network, dryRun: bool, replies: seq<Pending>, ghost thread: seq<NewStatus>,
                     ghost sent0: seq<NewStatus>, attempts: seq<NewStatus>, ghost ids: seq<string>,
                     ghost parents: seq<nat>, ghost queued: seq<nat>, earlier: Option<string>)
    returns (failure: Option<string>, allAttempts: seq<NewStatus>, ghost allIds: seq<string>,
             ghost allParents: seq<nat>, ghost queue: seq<Pending>, ghost allQueued: seq<nat>)
    modifies network
    requires QueueInvariant(thread, attempts, ids, parents, replies, queued)
    requires Sending(network.answer, sent0, network.sent, dryRun, attempts, ids, earlier)
    ensures QueueInvariant(thread, allAttempts, allIds, allParents, queue, allQueued)
    ensures allAttempts[0] == attempts[0]
    ensures Sending(network.answer, sent0, network.sent, dryRun, allAttempts, allIds, failure)
    ensures failure.None? ==> queue == []
  {
    allAttempts, allIds, allParents, queue, allQueued := attempts, ids, parents, replies, queued;
    failure := earlier;
    if failure.Some? {
      return;
    }
    var pending := replies;
    while pending != []
      invariant pending == queue && failure.None?
      invariant QueueInvariant(thread, allAttempts, allIds, allParents, queue, allQueued)
      invariant allAttempts[0] == attempts[0]
      invariant Sending(network.answer, sent0, network.sent, dryRun, allAttempts, allIds, None)
      decreases |thread| - |allAttempts|
    {
      var sent: NewStatus;
      failure, sent, pending, allIds, allParents, queue, allQueued :=
        PostNext(network, dryRun, pending, thread, sent0, allAttempts, allIds, allParents, allQueued);
      allAttempts := allAttempts + [sent];
      if failure.Some? {
        return;
      }
    }
  }

  /** The start of `post_to_mastodon` / `post_to_bluesky`: `root` is sent,
      or only announced in a dry run, and its replies are queued to answer
      the id it got. */
  method PostRoot(network: Network, root: NewStatus, dryRun: bool)
    returns (failure: Option<string>, replies: seq<Pending>, ghost ids: seq<string>, ghost parents: seq<nat>,
             ghost queued: seq<nat>)
    modifies network
    ensures QueueInvariant(Thread(root), [root], ids, parents, replies, queued)
    ensures Sending(network.answer, old(network.sent), network.sent, dryRun, [root], ids, failure)
  {
    var sendResult: Result<string, string> := Ok("");
    if !dryRun {
      sendResult := network.Send(root);
    }
    SendingStep(network.answer, old(network.sent), old(network.sent), dryRun, [], [], root, sendResult, network.sent);
    assert [] + [root] == [root];
    failure := Failure(sendResult);
    var statusId := IdOf(sendResult);
    // The id each attempt got, empty in a dry run, and the position of
    // each attempt's parent and of each queued reply's parent.
    ids := [statusId];
    parents := [0];
    replies := Enqueued(statusId, root.replies);
    queued := Repeat(0, |replies|);
    QueueStart(root, statusId);
  }

  /** `post_to_mastodon` / `post_to_bluesky`: sends `root` and then its
      replies breadth first, each answering the id its parent got; in a dry
      run nothing is sent and every parent id is empty. The first failed
      send ends the call with its error. `attempts` are the statuses handed
      to the network, or only announced in a dry run. */
  method PostThread(network: Network, root: NewStatus, dryRun: bool)
    returns (r: Result<(), string>, attempts: seq<NewStatus>, ghost parents: seq<nat>)
    modifies network
    ensures dryRun ==> network.sent == old(network.sent)
    ensures !dryRun ==> network.sent == old(network.sent) + attempts
    ensures 0 < |attempts| <= |Thread(root)| && attempts[0] == root
    ensures forall i :: 0 <= i < |attempts| ==> SentAs(attempts[i], Thread(root)[i])
    ensures r.Ok? ==> |attempts| == |Thread(root)|
    ensures |parents| == |attempts|
    ensures dryRun ==> r.Ok?
    ensures !dryRun ==> forall i :: 0 <= i < |attempts| - 1 ==>
              network.answer(attempts[i], |old(network.sent)| + i).Ok?
    ensures !dryRun ==>
              Failure(network.answer(attempts[|attempts| - 1], |old(network.sent)| + |attempts| - 1))
              == if r.Ok? then None else Some(r.error)
    ensures forall j :: 1 <= j < |attempts| ==>
              && parents[j] < j && Thread(root)[j] in Thread(root)[parents[j]].replies
              && attempts[j].inReplyToId
                 == Some(GotId(network.answer, attempts[parents[j]], |old(network.sent)| + parents[j], dryRun))
  {
    ghost var thread := Thread(root);
    var failure: Option<string>;
    var replies: seq<Pending>;
    ghost var ids: seq<string>, queued: seq<nat>;
    failure, replies, ids, parents, queued := PostRoot(network, root, dryRun);
    attempts := [root];
    ghost var queue := replies;
    failure, attempts, ids, parents, queue, queued :=
      PostReplies(network, dryRun, replies, thread, old(network.sent), attempts, ids, parents, queued, failure);
    r := if failure.None? then Ok(()) else Err(failure.value);
    Finished(root, thread, network.answer, old(network.sent), network.sent, dryRun, attempts, ids, parents,
             queue, queued, failure, r);

  }
}
