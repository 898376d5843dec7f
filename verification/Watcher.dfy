/**
 Cross-replica invalidation: the watcher polls an outbox of subject changes by ascending id and
 flushes the decision cache.  The second half composes it with the guarded cache and states what
 every interleaving of commits, polls, requests and flushes guarantees.
 */
module Watcher {
  import opened Recency
  import G = GuardedFill

  // ---------------------------------------------------------------- one tick

  function Max(a: int, b: int): (r: int) {
    if a < b then b else a
  }

  /** The greatest of a cursor and a batch of ids. */
  function MaxOf(cursor: int, ids: seq<int>): (r: int)
    ensures r >= cursor
    ensures forall i :: 0 <= i < |ids| ==> r >= ids[i]
    ensures r == cursor || r in ids
  {
    if ids == [] then cursor else Max(MaxOf(cursor, ids[..|ids| - 1]), ids[|ids| - 1])
  }

  /** The effect of a successful poll on the cursor. */
  function CursorAfter(cursor: int, primed: bool, ids: seq<int>, head: int): (r: int) {
    if !primed then head
    else if ids == [] then cursor
    else Max(MaxOf(cursor, ids), head)
  }

  /** The cursor moves to the first head, and then past every id of a batch and its head, and no further. */
  predicate Advanced(before: int, primed: bool, ids: seq<int>, head: int, after: int) {
    if !primed then after == head
    else if ids == [] then after == before
    else
      && after >= before && after >= head && (forall i :: 0 <= i < |ids| ==> after >= ids[i])
      && (after == before || after == head || after in ids)
  }

  lemma AdvancedAfter(cursor: int, primed: bool, ids: seq<int>, head: int)
    ensures Advanced(cursor, primed, ids, head, CursorAfter(cursor, primed, ids, head))
  {
  }

  predicate Flushes(primed: bool, ids: seq<int>) {
    primed && ids != []
  }

  const SECOND: int := 1_000_000_000
  const MIN_POLL_TIMEOUT: int := 5 * SECOND

  class SubjectChangeWatcher {
    const interval: int
    const pollTimeout: int
    var cursor: int
    var primed: bool

    /** A non-positive interval is two seconds; a poll may take four intervals, and at least five seconds. */
    constructor (interval: int)
      ensures cursor == 0 && !primed
      ensures this.interval == if interval <= 0 then 2 * SECOND else interval
      ensures this.interval > 0 && pollTimeout == Max(4 * this.interval, MIN_POLL_TIMEOUT)
    {
      var every := if interval <= 0 then 2 * SECOND else interval;
      var timeout := every * 4;
      if timeout < MIN_POLL_TIMEOUT {
        timeout := MIN_POLL_TIMEOUT;
      }
      this.interval, pollTimeout := every, timeout;
      cursor, primed := 0, false;
    }

    /** One poll: the reply of the outbox, or an error.  The first success only adopts the head. */
    method Tick(reply: Option<(seq<int>, int)>) returns (flush: bool)
      modifies this
      ensures reply.None? ==> cursor == old(cursor) && primed == old(primed) && !flush
      ensures reply.Some? ==>
                var (ids, head) := reply.value;
                && primed
                && cursor == CursorAfter(old(cursor), old(primed), ids, head)
                && flush == Flushes(old(primed), ids)
                && Advanced(old(cursor), old(primed), ids, head, cursor)
                && (flush <==> old(primed) && |ids| > 0)
      ensures old(primed) ==> cursor >= old(cursor)
    {
      if reply.None? {
        return false;
      }
      var (ids, head) := reply.value;
      if !primed {
        primed := true;
        cursor := head;
        return false;
      }
      if |ids| == 0 {
        return false;
      }
      ghost var start := cursor;
      for i := 0 to |ids|
        invariant primed && cursor == MaxOf(start, ids[..i])
      {
        if ids[i] > cursor {
          cursor := ids[i];
        }
        assert ids[..i + 1][..i] == ids[..i];
      }
      assert ids[..|ids|] == ids;
      if head > cursor {
        cursor := head;
      }
      flush := true;
    }
  }

  // ---------------------------------------------------------------- the whole system

  /** One committed change with its position in the run. */
  datatype Change = Change(id: int, at: nat)

  datatype Reply = Reply(ids: seq<int>, readAt: nat)

  datatype Event<!K, V> =
    /** A step of a request, or a flush from another source. */
    | Cache(ev: G.Event<K, V>)
    /** A grant change commits, with its id, to the outbox. */
    | Commit(id: int)
    /** The outbox answers a poll with the changes past the cursor. */
    | PollRead
    | PollError
    /** The watcher acts on the answer and on a head that was read at any time up to now. */
    | Act(head: int)

  /** `flushedBelow` exceeds the positions of all steps that precede the latest flush by the watcher. */
  datatype Watch = Watch(cursor: int, primed: bool, primedHead: int, poll: Option<Reply>,
                         outbox: seq<Change>, flushedBelow: nat)

  const Start: Watch := Watch(0, false, 0, None, [], 0)

  /** The ids past the cursor, in order. */
  function Past(outbox: seq<Change>, cursor: int): (ids: seq<int>)
    ensures forall id :: id in ids ==> id > cursor
  {
    if outbox == [] then []
    else Past(outbox[..|outbox| - 1], cursor)
         + (if outbox[|outbox| - 1].id > cursor then [outbox[|outbox| - 1].id] else [])
  }

  function Batch(limit: nat, outbox: seq<Change>, cursor: int): (ids: seq<int>) {
    var ids := Past(outbox, cursor);
    if |ids| <= limit then ids else ids[..limit]
  }

  /** The greatest committed id, or zero. */
  function Head(outbox: seq<Change>): (r: int) {
    if outbox == [] then 0 else outbox[|outbox| - 1].id
  }

  /** Ids commit in ascending order, polls do not overlap, and a head is one that has been reached. */
  predicate Enabled<K, V>(w: Watch, ev: Event<K, V>) {
    match ev
    case Cache(e) => true
    case Commit(id) => id > Head(w.outbox)
    case PollRead => w.poll.None?
    case PollError => true
    case Act(head) => w.poll.Some? && 0 <= head <= Head(w.outbox)
  }

  function Apply<K, V>(limit: nat, w: Watch, ev: Event<K, V>, at: nat): (r: Watch) {
    match ev
    case Cache(_) => w
    case Commit(id) => w.(outbox := w.outbox + [Change(id, at)])
    case PollRead => w.(poll := Some(Reply(Batch(limit, w.outbox, w.cursor), at)))
    case PollError => w.(poll := None)
    case Act(head) =>
      if w.poll.None? then w
      else
        var p := w.poll.value;
        w.(cursor := CursorAfter(w.cursor, w.primed, p.ids, head),
           primed := true,
           primedHead := if w.primed then w.primedHead else head,
           poll := None,
           flushedBelow := if Flushes(w.primed, p.ids) then at else w.flushedBelow)
  }

  function Exec<K, V>(limit: nat, log: seq<Event<K, V>>): (w: Watch)
    decreases |log|
  {
    if log == [] then Start
    else Apply(limit, Exec(limit, log[..|log| - 1]), log[|log| - 1], |log| - 1)
  }

  ghost predicate Possible<K, V>(limit: nat, log: seq<Event<K, V>>) {
    forall n :: 0 <= n < |log| ==> Enabled(Exec(limit, log[..n]), log[n])
  }

  /** What a step is to the cache. */
  function Image<K, V>(w: Watch, ev: Event<K, V>): (r: G.Event<K, V>) {
    match ev
    case Cache(e) => e
    case Commit(_) => G.Outside
    case PollRead => G.Idle
    case PollError => G.Idle
    case Act(_) => if w.poll.Some? && Flushes(w.primed, w.poll.value.ids) then G.FlushAll else G.Idle
  }

  /** The run as the cache sees it, step for step. */
  function Project<K, V>(limit: nat, log: seq<Event<K, V>>): (r: seq<G.Event<K, V>>)
    ensures |r| == |log|
    decreases |log|
  {
    if log == [] then []
    else
      var prev := log[..|log| - 1];
      Project(limit, prev) + [Image(Exec(limit, prev), log[|log| - 1])]
  }

  lemma {:induction false} ProjectAt<K, V>(limit: nat, log: seq<Event<K, V>>, n: nat)
    requires n < |log|
    ensures Project(limit, log)[n] == Image(Exec(limit, log[..n]), log[n])
    decreases |log|
  {
    var prev := log[..|log| - 1];
    if n < |prev| {
      assert prev[..n] == log[..n];
      ProjectAt(limit, prev, n);
    }
  }

  // ---------------------------------------------------------------- the invariant

  ghost predicate Ascending(outbox: seq<Change>) {
    && (forall i :: 0 <= i < |outbox| ==> 0 < outbox[i].id <= Head(outbox))
    && (forall i, j :: 0 <= i < j < |outbox| ==> outbox[i].id < outbox[j].id)
  }

  /**
   Every change past the head that priming adopted is still ahead of the cursor or was committed before the
   watcher's latest flush; and the answer in hand covers what was committed before it was read.
   */
  ghost predicate Inv(w: Watch, now: nat) {
    && Ascending(w.outbox)
    && 0 <= w.cursor <= Head(w.outbox)
    && (!w.primed ==> w.cursor == 0)
    && (forall i :: 0 <= i < |w.outbox| ==> w.outbox[i].at < now)
    && (w.primed ==> forall i :: 0 <= i < |w.outbox| && w.outbox[i].id > w.primedHead ==>
                       w.outbox[i].id > w.cursor || w.outbox[i].at < w.flushedBelow)
    && (w.poll.Some? ==> PollOk(w, w.poll.value, now))
  }

  ghost predicate PollOk(w: Watch, p: Reply, now: nat) {
    && p.readAt < now
    && (forall k :: 0 <= k < |p.ids| ==> p.ids[k] <= Head(w.outbox))
    && (forall i :: 0 <= i < |w.outbox| && w.outbox[i].at < p.readAt && w.outbox[i].id > w.cursor ==> p.ids != [])
  }

  lemma {:induction false} PastProps(outbox: seq<Change>, cursor: int, bound: int)
    requires forall i :: 0 <= i < |outbox| ==> outbox[i].id <= bound
    ensures forall k :: 0 <= k < |Past(outbox, cursor)| ==> Past(outbox, cursor)[k] <= bound
    ensures (exists i :: 0 <= i < |outbox| && outbox[i].id > cursor) ==> Past(outbox, cursor) != []
  {
    if outbox != [] {
      PastProps(outbox[..|outbox| - 1], cursor, bound);
      assert outbox[|outbox| - 1].id <= cursor ==>
          forall i :: 0 <= i < |outbox| && outbox[i].id > cursor ==> outbox[..|outbox| - 1][i] == outbox[i];
    }
  }

  lemma InvCommit(w: Watch, id: int, now: nat)
    requires Inv(w, now) && id > Head(w.outbox)
    ensures Inv(w.(outbox := w.outbox + [Change(id, now)]), now + 1)
  {
  }

  lemma InvPoll(limit: nat, w: Watch, now: nat)
    requires limit > 0 && Inv(w, now)
    ensures Inv(w.(poll := Some(Reply(Batch(limit, w.outbox, w.cursor), now))), now + 1)
  {
    PastProps(w.outbox, w.cursor, Head(w.outbox));
  }

  lemma InvAct<K, V>(limit: nat, w: Watch, head: int, now: nat)
    requires Inv(w, now) && w.poll.Some? && 0 <= head <= Head(w.outbox)
    ensures Inv(Apply<K, V>(limit, w, Act(head), now), now + 1)
    ensures Apply<K, V>(limit, w, Act(head), now).cursor >= w.cursor
  {
  }

  lemma InvStep<K, V>(limit: nat, w: Watch, ev: Event<K, V>, now: nat)
    requires limit > 0 && Inv(w, now) && Enabled(w, ev)
    ensures Inv(Apply(limit, w, ev, now), now + 1)
  {
    match ev
    case Cache(_) =>
    case Commit(id) => InvCommit(w, id, now);
    case PollRead => InvPoll(limit, w, now);
    case PollError =>
    case Act(head) => InvAct<K, V>(limit, w, head, now);
  }

  lemma PossiblePrefix<K, V>(limit: nat, log: seq<Event<K, V>>, n: nat)
    requires n <= |log| && Possible(limit, log)
    ensures Possible(limit, log[..n])
  {
    hide Enabled, Exec;
    var past := log[..n];
    forall m | 0 <= m < n ensures Enabled(Exec(limit, past[..m]), past[m]) {
      assert past[..m] == log[..m];
    }
  }

  lemma {:induction false} InvAlways<K, V>(limit: nat, log: seq<Event<K, V>>)
    requires limit > 0 && Possible(limit, log)
    ensures Inv(Exec(limit, log), |log|)
    decreases |log|
  {
    hide Inv, Apply, Enabled;
    if log == [] {
      InvStart();
    } else {
      var n := |log| - 1;
      PossiblePrefix(limit, log, n);
      InvAlways(limit, log[..n]);
      InvStep(limit, Exec(limit, log[..n]), log[n], n);
    }
  }

  lemma InvStart()
    ensures Inv(Start, 0)
  {
  }

  // ---------------------------------------------------------------- what every run guarantees

  /** The cursor never moves back, not even when it adopts a head. */
  lemma {:induction false} CursorNeverDecreases<K, V>(limit: nat, log: seq<Event<K, V>>, a: nat, b: nat)
    requires limit > 0 && Possible(limit, log) && a <= b <= |log|
    ensures Exec(limit, log[..a]).cursor <= Exec(limit, log[..b]).cursor
    decreases b
  {
    hide Inv, Apply, Exec, Enabled;
    if a < b {
      CursorNeverDecreases(limit, log, a, b - 1);
      PossiblePrefix(limit, log, b - 1);
      InvAlways(limit, log[..b - 1]);
      assert log[..b] == log[..b - 1] + [log[b - 1]];
      Snoc(limit, log[..b - 1], log[b - 1]);
      CursorStep(limit, Exec(limit, log[..b - 1]), log[b - 1], b - 1);
    }
  }

  lemma CursorStep<K, V>(limit: nat, w: Watch, ev: Event<K, V>, now: nat)
    requires Inv(w, now) && Enabled(w, ev)
    ensures Apply(limit, w, ev, now).cursor >= w.cursor
  {
    if ev.Act? && w.poll.Some? {
      InvAct<K, V>(limit, w, ev.head, now);
    }
  }

  /** The recorded flush is one that the cache saw. */
  lemma {:induction false} FlushHappened<K, V>(limit: nat, log: seq<Event<K, V>>)
    ensures var f := Exec(limit, log).flushedBelow;
            f == 0 || (f < |log| && Project(limit, log)[f].FlushAll?)
    decreases |log|
  {
    if log != [] {
      FlushHappened(limit, log[..|log| - 1]);
    }
  }

  lemma {:induction false} FlushLater<K, V>(limit: nat, log: seq<Event<K, V>>, a: nat, b: nat)
    requires a <= b <= |log|
    ensures Exec(limit, log[..a]).flushedBelow <= a
    ensures Exec(limit, log[..a]).flushedBelow <= Exec(limit, log[..b]).flushedBelow
    decreases b
  {
    FlushHappened(limit, log[..a]);
    if a < b {
      FlushLater(limit, log, a, b - 1);
      FlushHappened(limit, log[..b - 1]);
      assert log[..b][..b - 1] == log[..b - 1];
    }
  }

  /**
   Once the watcher has acted on a poll, every change past the adopted head that was committed before that poll
   was read lies before a flush, even one committed before priming; a truncated batch and a cursor that jumps to
   the head lose nothing.
   */
  lemma CoveredByFlush<K, V>(limit: nat, log: seq<Event<K, V>>, t: nat, i: nat)
    requires limit > 0 && Possible(limit, log) && t < |log| && log[t].Act?
    requires var w := Exec(limit, log[..t]);
             && w.primed && w.poll.Some? && i < |w.outbox|
             && w.outbox[i].id > w.primedHead && w.outbox[i].at < w.poll.value.readAt
    ensures Exec(limit, log[..t]).outbox[i].at < Exec(limit, log[..t + 1]).flushedBelow <= t
  {
    var w := Exec(limit, log[..t]);
    PossiblePrefix(limit, log, t);
    InvAlways(limit, log[..t]);
    assert log[..t + 1][..t] == log[..t];
    FlushLater(limit, log, t, t);
  }

  /**
   Convergence of this replica: a cache hit after the watcher has acted on such a poll rests on a
   snapshot, hence on a check, made after the change was committed.
   */
  lemma NoOldGrantAfterPoll<K, V>(c: Config, limit: nat, log: seq<Event<K, V>>, t: nat, i: nat, n: nat)
    requires c.Valid() && limit > 0 && Possible(limit, log) && t < n < |log| && log[t].Act?
    requires var w := Exec(limit, log[..t]);
             && w.primed && w.poll.Some? && i < |w.outbox|
             && w.outbox[i].id > w.primedHead && w.outbox[i].at < w.poll.value.readAt
    requires var run := Project(limit, log); run[n].Lookup? && G.Hit(c, run, n).Some?
    ensures var s := G.Hit(c, Project(limit, log), n).value;
            Exec(limit, log[..t]).outbox[i].at < s.snapAt < s.fetchAt < n
  {
    var run := Project(limit, log);
    CoveredByFlush(limit, log, t, i);
    var f := Exec(limit, log[..t + 1]).flushedBelow;
    FlushHappened(limit, log[..t + 1]);
    ProjectAt(limit, log, f);
    ProjectAt(limit, log[..t + 1], f);
    assert log[..t + 1][..f] == log[..f];
    assert G.Invalidates(run[f], run[n].key);
    G.NoStaleHit(c, run, n);
  }

  // ---------------------------------------------------------------- progress

  /** A poll in hand is what some read returned. */
  lemma {:induction false} PollFromRead<K, V>(limit: nat, log: seq<Event<K, V>>)
    requires Exec(limit, log).poll.Some?
    ensures var p := Exec(limit, log).poll.value;
            && p.readAt < |log| && log[p.readAt].PollRead?
            && var w := Exec(limit, log[..p.readAt]); p.ids == Batch(limit, w.outbox, w.cursor)
    decreases |log|
  {
    hide Batch;
    var m := |log| - 1;
    if !log[m].PollRead? {
      PollFromRead(limit, log[..m]);
      var p := Exec(limit, log[..m]).poll.value;
      assert log[..m][..p.readAt] == log[..p.readAt];
    }
  }

  /** A poll in hand was read after the last moment without one. */
  lemma {:induction false} PollLater<K, V>(limit: nat, log: seq<Event<K, V>>, a: nat, b: nat)
    requires a <= b <= |log| && Exec(limit, log[..a]).poll.None? && Exec(limit, log[..b]).poll.Some?
    ensures Exec(limit, log[..b]).poll.value.readAt >= a
    decreases b
  {
    if a < b {
      assert log[..b][..b - 1] == log[..b - 1];
      if !log[b - 1].PollRead? {
        PollLater(limit, log, a, b - 1);
      }
    }
  }

  /** The watcher primes itself or acts on a batch that is not empty. */
  ghost predicate ActsOn<K, V>(limit: nat, log: seq<Event<K, V>>, t: nat)
    requires t < |log|
  {
    var w := Exec(limit, log[..t]);
    log[t].Act? && w.poll.Some? && (!w.primed || w.poll.value.ids != [])
  }

  lemma Acted<K, V>(limit: nat, log: seq<Event<K, V>>, t: nat)
    requires t < |log| && log[t].Act? && Exec(limit, log[..t]).poll.Some?
    ensures var w, w' := Exec(limit, log[..t]), Exec(limit, log[..t + 1]);
            && w'.poll.None? && w'.primed
            && Advanced(w.cursor, w.primed, w.poll.value.ids, log[t].head, w'.cursor)
  {
    assert log[..t + 1][..t] == log[..t];
    var w := Exec(limit, log[..t]);
    AdvancedAfter(w.cursor, w.primed, w.poll.value.ids, log[t].head);
    hide Advanced, CursorAfter;
  }

  /**
   Progress: once the watcher has acted, and as long as nothing past the head it acted on is committed, every later
   poll comes back empty and acting on it does not flush.
   */
  lemma CaughtUp<K, V>(limit: nat, log: seq<Event<K, V>>, t: nat, u: nat, v: nat)
    requires limit > 0 && Possible(limit, log) && t < u < v < |log| && ActsOn(limit, log, t)
    requires log[u].PollRead? && log[v].Act?
    requires forall i :: 0 <= i < |Exec(limit, log[..u]).outbox| ==> Exec(limit, log[..u]).outbox[i].id <= log[t].head
    requires Exec(limit, log[..v]).poll.Some? && Exec(limit, log[..v]).poll.value.readAt == u
    ensures Exec(limit, log[..v]).poll.value.ids == []
    ensures Project(limit, log)[v] == G.Idle
  {
    hide Exec, Possible, Advanced, Batch, Past;
    var w := Exec(limit, log[..u]);
    Acted(limit, log, t);
    AdvancedToHead(limit, log, t);
    CursorNeverDecreases(limit, log, t + 1, u);
    PollFromRead(limit, log[..v]);
    assert log[..v][..u] == log[..u];
    PastNothing(w.outbox, w.cursor);
    EmptyBatch(limit, w.outbox, w.cursor);
    ProjectAt(limit, log, v);
  }

  lemma EmptyBatch(limit: nat, outbox: seq<Change>, cursor: int)
    requires Past(outbox, cursor) == []
    ensures Batch(limit, outbox, cursor) == []
  {
  }

  lemma AdvancedToHead<K, V>(limit: nat, log: seq<Event<K, V>>, t: nat)
    requires t < |log| && ActsOn(limit, log, t)
    requires var w, w' := Exec(limit, log[..t]), Exec(limit, log[..t + 1]);
             Advanced(w.cursor, w.primed, w.poll.value.ids, log[t].head, w'.cursor)
    ensures Exec(limit, log[..t + 1]).cursor >= log[t].head
  {
  }

  /**
   No change is in two batches that the watcher acts on; the batch of the priming poll counts only up to the adopted
   head.
   */
  lemma ActedOnOnce<K, V>(limit: nat, log: seq<Event<K, V>>, t: nat, u: nat, id: int)
    requires limit > 0 && Possible(limit, log) && t < u < |log| && log[t].Act? && log[u].Act?
    requires Exec(limit, log[..t]).poll.Some? && Exec(limit, log[..u]).poll.Some?
    requires Exec(limit, log[..t]).primed || id <= log[t].head
    requires id in Exec(limit, log[..t]).poll.value.ids
    ensures id !in Exec(limit, log[..u]).poll.value.ids
  {
    hide Exec, Possible, Batch, Past;
    Acted(limit, log, t);
    PollLater(limit, log, t + 1, u);
    PollFromRead(limit, log[..u]);
    var r := Exec(limit, log[..u]).poll.value.readAt;
    assert log[..u][..r] == log[..r];
    CursorNeverDecreases(limit, log, t + 1, r);
    var w := Exec(limit, log[..r]);
    PastCursor(limit, w.outbox, w.cursor);
    var ids := Exec(limit, log[..t]).poll.value.ids;
    var i :| 0 <= i < |ids| && ids[i] == id;
    assert Exec(limit, log[..t + 1]).cursor >= ids[i];
  }

  lemma PastCursor(limit: nat, outbox: seq<Change>, cursor: int)
    ensures forall id :: id in Batch(limit, outbox, cursor) ==> id > cursor
  {
    assert forall id :: id in Batch(limit, outbox, cursor) ==> id in Past(outbox, cursor);
  }

  // ---------------------------------------------------------------- changes up to the adopted head

  /** Nothing past the head that priming adopted has been committed. */
  ghost predicate Quiet(w: Watch) {
    w.primed && forall i :: 0 <= i < |w.outbox| ==> w.outbox[i].id <= w.primedHead
  }

  ghost predicate QuietOk(w: Watch) {
    && (!w.primed ==> w.flushedBelow == 0)
    && (Quiet(w) ==> w.flushedBelow == 0 && w.cursor == w.primedHead && (w.poll.Some? ==> w.poll.value.ids == []))
  }

  lemma {:induction false} PastNothing(outbox: seq<Change>, cursor: int)
    requires forall i :: 0 <= i < |outbox| ==> outbox[i].id <= cursor
    ensures Past(outbox, cursor) == []
  {
    if outbox != [] {
      PastNothing(outbox[..|outbox| - 1], cursor);
    }
  }

  lemma QuietStep<K, V>(limit: nat, w: Watch, ev: Event<K, V>, now: nat)
    requires QuietOk(w)
    ensures QuietOk(Apply(limit, w, ev, now))
    ensures Quiet(Apply(limit, w, ev, now)) ==> !Image(w, ev).FlushAll? || ev.Cache?
    ensures Quiet(Apply(limit, w, ev, now)) ==> !w.primed || Quiet(w)
  {
    var t := Apply(limit, w, ev, now);
    if Quiet(t) && w.primed {
      assert forall i :: 0 <= i < |w.outbox| ==> w.outbox[i] == t.outbox[i];
      PastNothing(w.outbox, w.primedHead);
    }
  }

  /** The converse: as long as no change past the adopted head is committed, the watcher never flushes. */
  lemma {:induction false} NeverFlushed<K, V>(limit: nat, log: seq<Event<K, V>>)
    ensures QuietOk(Exec(limit, log))
    ensures Quiet(Exec(limit, log)) ==>
              && Exec(limit, log).flushedBelow == 0
              && forall n :: 0 <= n < |log| && log[n].Act? ==> !Project(limit, log)[n].FlushAll?
    decreases |log|
  {
    hide Apply, Image;
    if log != [] {
      var m := |log| - 1;
      var prev, w := log[..m], Exec(limit, log[..m]);
      NeverFlushed(limit, prev);
      QuietStep(limit, w, log[m], m);
      if Quiet(Exec(limit, log)) && !w.primed {
        UnprimedNeverFlushed(limit, prev);
      }
      assert forall n :: 0 <= n < m ==> prev[n] == log[n] && Project(limit, log)[n] == Project(limit, prev)[n];
    }
  }

  lemma {:induction false} UnprimedNeverFlushed<K, V>(limit: nat, log: seq<Event<K, V>>)
    requires !Exec(limit, log).primed
    ensures forall n :: 0 <= n < |log| && log[n].Act? ==> !Project(limit, log)[n].FlushAll?
    decreases |log|
  {
    if log != [] {
      UnprimedNeverFlushed(limit, log[..|log| - 1]);
    }
  }

  /** A grant is cached, changes, and only then does the watcher's first poll adopt the head. */
  function LatePriming<K, V>(k: K, before: V): (log: seq<Event<K, V>>) {
    [Cache(G.Snapshot(0)), Cache(G.Fetch(0, k, before)), Cache(G.Fill(0, 0, 0)), Commit(1)]
    + [PollRead] + [Act(1)] + [Cache(G.Lookup(1, k, 0))]
  }

  lemma Snoc<K, V>(limit: nat, log: seq<Event<K, V>>, ev: Event<K, V>)
    ensures Exec(limit, log + [ev]) == Apply(limit, Exec(limit, log), ev, |log|)
    ensures Project(limit, log + [ev]) == Project(limit, log) + [Image(Exec(limit, log), ev)]
  {
    assert (log + [ev])[..|log|] == log;
  }

  lemma BeforePriming<K, V>(limit: nat, k: K, v: V)
    ensures var log := LatePriming(k, v);
            && Exec(limit, log[..4]) == Start.(outbox := [Change(1, 3)])
            && Project(limit, log[..4]) == G.FillRun([], 0, k, v) + [G.Outside]
  {
    var log := LatePriming<K, V>(k, v);
    assert log[..1] == [] + [log[0]] && log[..2] == log[..1] + [log[1]];
    assert log[..3] == log[..2] + [log[2]] && log[..4] == log[..3] + [log[3]];
    Snoc<K, V>(limit, [], log[0]);
    Snoc(limit, log[..1], log[1]);
    Snoc(limit, log[..2], log[2]);
    Snoc(limit, log[..3], log[3]);
    hide Exec, Project;
  }

  /** The change is behind the cursor, no flush has happened, and the old value is still served. */
  lemma PrimingMissesEarlierChange<K, V>(c: Config, limit: nat, k: K, v: V)
    requires c.Valid() && limit > 0
    ensures var log := LatePriming(k, v);
            var w := Exec(limit, log[..6]);
            && Quiet(w) && w.primedHead == 1 && w.outbox == [Change(1, 3)]
            && log[6].Cache? && Project(limit, log)[6] == log[6].ev
            && G.Hit(c, Project(limit, log), 6) == Some(G.Stamped(v, 0, 1, 2))
  {
    hide Exec, Project, G.Exec, Batch, LiveValue, G.FillRun;
    var log := LatePriming<K, V>(k, v);
    var filled := G.FillRun([], 0, k, v);
    var four := filled + [G.Outside];
    BeforePriming(limit, k, v);
    assert log[..5] == log[..4] + [log[4]] && log[..6] == log[..5] + [log[5]] && log == log[..6] + [log[6]];
    Snoc(limit, log[..4], log[4]);
    Snoc(limit, log[..5], log[5]);
    Snoc(limit, log[..6], log[6]);
    G.ExecSnoc(c, filled, G.Outside);
    G.ExecSnoc(c, four, G.Idle);
    G.ExecSnoc(c, four + [G.Idle], G.Idle);
    assert log[4] == PollRead && log[5] == Act(1) && log[6] == Cache(G.Lookup(1, k, 0));
    assert Project(limit, log)[..6] == four + [G.Idle] + [G.Idle];
    assert G.Exec(c, Project(limit, log)[..6]) == G.Exec(c, filled);
    FilledHit(c, k, v);
  }

  lemma FilledHit<K, V>(c: Config, k: K, v: V)
    requires c.Valid()
    ensures LiveValue(G.Exec(c, G.FillRun([], 0, k, v)).cache.entries, k, 0) == Some(G.Stamped(v, 0, 1, 2))
  {
    G.FillLands(c, [], 0, k, v);
    hide G.Exec, G.FillRun;
    assert Rank(G.Exec(c, G.FillRun([], 0, k, v)).cache.entries, k) == 0;
  }
}
