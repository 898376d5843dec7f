/**
 Single-flight under concurrency.  Handlers of many requests interleave at the store's critical sections,
 at the downstream call, at the closing of a channel and at the wake-up of a follower; the collector
 sweeps in between.  A run is a sequence of such steps; a step that is not possible changes nothing.
 A flight is named by the request that leads it.
 */
module IdempotencyRuns {
  import opened Recency
  import opened Fifo
  import opened IdempotencyStore

  datatype FlightState = FlightState(key: string, closed: bool, result: Option<Response>)

  /** Where a handler stands. */
  datatype Phase =
    /** Leads, and downstream has not answered yet. */
    | Running
    /** Leads, and downstream has answered. */
    | Answered(response: Response)
    /** Has left the critical section of finish or abort and will close its flight's channel. */
    | Closing
    | Waiting(flight: nat)
    /** Followed a leader that aborted, and will call downstream itself. */
    | FallThrough
    /** Is over, with the response sent to its client, if any. */
    | Finished(reply: Option<Response>)

  /** A request; its epoch is the leader in charge of its key when it was admitted. */
  datatype Handler = Handler(key: string, epoch: nat, phase: Phase)

  /** Who has called downstream, and how many calls there were. */
  datatype System = System(items: seq<Entry<string, Response>>, inflight: map<string, nat>,
                           flights: map<nat, FlightState>, handlers: map<nat, Handler>,
                           epochs: map<string, nat>, ran: set<nat>, calls: nat)

  const Initial: System := System([], map[], map[], map[], map[], {}, 0)

  datatype Event =
    | Reserve(rid: nat, key: string, now: int)
    | Downstream(rid: nat, response: Response)
    | Finish(rid: nat, expiresAt: int)
    /** Downstream panics. */
    | Panic(rid: nat)
    | Close(rid: nat)
    | Wake(rid: nat)
    | Sweep(now: int)

  function At(s: System, rid: nat): (p: Option<Phase>) {
    if rid in s.handlers then Some(s.handlers[rid].phase) else None
  }

  function Moved(s: System, rid: nat, p: Phase): (r: System)
    requires rid in s.handlers
  {
    s.(handlers := s.handlers[rid := s.handlers[rid].(phase := p)])
  }

  function EpochOf(s: System, key: string, otherwise: nat): (r: nat) {
    if key in s.epochs then s.epochs[key] else otherwise
  }

  function Admit(s: System, rid: nat, key: string, now: int): (r: System) {
    var t := s.(items := Dropped(s.items, key, now));
    match LiveValue(s.items, key, now)
    case Some(response) =>
      t.(handlers := s.handlers[rid := Handler(key, EpochOf(s, key, rid), Finished(Some(response)))])
    case None =>
      if key in s.inflight then
        t.(handlers := s.handlers[rid := Handler(key, EpochOf(s, key, rid), Waiting(s.inflight[key]))])
      else
        t.(inflight := s.inflight[key := rid],
           flights := s.flights[rid := FlightState(key, false, None)],
           handlers := s.handlers[rid := Handler(key, rid, Running)],
           epochs := s.epochs[key := rid])
  }

  function FinishState(maxEntries: nat, s: System, rid: nat, expiresAt: int): (r: System)
    requires maxEntries > 0 && rid in s.handlers && s.handlers[rid].phase.Answered?
  {
    var key, response := s.handlers[rid].key, s.handlers[rid].phase.response;
    var t := Moved(s, rid, Closing);
    t.(items := if Cacheable(response) then Write(maxEntries, s.items, Entry(key, response, expiresAt)) else s.items,
       inflight := s.inflight - {key},
       flights := s.flights[rid := FlightState(key, false, Some(response))])
  }

  function PanicState(s: System, rid: nat): (r: System)
    requires rid in s.handlers
  {
    var key := s.handlers[rid].key;
    var t := s.(ran := s.ran + {rid}, calls := s.calls + 1);
    match s.handlers[rid].phase
    case Running =>
      if key in s.inflight && s.inflight[key] == rid then Moved(t, rid, Closing).(inflight := s.inflight - {key})
      else Moved(t, rid, Finished(None))
    case FallThrough => Moved(t, rid, Finished(None))
    case _ => s
  }

  function Apply(maxEntries: nat, s: System, ev: Event): (r: System)
    requires maxEntries > 0
  {
    match ev
    case Reserve(rid, key, now) => if rid in s.handlers then s else Admit(s, rid, key, now)
    case Downstream(rid, response) =>
      (match At(s, rid)
       case Some(Running) => Moved(s, rid, Answered(response)).(ran := s.ran + {rid}, calls := s.calls + 1)
       case Some(FallThrough) => Moved(s, rid, Finished(Some(response))).(ran := s.ran + {rid}, calls := s.calls + 1)
       case _ => s)
    case Finish(rid, expiresAt) =>
      if rid in s.handlers && s.handlers[rid].phase.Answered? then FinishState(maxEntries, s, rid, expiresAt) else s
    case Panic(rid) => if rid in s.handlers then PanicState(s, rid) else s
    case Close(rid) =>
      if rid in s.handlers && rid in s.flights && s.handlers[rid].phase.Closing? then
        Moved(s, rid, Finished(s.flights[rid].result)).(flights := s.flights[rid := s.flights[rid].(closed := true)])
      else s
    case Wake(rid) =>
      if rid in s.handlers && s.handlers[rid].phase.Waiting? then
        var f := s.handlers[rid].phase.flight;
        if f in s.flights && s.flights[f].closed then
          Moved(s, rid, if s.flights[f].result.Some? then Finished(s.flights[f].result) else FallThrough)
        else s
      else s
    case Sweep(now) => s.(items := Unexpired(s.items, now))
  }

  function Exec(maxEntries: nat, log: seq<Event>): (s: System)
    requires maxEntries > 0
    decreases |log|
  {
    if log == [] then Initial else Apply(maxEntries, Exec(maxEntries, log[..|log| - 1]), log[|log| - 1])
  }

  // ---------------------------------------------------------------- the invariant

  /** The leader released its key without a result. */
  ghost predicate Aborted(s: System, leader: nat) {
    && leader in s.flights && s.flights[leader].result.None?
    && leader in s.handlers && (s.handlers[leader].phase.Closing? || s.handlers[leader].phase.Finished?)
  }

  ghost predicate Registered(s: System, leader: nat) {
    leader in s.flights && s.flights[leader].key in s.inflight && s.inflight[s.flights[leader].key] == leader
  }

  /** A handler that leads: its flight is registered and open until it leaves, and closed when it is over. */
  ghost predicate LeaderOk(s: System, rid: nat)
    requires rid in s.handlers && rid in s.flights
  {
    match s.handlers[rid].phase
    case Running => Registered(s, rid) && !s.flights[rid].closed && s.flights[rid].result.None? && rid !in s.ran
    case Answered(_) => Registered(s, rid) && !s.flights[rid].closed && s.flights[rid].result.None? && rid in s.ran
    case Closing => !Registered(s, rid) && !s.flights[rid].closed && rid in s.ran
    case Finished(reply) =>
      !Registered(s, rid) && s.flights[rid].closed && s.flights[rid].result == reply && rid in s.ran
    case _ => false
  }

  /** A handler that does not lead: it waits for its epoch's leader, replays it, or runs only if it aborted. */
  ghost predicate OtherOk(s: System, rid: nat)
    requires rid in s.handlers
  {
    var leader := s.handlers[rid].epoch;
    && (rid in s.ran <==> s.handlers[rid].phase.Finished? && Aborted(s, leader))
    && match s.handlers[rid].phase
       case Waiting(f) => f == leader
       case FallThrough => Aborted(s, leader)
       case Finished(reply) =>
         Aborted(s, leader) || (reply.Some? && leader in s.flights && reply == s.flights[leader].result)
       case _ => false
  }

  ghost predicate HandlerOk(s: System, rid: nat)
    requires rid in s.handlers
  {
    var h := s.handlers[rid];
    && h.epoch in s.flights && s.flights[h.epoch].key == h.key
    && (if h.epoch == rid then LeaderOk(s, rid) else rid !in s.flights && OtherOk(s, rid))
  }

  ghost predicate FlightOk(s: System, f: nat) {
    f in s.flights ==> f in s.handlers && s.handlers[f].epoch == f && s.handlers[f].key == s.flights[f].key
  }

  ghost predicate KeyOk(s: System, key: string) {
    key in s.inflight ==>
      var f := s.inflight[key];
      f in s.flights && s.flights[f].key == key && key in s.epochs && s.epochs[key] == f
  }

  /** A stored response is the result of its key's latest leader, and its key is not in flight. */
  ghost predicate ItemOk(s: System, e: Entry<string, Response>) {
    && e.key !in s.inflight && e.key in s.epochs
    && s.epochs[e.key] in s.flights && s.flights[s.epochs[e.key]].key == e.key
    && s.flights[s.epochs[e.key]].result == Some(e.value)
  }

  ghost predicate Inv(maxEntries: nat, s: System) {
    && Bounded(maxEntries, s.items)
    && (forall e :: e in s.items ==> ItemOk(s, e))
    && (forall key :: KeyOk(s, key))
    && (forall f :: FlightOk(s, f))
    && (forall rid :: rid in s.handlers ==> HandlerOk(s, rid))
    && (forall rid :: rid in s.ran ==> rid in s.handlers)
  }

  // ---------------------------------------------------------------- every step keeps it

  lemma InvReplay(maxEntries: nat, s: System, rid: nat, key: string, now: int)
    requires maxEntries > 0 && Inv(maxEntries, s) && rid !in s.handlers
    requires LiveValue(s.items, key, now).Some?
    ensures Inv(maxEntries, Admit(s, rid, key, now))
  {
    var t := Admit(s, rid, key, now);
    DroppedBounded(maxEntries, s.items, key, now);
    assert t.items == s.items;
    var e := s.items[Rank(s.items, key)];
    assert e in s.items && ItemOk(s, e);
    assert FlightOk(s, rid) && FlightOk(s, s.epochs[key]);
    forall r | r in t.handlers ensures HandlerOk(t, r) {
      if r != rid {
        assert HandlerOk(s, r);
        assert FlightOk(s, s.handlers[r].epoch);
      }
    }
    forall f ensures FlightOk(t, f) {
      assert FlightOk(s, f);
    }
    forall k ensures KeyOk(t, k) {
      assert KeyOk(s, k);
    }
    forall x | x in t.items ensures ItemOk(t, x) {
      assert ItemOk(s, x);
    }
  }

  lemma InvFollow(maxEntries: nat, s: System, rid: nat, key: string, now: int)
    requires maxEntries > 0 && Inv(maxEntries, s) && rid !in s.handlers
    requires LiveValue(s.items, key, now).None? && key in s.inflight
    ensures Inv(maxEntries, Admit(s, rid, key, now))
  {
    var t := Admit(s, rid, key, now);
    DroppedBounded(maxEntries, s.items, key, now);
    assert KeyOk(s, key) && FlightOk(s, rid) && FlightOk(s, s.inflight[key]);
    forall r | r in t.handlers ensures HandlerOk(t, r) {
      if r != rid {
        assert HandlerOk(s, r);
        assert FlightOk(s, s.handlers[r].epoch);
      }
    }
    forall f ensures FlightOk(t, f) {
      assert FlightOk(s, f);
    }
    forall k ensures KeyOk(t, k) {
      assert KeyOk(s, k);
    }
    forall x | x in t.items ensures ItemOk(t, x) {
      assert ItemOk(s, x);
    }
  }

  lemma InvLead(maxEntries: nat, s: System, rid: nat, key: string, now: int)
    requires maxEntries > 0 && Inv(maxEntries, s) && rid !in s.handlers
    requires LiveValue(s.items, key, now).None? && key !in s.inflight
    ensures Inv(maxEntries, Admit(s, rid, key, now))
  {
    var t := Admit(s, rid, key, now);
    DroppedBounded(maxEntries, s.items, key, now);
    assert FlightOk(s, rid);
    forall r | r in t.handlers ensures HandlerOk(t, r) {
      if r != rid {
        assert HandlerOk(s, r);
        assert FlightOk(s, s.handlers[r].epoch);
      }
    }
    forall f ensures FlightOk(t, f) {
      assert FlightOk(s, f);
    }
    forall k ensures KeyOk(t, k) {
      assert KeyOk(s, k);
    }
    forall x | x in t.items ensures ItemOk(t, x) {
      assert ItemOk(s, x);
      var i :| 0 <= i < |t.items| && t.items[i] == x;
      assert x.key != key;
    }
  }

  /** Downstream answers a leader, or a follower that fell through. */
  lemma InvDownstream(maxEntries: nat, s: System, rid: nat, response: Response)
    requires maxEntries > 0 && Inv(maxEntries, s)
    ensures Inv(maxEntries, Apply(maxEntries, s, Downstream(rid, response)))
  {
    hide Bounded;
    if At(s, rid) == Some(Running) {
      InvAnswer(maxEntries, s, rid, response);
    } else if At(s, rid) == Some(FallThrough) {
      InvFallThrough(maxEntries, s, rid, response);
    }
  }

  lemma InvAnswer(maxEntries: nat, s: System, rid: nat, response: Response)
    requires Inv(maxEntries, s) && rid in s.handlers && s.handlers[rid].phase.Running?
    ensures Inv(maxEntries, Moved(s, rid, Answered(response)).(ran := s.ran + {rid}, calls := s.calls + 1))
  {
    hide Bounded;
    var t := Moved(s, rid, Answered(response)).(ran := s.ran + {rid}, calls := s.calls + 1);
    forall r | r in t.handlers ensures HandlerOk(t, r) {
      assert HandlerOk(s, r);
      assert FlightOk(s, s.handlers[r].epoch) && FlightOk(s, r);
    }
    forall f ensures FlightOk(t, f) {
      assert FlightOk(s, f);
    }
    forall k ensures KeyOk(t, k) {
      assert KeyOk(s, k);
    }
    forall x | x in t.items ensures ItemOk(t, x) {
      assert ItemOk(s, x);
    }
  }

  lemma InvFallThrough(maxEntries: nat, s: System, rid: nat, response: Response)
    requires Inv(maxEntries, s) && rid in s.handlers && s.handlers[rid].phase.FallThrough?
    ensures Inv(maxEntries, Moved(s, rid, Finished(Some(response))).(ran := s.ran + {rid}, calls := s.calls + 1))
  {
    hide Bounded;
    var t := Moved(s, rid, Finished(Some(response))).(ran := s.ran + {rid}, calls := s.calls + 1);
    forall r | r in t.handlers ensures HandlerOk(t, r) {
      assert HandlerOk(s, r);
      assert FlightOk(s, s.handlers[r].epoch) && FlightOk(s, r);
    }
    forall f ensures FlightOk(t, f) {
      assert FlightOk(s, f);
    }
    forall k ensures KeyOk(t, k) {
      assert KeyOk(s, k);
    }
    forall x | x in t.items ensures ItemOk(t, x) {
      assert ItemOk(s, x);
    }
  }

  lemma InvFinish(maxEntries: nat, s: System, rid: nat, expiresAt: int)
    requires maxEntries > 0 && Inv(maxEntries, s)
    requires rid in s.handlers && s.handlers[rid].phase.Answered?
    ensures Inv(maxEntries, FinishState(maxEntries, s, rid, expiresAt))
  {
    hide Write, Bounded, Cacheable;
    var t := FinishState(maxEntries, s, rid, expiresAt);
    var key, response := s.handlers[rid].key, s.handlers[rid].phase.response;
    assert HandlerOk(s, rid) && KeyOk(s, key);
    WriteBounded(maxEntries, s.items, Entry(key, response, expiresAt));
    FinishHandlers(maxEntries, s, rid, expiresAt);
    hide HandlerOk, LeaderOk, OtherOk;
    forall f ensures FlightOk(t, f) {
      assert FlightOk(s, f);
    }
    forall k ensures KeyOk(t, k) {
      assert KeyOk(s, k);
    }
    forall x | x in t.items ensures ItemOk(t, x) {
      assert x.key == key || ItemOk(s, x);
    }
  }

  lemma FinishHandlers(maxEntries: nat, s: System, rid: nat, expiresAt: int)
    requires maxEntries > 0 && Inv(maxEntries, s)
    requires rid in s.handlers && s.handlers[rid].phase.Answered?
    ensures var t := FinishState(maxEntries, s, rid, expiresAt);
            && HandlerOk(s, rid) && s.handlers[rid].epoch == rid && Registered(s, rid)
            && forall r :: r in t.handlers ==> HandlerOk(t, r)
  {
    hide Write, Bounded, Cacheable;
    var t := FinishState(maxEntries, s, rid, expiresAt);
    assert HandlerOk(s, rid) && KeyOk(s, s.handlers[rid].key);
    forall r | r in t.handlers ensures HandlerOk(t, r) {
      assert HandlerOk(s, r);
      assert FlightOk(s, s.handlers[r].epoch) && FlightOk(s, r);
    }
  }

  lemma InvPanic(maxEntries: nat, s: System, rid: nat)
    requires maxEntries > 0 && Inv(maxEntries, s) && rid in s.handlers
    ensures Inv(maxEntries, PanicState(s, rid))
  {
    var t := PanicState(s, rid);
    assert HandlerOk(s, rid) && KeyOk(s, s.handlers[rid].key);
    forall r | r in t.handlers ensures HandlerOk(t, r) {
      assert HandlerOk(s, r);
      assert FlightOk(s, s.handlers[r].epoch) && FlightOk(s, r);
    }
    forall f ensures FlightOk(t, f) {
      assert FlightOk(s, f);
    }
    forall k ensures KeyOk(t, k) {
      assert KeyOk(s, k);
    }
    forall x | x in t.items ensures ItemOk(t, x) {
      assert ItemOk(s, x);
    }
  }

  lemma InvClose(maxEntries: nat, s: System, rid: nat)
    requires maxEntries > 0 && Inv(maxEntries, s)
    ensures Inv(maxEntries, Apply(maxEntries, s, Close(rid)))
  {
    var t := Apply(maxEntries, s, Close(rid));
    forall r | r in t.handlers ensures HandlerOk(t, r) {
      assert HandlerOk(s, r);
      assert FlightOk(s, s.handlers[r].epoch) && FlightOk(s, r);
    }
    forall f ensures FlightOk(t, f) {
      assert FlightOk(s, f);
    }
    forall k ensures KeyOk(t, k) {
      assert KeyOk(s, k);
    }
    forall x | x in t.items ensures ItemOk(t, x) {
      assert ItemOk(s, x);
    }
  }

  lemma InvWake(maxEntries: nat, s: System, rid: nat)
    requires maxEntries > 0 && Inv(maxEntries, s)
    ensures Inv(maxEntries, Apply(maxEntries, s, Wake(rid)))
  {
    var t := Apply(maxEntries, s, Wake(rid));
    if rid in s.handlers {
      assert HandlerOk(s, rid);
      assert HandlerOk(s, s.handlers[rid].epoch) by {
        assert FlightOk(s, s.handlers[rid].epoch);
      }
    }
    forall r | r in t.handlers ensures HandlerOk(t, r) {
      assert HandlerOk(s, r);
      assert FlightOk(s, s.handlers[r].epoch) && FlightOk(s, r);
    }
    forall f ensures FlightOk(t, f) {
      assert FlightOk(s, f);
    }
    forall k ensures KeyOk(t, k) {
      assert KeyOk(s, k);
    }
    forall x | x in t.items ensures ItemOk(t, x) {
      assert ItemOk(s, x);
    }
  }

  lemma InvSweep(maxEntries: nat, s: System, now: int)
    requires maxEntries > 0 && Inv(maxEntries, s)
    ensures Inv(maxEntries, Apply(maxEntries, s, Sweep(now)))
  {
    var t := Apply(maxEntries, s, Sweep(now));
    UnexpiredFrom(s.items, now);
    forall r | r in t.handlers ensures HandlerOk(t, r) {
      assert HandlerOk(s, r);
      assert FlightOk(s, s.handlers[r].epoch) && FlightOk(s, r);
    }
    forall f ensures FlightOk(t, f) {
      assert FlightOk(s, f);
    }
    forall k ensures KeyOk(t, k) {
      assert KeyOk(s, k);
    }
    forall x | x in t.items ensures ItemOk(t, x) {
      assert ItemOk(s, x);
    }
  }

  lemma InvStep(maxEntries: nat, s: System, ev: Event)
    requires maxEntries > 0 && Inv(maxEntries, s)
    ensures Inv(maxEntries, Apply(maxEntries, s, ev))
  {
    hide Inv, Admit, FinishState, PanicState, LiveValue;
    match ev
    case Reserve(rid, key, now) =>
      if rid !in s.handlers {
        if LiveValue(s.items, key, now).Some? {
          InvReplay(maxEntries, s, rid, key, now);
        } else if key in s.inflight {
          InvFollow(maxEntries, s, rid, key, now);
        } else {
          InvLead(maxEntries, s, rid, key, now);
        }
      }
    case Downstream(rid, response) => InvDownstream(maxEntries, s, rid, response);
    case Finish(rid, expiresAt) =>
      if rid in s.handlers && s.handlers[rid].phase.Answered? {
        InvFinish(maxEntries, s, rid, expiresAt);
      }
    case Panic(rid) =>
      if rid in s.handlers {
        InvPanic(maxEntries, s, rid);
      }
    case Close(rid) => InvClose(maxEntries, s, rid);
    case Wake(rid) => InvWake(maxEntries, s, rid);
    case Sweep(now) => InvSweep(maxEntries, s, now);
  }

  lemma {:induction false} InvAlways(maxEntries: nat, log: seq<Event>)
    requires maxEntries > 0
    ensures Inv(maxEntries, Exec(maxEntries, log))
    decreases |log|
  {
    if log != [] {
      InvAlways(maxEntries, log[..|log| - 1]);
      InvStep(maxEntries, Exec(maxEntries, log[..|log| - 1]), log[|log| - 1]);
    }
  }

  // ---------------------------------------------------------------- what every run guarantees

  /** Nobody calls downstream twice: there are as many calls as callers. */
  lemma {:induction false} OneCallEach(maxEntries: nat, log: seq<Event>)
    requires maxEntries > 0
    ensures Exec(maxEntries, log).calls == |Exec(maxEntries, log).ran|
    decreases |log|
  {
    hide Inv, Apply;
    if log == [] {
      ExecNothing(maxEntries);
    } else {
      var past := log[..|log| - 1];
      OneCallEach(maxEntries, past);
      InvAlways(maxEntries, past);
      CallStep(maxEntries, Exec(maxEntries, past), log[|log| - 1]);
    }
  }

  lemma CallStep(maxEntries: nat, s: System, ev: Event)
    requires maxEntries > 0 && Inv(maxEntries, s)
    ensures var t := Apply(maxEntries, s, ev); t.calls - |t.ran| == s.calls - |s.ran|
  {
    hide Inv, HandlerOk, Admit, FinishState, PanicState, Unexpired, Write;
    match ev
    case Reserve(rid, key, now) => AdmitCalls(s, rid, key, now);
    case Finish(rid, expiresAt) => FinishCalls(maxEntries, s, rid, expiresAt);
    case Downstream(rid, response) => AnswerCalls(maxEntries, s, rid, response);
    case Panic(rid) => PanicCalls(maxEntries, s, rid);
    case Close(_) =>
    case Wake(_) =>
    case Sweep(_) =>
  }

  lemma AnswerCalls(maxEntries: nat, s: System, rid: nat, response: Response)
    requires maxEntries > 0 && Inv(maxEntries, s)
    ensures var t := Apply(maxEntries, s, Downstream(rid, response)); t.calls - |t.ran| == s.calls - |s.ran|
  {
    hide Inv;
    NotYet(maxEntries, s, rid);
  }

  lemma PanicCalls(maxEntries: nat, s: System, rid: nat)
    requires Inv(maxEntries, s)
    ensures rid in s.handlers ==> var t := PanicState(s, rid); t.calls - |t.ran| == s.calls - |s.ran|
  {
    hide Inv;
    NotYet(maxEntries, s, rid);
  }

  lemma NotYet(maxEntries: nat, s: System, rid: nat)
    requires Inv(maxEntries, s)
    ensures rid in s.handlers && (s.handlers[rid].phase.Running? || s.handlers[rid].phase.FallThrough?) ==>
              rid !in s.ran
  {
    if rid in s.handlers {
      assert HandlerOk(s, rid);
    }
  }

  lemma AdmitCalls(s: System, rid: nat, key: string, now: int)
    ensures var t := Admit(s, rid, key, now); t.calls == s.calls && t.ran == s.ran
  {
  }

  lemma FinishCalls(maxEntries: nat, s: System, rid: nat, expiresAt: int)
    requires maxEntries > 0
    ensures rid in s.handlers && s.handlers[rid].phase.Answered? ==>
              var t := FinishState(maxEntries, s, rid, expiresAt); t.calls == s.calls && t.ran == s.ran
  {
    hide Write;
  }

  /** The requests admitted under a leader that have called downstream. */
  ghost function Executions(s: System, leader: nat): (r: set<nat>) {
    set r | r in s.ran && r in s.handlers && s.handlers[r].epoch == leader
  }

  /**
   At most once: under a leader that has not aborted only the leader calls downstream, and every request
   that is over got the leader's response; once there is a response, downstream was called exactly once.
   */
  lemma AtMostOnce(maxEntries: nat, log: seq<Event>, leader: nat)
    requires maxEntries > 0
    requires leader in Exec(maxEntries, log).flights && !Aborted(Exec(maxEntries, log), leader)
    ensures var s := Exec(maxEntries, log);
            && Executions(s, leader) <= {leader}
            && (s.flights[leader].result.Some? ==> Executions(s, leader) == {leader})
            && (forall r :: r in s.handlers && s.handlers[r].epoch == leader && s.handlers[r].phase.Finished? ==>
                  s.handlers[r].phase.reply == s.flights[leader].result && s.flights[leader].result.Some?)
  {
    InvAlways(maxEntries, log);
    var s := Exec(maxEntries, log);
    assert FlightOk(s, leader) && HandlerOk(s, leader);
    forall r | r in s.handlers && s.handlers[r].epoch == leader
      ensures r in s.ran ==> r == leader
      ensures s.handlers[r].phase.Finished? ==>
                s.handlers[r].phase.reply == s.flights[leader].result && s.flights[leader].result.Some?
    {
      assert HandlerOk(s, r);
    }
  }

  /**
   No follower is stranded: the flight it waits on is registered with a leader still at work, or closed, or its
   leader's next step closes it.  It is registered or closed exactly if its leader is not between leaving the critical
   section and closing.  A channel about to be closed is open, so none is closed twice.
   */
  lemma NoneStranded(maxEntries: nat, log: seq<Event>, rid: nat)
    requires maxEntries > 0 && rid in Exec(maxEntries, log).handlers
    ensures var s := Exec(maxEntries, log);
            var p := s.handlers[rid].phase;
            && (p.Closing? ==> rid in s.flights && !s.flights[rid].closed)
            && (p.Waiting? ==>
                  && p.flight in s.flights && p.flight in s.handlers && s.flights[p.flight].key == s.handlers[rid].key
                  && var q := s.handlers[p.flight].phase;
                     || (Registered(s, p.flight) && !s.flights[p.flight].closed && (q.Running? || q.Answered?))
                     || (q.Closing? && Apply(maxEntries, s, Close(p.flight)).flights[p.flight].closed)
                     || s.flights[p.flight].closed)
            && (p.Waiting? ==> (Registered(s, p.flight) || s.flights[p.flight].closed
                                <==> !s.handlers[p.flight].phase.Closing?))
  {
    InvAlways(maxEntries, log);
    var s := Exec(maxEntries, log);
    assert HandlerOk(s, rid);
    var f := s.handlers[rid].epoch;
    assert FlightOk(s, f) && HandlerOk(s, f);
  }

  /** In every reachable state a key has at most one flight in progress, and then no stored response. */
  lemma OneFlightPerKey(maxEntries: nat, log: seq<Event>, a: nat, b: nat)
    requires maxEntries > 0
    requires var s := Exec(maxEntries, log); Registered(s, a) && b in s.handlers && b in s.flights
    ensures var s := Exec(maxEntries, log);
            && !Has(s.items, s.flights[a].key)
            && (s.flights[b].key == s.flights[a].key && (s.handlers[b].phase.Running? || s.handlers[b].phase.Answered?)
                ==> a == b)
  {
    InvAlways(maxEntries, log);
    var s := Exec(maxEntries, log);
    assert HandlerOk(s, b) && FlightOk(s, b);
    forall i | 0 <= i < |s.items| ensures s.items[i].key != s.flights[a].key {
      assert s.items[i] in s.items;
      assert ItemOk(s, s.items[i]);
    }
  }

  // ---------------------------------------------------------------- how long a leader stays in charge

  /** The step does not look at the entry after it has expired. */
  predicate Before(ev: Event, e: Entry<string, Response>) {
    && (ev.Sweep? ==> ev.now <= e.expiresAt)
    && (ev.Reserve? && ev.key == e.key ==> ev.now <= e.expiresAt)
  }

  /** The response is stored, with at most `n` younger ones, under the leader that produced it. */
  ghost predicate InCharge(s: System, leader: nat, e: Entry<string, Response>, n: nat) {
    Stored(s.items, e, n) && e.key in s.epochs && s.epochs[e.key] == leader
  }

  /** The step stores a response. */
  predicate Writes(s: System, ev: Event) {
    && ev.Finish? && ev.rid in s.handlers && s.handlers[ev.rid].phase.Answered?
    && Cacheable(s.handlers[ev.rid].phase.response)
  }

  lemma InChargeFinish(maxEntries: nat, s: System, rid: nat, expiresAt: int, leader: nat,
                       e: Entry<string, Response>, n: nat)
    requires maxEntries > 0 && Inv(maxEntries, s) && InCharge(s, leader, e, n) && n + 1 < maxEntries
    requires Writes(s, Finish(rid, expiresAt)) && ItemOk(s, e)
    ensures InCharge(FinishState(maxEntries, s, rid, expiresAt), leader, e, n + 1)
  {
    assert HandlerOk(s, rid);
    hide Write;
    var h := s.handlers[rid];
    StoredAfterWrite(maxEntries, s.items, Entry(h.key, h.phase.response, expiresAt), e, n);
  }

  lemma InChargeStep(maxEntries: nat, s: System, ev: Event, leader: nat, e: Entry<string, Response>, n: nat)
    requires maxEntries > 0 && Inv(maxEntries, s) && InCharge(s, leader, e, n) && Before(ev, e)
    requires Writes(s, ev) ==> n + 1 < maxEntries
    ensures InCharge(Apply(maxEntries, s, ev), leader, e, if Writes(s, ev) then n + 1 else n)
  {
    var i := Rank(s.items, e.key);
    assert s.items[i] in s.items && ItemOk(s, e);
    hide HandlerOk, FlightOk, KeyOk, Bounded, Write, Cacheable;
    assert Bounded(maxEntries, s.items);
    match ev
    case Reserve(rid, key, now) => StoredDropped(s.items, key, now, e, n);
    case Finish(rid, expiresAt) =>
      if Writes(s, ev) {
        InChargeFinish(maxEntries, s, rid, expiresAt, leader, e, n);
      }
    case Sweep(now) => StoredUnexpired(s.items, now, e, n);
    case Downstream(_, _) =>
    case Panic(_) =>
    case Close(_) =>
    case Wake(_) =>
  }

  /** How many responses are stored between two positions of a run. */
  function StoredWrites(maxEntries: nat, log: seq<Event>, a: nat, b: nat): (n: nat)
    requires maxEntries > 0 && a <= b <= |log|
    decreases b
  {
    if a == b then 0
    else StoredWrites(maxEntries, log, a, b - 1) + (if Writes(Exec(maxEntries, log[..b - 1]), log[b - 1]) then 1 else 0)
  }

  lemma {:induction false} StaysInCharge(maxEntries: nat, log: seq<Event>, a: nat, b: nat, leader: nat,
                                         e: Entry<string, Response>)
    requires maxEntries > 0 && a <= b <= |log|
    requires InCharge(Exec(maxEntries, log[..a]), leader, e, 0)
    requires forall m :: a <= m < b ==> Before(log[m], e)
    requires StoredWrites(maxEntries, log, a, b) < maxEntries
    ensures InCharge(Exec(maxEntries, log[..b]), leader, e, StoredWrites(maxEntries, log, a, b))
    decreases b
  {
    hide InCharge, Inv, Apply, Before, Writes;
    if a < b {
      StaysInCharge(maxEntries, log, a, b - 1, leader, e);
      var past := log[..b - 1];
      assert log[..b][..b - 1] == past && log[..b][b - 1] == log[b - 1];
      InvAlways(maxEntries, past);
      InChargeStep(maxEntries, Exec(maxEntries, past), log[b - 1], leader, e, StoredWrites(maxEntries, log, a, b - 1));
    }
  }

  /**
   From the moment a leader finishes with a cacheable response until that expires, and as long as fewer than
   `maxEntries` further responses are stored, every new request with the key replays that very response.
   */
  lemma ReplayedUntilExpiredOrEvicted(maxEntries: nat, log: seq<Event>, a: nat, b: nat)
    requires maxEntries > 0 && a < b < |log| && log[a].Finish?
    requires var s := Exec(maxEntries, log[..a]);
             && log[a].rid in s.handlers && s.handlers[log[a].rid].phase.Answered?
             && s.handlers[log[a].rid].phase.response.status < 500
             && |s.handlers[log[a].rid].phase.response.body| <= 262144
             && log[b].Reserve? && log[b].key == s.handlers[log[a].rid].key
             && (forall m :: a < m <= b ==>
                   Before(log[m], Entry(s.handlers[log[a].rid].key, s.handlers[log[a].rid].phase.response,
                                        log[a].expiresAt)))
    requires StoredWrites(maxEntries, log, a + 1, b) < maxEntries
    requires log[b].rid !in Exec(maxEntries, log[..b]).handlers
    ensures var h := Exec(maxEntries, log[..a]).handlers[log[a].rid];
            var t := Exec(maxEntries, log[..b + 1]);
            && log[b].rid in t.handlers
            && t.handlers[log[b].rid] == Handler(h.key, log[a].rid, Finished(Some(h.phase.response)))
            && t.epochs == Exec(maxEntries, log[..b]).epochs
  {
    hide Inv, InCharge, Apply;
    var rid := log[a].rid;
    var s := Exec(maxEntries, log[..a]);
    var h := s.handlers[rid];
    var e := Entry(h.key, h.phase.response, log[a].expiresAt);
    assert log[..a + 1][..a] == log[..a] && log[..b + 1][..b] == log[..b];
    InvAlways(maxEntries, log[..a]);
    FinishTakesCharge(maxEntries, s, rid, log[a].expiresAt);
    StaysInCharge(maxEntries, log, a + 1, b, rid, e);
    InvAlways(maxEntries, log[..b]);
    InChargeReplays(maxEntries, Exec(maxEntries, log[..b]), rid, e, StoredWrites(maxEntries, log, a + 1, b), log[b]);
  }

  lemma FinishTakesCharge(maxEntries: nat, s: System, rid: nat, expiresAt: int)
    requires maxEntries > 0 && Inv(maxEntries, s) && rid in s.handlers && s.handlers[rid].phase.Answered?
    requires Cacheable(s.handlers[rid].phase.response)
    ensures var h := s.handlers[rid];
            InCharge(Apply(maxEntries, s, Finish(rid, expiresAt)), rid, Entry(h.key, h.phase.response, expiresAt), 0)
  {
    hide Write;
    var h := s.handlers[rid];
    assert HandlerOk(s, rid) && KeyOk(s, h.key);
    StoredByWrite(maxEntries, s.items, Entry(h.key, h.phase.response, expiresAt));
  }

  lemma InChargeReplays(maxEntries: nat, s: System, leader: nat, e: Entry<string, Response>, n: nat, ev: Event)
    requires maxEntries > 0 && InCharge(s, leader, e, n)
    requires ev.Reserve? && ev.key == e.key && ev.now <= e.expiresAt && ev.rid !in s.handlers
    ensures var t := Apply(maxEntries, s, ev);
            && ev.rid in t.handlers && t.handlers[ev.rid] == Handler(e.key, leader, Finished(Some(e.value)))
            && t.epochs == s.epochs
  {
  }

  // ---------------------------------------------------------------- what does not hold

  /** One request leads a key and another follows it. */
  const Join: seq<Event> := [Reserve(0, "k", 0)] + [Reserve(1, "k", 0)]

  const Joined: System :=
    System([], map["k" := 0], map[0 := FlightState("k", false, None)],
           map[0 := Handler("k", 0, Running), 1 := Handler("k", 0, Waiting(0))], map["k" := 0], {}, 0)

  lemma JoinReached()
    ensures Exec(1, Join) == Joined
  {
    hide Exec, Unexpired, Write;
    ExecNothing(1);
    var s1 := Joined.(handlers := map[0 := Handler("k", 0, Running)]);
    assert Apply(1, Initial, Reserve(0, "k", 0)) == s1;
    assert Apply(1, s1, Reserve(1, "k", 0)) == Joined;
    ExecSnoc(1, [], Reserve(0, "k", 0));
    ExecSnoc(1, [Reserve(0, "k", 0)], Reserve(1, "k", 0));
    assert [] + [Reserve(0, "k", 0)] == [Reserve(0, "k", 0)];
  }

  /**
   While a leader is between leaving the critical section and closing, a follower's flight is neither registered
   nor closed.
   */
  lemma UnregisteredBeforeClosed(r: Response)
    ensures var s := Exec(1, Join + [Downstream(0, r)] + [Finish(0, 0)]);
            && At(s, 1) == Some(Waiting(0))
            && !Registered(s, 0) && 0 in s.flights && !s.flights[0].closed
  {
    hide Exec, Unexpired, Write;
    JoinReached();
    ExecSnoc(1, Join, Downstream(0, r));
    ExecSnoc(1, Join + [Downstream(0, r)], Finish(0, 0));
    var s := Apply(1, Joined, Downstream(0, r));
    assert s.handlers == map[0 := Handler("k", 0, Answered(r)), 1 := Handler("k", 0, Waiting(0))];
  }

  lemma ExecNothing(maxEntries: nat)
    requires maxEntries > 0
    ensures Exec(maxEntries, []) == Initial
  {
  }

  lemma ExecSnoc(maxEntries: nat, log: seq<Event>, ev: Event)
    requires maxEntries > 0
    ensures Exec(maxEntries, log + [ev]) == Apply(maxEntries, Exec(maxEntries, log), ev)
  {
    assert (log + [ev])[..|log|] == log;
  }
}
