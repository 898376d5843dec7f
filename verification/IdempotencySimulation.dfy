/**
 The store and the protocol: each critical section of the store, with the closing of a channel that follows it, is the
 corresponding step or two of the transition system, for the same entries, reservations and flights.
 */
module IdempotencySimulation {
  import opened Recency
  import opened Elements
  import opened Fifo
  import opened IdempotencyStore
  import IR = IdempotencyRuns

  /** The same entries and reservations; `flights` says which object each named flight is. */
  ghost predicate Same(items: seq<Entry<string, Response>>, inflight: map<string, Flight>, flights: map<nat, Flight>,
                       s: IR.System)
  {
    && items == s.items && inflight.Keys == s.inflight.Keys && flights.Keys == s.flights.Keys
    && (forall k :: k in s.inflight ==> s.inflight[k] in flights && flights[s.inflight[k]] == inflight[k])
    && (forall f, g :: f in flights && g in flights && f != g ==> flights[f] != flights[g])
  }

  /** The flights are in the same state. */
  ghost predicate Marked(flights: map<nat, Flight>, s: IR.System)
    reads flights.Values
  {
    forall f :: f in flights && f in s.flights ==>
      flights[f].closed == s.flights[f].closed && flights[f].result == s.flights[f].result
  }

  ghost predicate Related(store: Store, s: IR.System, flights: map<nat, Flight>)
    reads store, store.order, flights.Values
  {
    Same(store.Items(), store.inflight, flights, s) && Marked(flights, s)
  }

  lemma SameAdmit(items: seq<Entry<string, Response>>, inflight: map<string, Flight>, flights: map<nat, Flight>,
                  s: IR.System, rid: nat, key: string, now: int)
    requires Same(items, inflight, flights, s) && (LiveValue(items, key, now).Some? || key in inflight)
    ensures var t := IR.Admit(s, rid, key, now);
            Same(Dropped(items, key, now), inflight, flights, t) && t.flights == s.flights
  {
    hide Dropped, LiveValue;
  }

  lemma SameLead(items: seq<Entry<string, Response>>, inflight: map<string, Flight>, flights: map<nat, Flight>,
                 s: IR.System, rid: nat, key: string, now: int, f: Flight)
    requires Same(items, inflight, flights, s) && LiveValue(items, key, now).None? && key !in inflight
    requires rid !in s.flights && f !in flights.Values
    ensures var t := IR.Admit(s, rid, key, now);
            && t.flights == s.flights[rid := IR.FlightState(key, false, None)]
            && Same(Dropped(items, key, now), inflight[key := f], flights[rid := f], t)
  {
    hide Dropped, LiveValue;
  }

  /** What is left when a leader at work has gone. */
  lemma SameReleased(items: seq<Entry<string, Response>>, inflight: map<string, Flight>, flights: map<nat, Flight>,
                     s: IR.System, t: IR.System, key: string)
    requires Same(items, inflight, flights, s)
    requires t.inflight == s.inflight - {key} && t.flights.Keys == s.flights.Keys
    ensures Same(t.items, inflight - {key}, flights, t)
  {
  }

  lemma NewRequest(maxEntries: nat, s: IR.System, rid: nat)
    requires IR.Inv(maxEntries, s) && rid !in s.handlers
    ensures rid !in s.flights
  {
    assert IR.FlightOk(s, rid);
  }

  /** A leader at work has its key registered. */
  lemma AtWork(maxEntries: nat, s: IR.System, rid: nat)
    requires IR.Inv(maxEntries, s) && rid in s.handlers
    requires s.handlers[rid].phase.Running? || s.handlers[rid].phase.Answered?
    ensures var key := s.handlers[rid].key;
            && rid in s.flights && s.flights[rid].key == key && key in s.inflight && s.inflight[key] == rid
            && s.flights[rid].result.None?
  {
    assert IR.HandlerOk(s, rid);
  }

  /** Admission: the same request leads, follows the same flight, or replays the same response. */
  method ReserveStep(store: Store, ghost s: IR.System, ghost flights: map<nat, Flight>, ghost rid: nat,
                     key: string, now: int)
    returns (a: Admission, ghost named: map<nat, Flight>)
    requires store.Valid() && Related(store, s, flights) && IR.Inv(store.maxEntries, s) && rid !in s.handlers
    modifies store`elems, store`order, store`inflight
    ensures store.Valid() && Related(store, IR.Admit(s, rid, key, now), named)
    ensures var p := IR.Admit(s, rid, key, now).handlers[rid].phase;
            match a
            case Replay(r) => p == IR.Finished(Some(r)) && named == flights
            case Follow(f) => p.Waiting? && named == flights && p.flight in named && named[p.flight] == f
            case Lead(f) => p == IR.Running && named == flights[rid := f]
  {
    hide Linked, View, Dropped, LiveValue, IR.Inv, Same, IR.Admit;
    NewRequest(store.maxEntries, s, rid);
    Phases(store.Items(), store.inflight, flights, s, rid, key, now);
    ghost var entries, inflight := store.Items(), store.inflight;
    a := store.Reserve(key, now);
    named := if a.Lead? then flights[rid := a.leader] else flights;
    if a.Lead? {
      assert a.leader !in flights.Values;
      SameLead(entries, inflight, flights, s, rid, key, now, a.leader);
      assert store.inflight[key] == a.leader && !a.leader.closed && a.leader.result.None?;
    } else {
      SameAdmit(entries, inflight, flights, s, rid, key, now);
    }
  }

  lemma Phases(items: seq<Entry<string, Response>>, inflight: map<string, Flight>, flights: map<nat, Flight>,
               s: IR.System, rid: nat, key: string, now: int)
    requires Same(items, inflight, flights, s)
    ensures var h := IR.Admit(s, rid, key, now).handlers;
            && rid in h
            && (LiveValue(items, key, now).Some? ==>
                  h[rid].phase == IR.Finished(Some(LiveValue(items, key, now).value)))
            && (LiveValue(items, key, now).None? && key in inflight ==>
                  && h[rid].phase.Waiting? && h[rid].phase.flight in flights
                  && flights[h[rid].phase.flight] == inflight[key])
            && (LiveValue(items, key, now).None? && key !in inflight ==> h[rid].phase == IR.Running)
  {
    hide Dropped, LiveValue;
  }

  /** A leader's result: leaving the critical section, then closing the channel. */
  method FinishStep(store: Store, ghost s: IR.System, ghost flights: map<nat, Flight>, ghost rid: nat,
                    key: string, fl: Flight, response: Response, now: int)
    requires store.Valid() && Related(store, s, flights) && IR.Inv(store.maxEntries, s)
    requires rid in s.handlers && s.handlers[rid].phase == IR.Answered(response) && s.handlers[rid].key == key
    requires rid in flights && flights[rid] == fl
    modifies store`elems, store`order, store`inflight, fl
    ensures store.Valid()
    ensures var t := IR.FinishState(store.maxEntries, s, rid, now + store.ttl);
            Related(store, Closed(store.maxEntries, t, rid), flights)
    ensures Has(store.Items(), key) <==> response.status < 500 && |response.body| <= 262144
    ensures Has(store.Items(), key) ==>
              store.Items()[Rank(store.Items(), key)] == Entry(key, response, now + store.ttl)
    ensures fl.closed && fl.result == Some(response)
  {
    hide Linked, View, Write, Cacheable, IR.Inv, Same, IR.FinishState, IR.Apply;
    var expiresAt := now + store.ttl;
    AtWork(store.maxEntries, s, rid);
    ghost var t := Closed(store.maxEntries, IR.FinishState(store.maxEntries, s, rid, expiresAt), rid);
    FinishedState(store.maxEntries, s, rid, expiresAt);
    FinishedHas(store.maxEntries, s, rid, expiresAt);
    SameReleased(store.Items(), store.inflight, flights, s, t, key);
    FlightOf(store.Items(), store.inflight, flights, s, key, rid);
    store.FinishLeader(key, fl, response, expiresAt, Cacheable(response));
  }

  lemma FlightOf(items: seq<Entry<string, Response>>, inflight: map<string, Flight>, flights: map<nat, Flight>,
                 s: IR.System, key: string, rid: nat)
    requires Same(items, inflight, flights, s) && key in s.inflight && s.inflight[key] == rid
    ensures items == s.items && key in inflight && rid in flights && inflight[key] == flights[rid]
    ensures forall f :: f in flights && f != rid ==> flights[f] != flights[rid]
  {
  }

  lemma FinishedState(maxEntries: nat, s: IR.System, rid: nat, expiresAt: int)
    requires maxEntries > 0 && IR.Inv(maxEntries, s) && rid in s.handlers && s.handlers[rid].phase.Answered?
    ensures var h := s.handlers[rid];
            var t := Closed(maxEntries, IR.FinishState(maxEntries, s, rid, expiresAt), rid);
            && t.inflight == s.inflight - {h.key} && rid in s.flights
            && t.flights == s.flights[rid := IR.FlightState(h.key, true, Some(h.phase.response))]
            && t.items == if Cacheable(h.phase.response)
                          then Write(maxEntries, s.items, Entry(h.key, h.phase.response, expiresAt)) else s.items
  {
    AtWork(maxEntries, s, rid);
    hide Write, Cacheable, IR.Inv;
  }

  /** A finished leader has left a response for its key exactly if that is no server error and not too large. */
  lemma FinishedHas(maxEntries: nat, s: IR.System, rid: nat, expiresAt: int)
    requires maxEntries > 0 && IR.Inv(maxEntries, s) && rid in s.handlers && s.handlers[rid].phase.Answered?
    ensures var h := s.handlers[rid];
            var t := Closed(maxEntries, IR.FinishState(maxEntries, s, rid, expiresAt), rid);
            && (Has(t.items, h.key) <==> h.phase.response.status < 500 && |h.phase.response.body| <= 262144)
            && (Has(t.items, h.key) ==> t.items[Rank(t.items, h.key)] == Entry(h.key, h.phase.response, expiresAt))
  {
    var h := s.handlers[rid];
    AtWork(maxEntries, s, rid);
    FinishedState(maxEntries, s, rid, expiresAt);
    WriteBounded(maxEntries, s.items, Entry(h.key, h.phase.response, expiresAt));
    StoredByWrite(maxEntries, s.items, Entry(h.key, h.phase.response, expiresAt));
    forall i | 0 <= i < |s.items| ensures s.items[i].key != h.key {
      assert s.items[i] in s.items;
      assert IR.ItemOk(s, s.items[i]);
    }
    hide IR.Inv, Write, IR.FinishState, IR.Apply;
  }

  lemma AbortedState(maxEntries: nat, s: IR.System, rid: nat)
    requires maxEntries > 0 && IR.Inv(maxEntries, s) && rid in s.handlers && s.handlers[rid].phase.Running?
    ensures var t := Closed(maxEntries, IR.PanicState(s, rid), rid);
            && t.inflight == s.inflight - {s.handlers[rid].key} && rid in s.flights
            && t.flights == s.flights[rid := s.flights[rid].(closed := true)] && t.items == s.items
  {
    AtWork(maxEntries, s, rid);
    hide IR.Inv;
  }

  /** A leader that panics: releasing the reservation, then closing the channel. */
  method AbortStep(store: Store, ghost s: IR.System, ghost flights: map<nat, Flight>, ghost rid: nat, key: string,
                   fl: Flight)
    requires store.Valid() && Related(store, s, flights) && IR.Inv(store.maxEntries, s)
    requires rid in s.handlers && s.handlers[rid].phase == IR.Running && s.handlers[rid].key == key
    requires rid in flights && flights[rid] == fl
    modifies store`inflight, fl`closed
    ensures store.Valid() && Related(store, Closed(store.maxEntries, IR.PanicState(s, rid), rid), flights)
  {
    hide Linked, View, IR.Inv, Same, IR.PanicState, IR.Apply;
    AtWork(store.maxEntries, s, rid);
    ghost var t := Closed(store.maxEntries, IR.PanicState(s, rid), rid);
    AbortedState(store.maxEntries, s, rid);
    SameReleased(store.Items(), store.inflight, flights, s, t, key);
    FlightOf(store.Items(), store.inflight, flights, s, key, rid);
    store.AbortLeader(key, fl);
  }

  /** One pass of the collector. */
  method SweepStep(store: Store, ghost s: IR.System, ghost flights: map<nat, Flight>, now: int)
    requires store.Valid() && Related(store, s, flights)
    modifies store`elems, store`order
    ensures store.Valid() && Related(store, IR.Apply(store.maxEntries, s, IR.Sweep(now)), flights)
  {
    hide Linked, View, Unexpired;
    store.Sweep(now);
  }

  /** The state after the leader has closed its channel. */
  function Closed(maxEntries: nat, s: IR.System, rid: nat): (r: IR.System)
    requires maxEntries > 0
  {
    IR.Apply(maxEntries, s, IR.Close(rid))
  }
}
