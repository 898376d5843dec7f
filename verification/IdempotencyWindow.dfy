/**
 At-most-once for a key: the window that a leader's admission opens, what closes it, what happens within it, and
 exactly which requests call downstream.
 */
module IdempotencyWindow {
  import opened Recency
  import opened Fifo
  import opened IdempotencyStore
  import opened IdempotencyRuns

  // ---------------------------------------------------------------- who calls downstream

  /**
   Exactly who has called downstream in a run: the leaders whose call is over, and the followers of an aborted leader
   that are over.  The leader named here is one of the caller's own key.
   */
  lemma CallersExactly(maxEntries: nat, log: seq<Event>, r: nat)
    requires maxEntries > 0
    ensures var s := Exec(maxEntries, log);
            && (r in s.ran <==>
                  r in s.handlers &&
                  var h := s.handlers[r];
                  if h.epoch == r then !h.phase.Running? else h.phase.Finished? && Aborted(s, h.epoch))
            && (r in s.ran ==>
                  var f := s.handlers[r].epoch; f in s.flights && s.flights[f].key == s.handlers[r].key)
  {
    InvAlways(maxEntries, log);
    var s := Exec(maxEntries, log);
    if r in s.handlers {
      assert HandlerOk(s, r);
    }
  }

  // ---------------------------------------------------------------- the window

  predicate Working(s: System, leader: nat) {
    leader in s.handlers && (s.handlers[leader].phase.Running? || s.handlers[leader].phase.Answered?)
  }

  /** The leader is at work, or the response for its key is stored. */
  predicate Held(s: System, leader: nat, key: string) {
    Working(s, leader) || Has(s.items, key)
  }

  ghost predicate Leads(s: System, leader: nat, key: string) {
    && leader in s.handlers && leader in s.flights && s.flights[leader].key == key
    && key in s.epochs && s.epochs[key] == leader
  }

  /** The step admits the request as the leader of its key. */
  ghost predicate LeadsFrom(maxEntries: nat, log: seq<Event>, a: nat, leader: nat, key: string)
    requires maxEntries > 0 && a < |log|
  {
    && log[a].Reserve? && log[a].rid == leader && log[a].key == key
    && leader !in Exec(maxEntries, log[..a]).handlers && leader in Exec(maxEntries, log[..a + 1]).flights
  }

  /** No step forgets a request or a call, or changes a request's key or epoch. */
  ghost predicate Grown(s: System, t: System) {
    && s.ran <= t.ran
    && forall r :: r in s.handlers ==>
         r in t.handlers && t.handlers[r].key == s.handlers[r].key && t.handlers[r].epoch == s.handlers[r].epoch
  }

  lemma StepGrows(maxEntries: nat, s: System, ev: Event)
    requires maxEntries > 0
    ensures Grown(s, Apply(maxEntries, s, ev))
  {
    hide Dropped, Unexpired, FinishState, PanicState, Admit;
    match ev
    case Reserve(rid, key, now) => AdmitGrows(s, rid, key, now);
    case Finish(rid, expiresAt) => FinishGrows(maxEntries, s, rid, expiresAt);
    case Panic(rid) => PanicGrows(s, rid);
    case Downstream(_, _) =>
    case Close(_) =>
    case Wake(_) =>
    case Sweep(_) =>
  }

  lemma AdmitGrows(s: System, rid: nat, key: string, now: int)
    ensures rid !in s.handlers ==> Grown(s, Admit(s, rid, key, now))
  {
    hide Dropped, LiveValue;
  }

  lemma FinishGrows(maxEntries: nat, s: System, rid: nat, expiresAt: int)
    requires maxEntries > 0
    ensures rid in s.handlers && s.handlers[rid].phase.Answered? ==>
              Grown(s, FinishState(maxEntries, s, rid, expiresAt))
  {
    hide Write, Cacheable;
  }

  lemma PanicGrows(s: System, rid: nat)
    ensures rid in s.handlers ==> Grown(s, PanicState(s, rid))
  {
  }

  /** Admission as a leader: nothing was stored or in flight for the key, and the request is in charge of it. */
  lemma LeadBegins(maxEntries: nat, s: System, leader: nat, key: string, now: int)
    requires maxEntries > 0 && Inv(maxEntries, s)
    requires leader !in s.handlers && leader in Admit(s, leader, key, now).flights
    ensures Leads(Admit(s, leader, key, now), leader, key) && key !in s.inflight
    ensures forall r :: r in Admit(s, leader, key, now).handlers && r !in s.handlers ==> r == leader
    ensures Admit(s, leader, key, now).handlers[leader].epoch == leader
  {
    hide Dropped;
    assert FlightOk(s, leader);
  }

  /** While the window stays open, the leader stays in charge and admits every new request for the key. */
  lemma WindowStep(maxEntries: nat, s: System, ev: Event, leader: nat, key: string)
    requires maxEntries > 0 && Inv(maxEntries, s) && Leads(s, leader, key) && Held(s, leader, key)
    requires Held(Apply(maxEntries, s, ev), leader, key)
    ensures var t := Apply(maxEntries, s, ev);
            && Leads(t, leader, key)
            && forall r :: r in t.handlers && r !in s.handlers && t.handlers[r].key == key ==>
                  t.handlers[r].epoch == leader
  {
    assert FlightOk(s, leader);
    hide Unexpired, Write, Has, Cacheable, Inv, Admit;
    if ev.Reserve? && ev.rid !in s.handlers {
      WindowReserve(maxEntries, s, ev.rid, ev.key, ev.now, leader, key);
      AdmitsOne(s, ev.rid, ev.key, ev.now);
    }
  }

  lemma AdmitsOne(s: System, rid: nat, key: string, now: int)
    ensures var h := Admit(s, rid, key, now).handlers;
            rid in h && h[rid].key == key && forall r :: r in h ==> r == rid || r in s.handlers
  {
  }

  lemma WindowReserve(maxEntries: nat, s: System, rid: nat, k: string, now: int, leader: nat, key: string)
    requires maxEntries > 0 && Inv(maxEntries, s) && Leads(s, leader, key) && rid !in s.handlers
    requires Held(Admit(s, rid, k, now), leader, key)
    ensures var t := Admit(s, rid, k, now);
            && Leads(t, leader, key) && (k == key ==> t.handlers[rid].epoch == leader)
  {
    assert HandlerOk(s, leader) && FlightOk(s, leader) && KeyOk(s, key);
    DroppedBounded(maxEntries, s.items, k, now);
    hide Dropped, LiveValue, Has;
  }

  lemma {:induction false} Window(maxEntries: nat, log: seq<Event>, a: nat, b: nat, leader: nat, key: string)
    requires maxEntries > 0 && a < b <= |log| && LeadsFrom(maxEntries, log, a, leader, key)
    requires forall m :: a < m <= b ==> Held(Exec(maxEntries, log[..m]), leader, key)
    ensures var s0, s := Exec(maxEntries, log[..a]), Exec(maxEntries, log[..b]);
            && Leads(s, leader, key) && Grown(s0, s)
            && forall r :: r in s.handlers && r !in s0.handlers && s.handlers[r].key == key ==>
                  s.handlers[r].epoch == leader
    decreases b
  {
    hide Inv, Held, Admit, Leads, FinishState, PanicState;
    var past := log[..b - 1];
    var p := Exec(maxEntries, past);
    assert log[..b][..b - 1] == past;
    InvAlways(maxEntries, past);
    StepGrows(maxEntries, p, log[b - 1]);
    if b == a + 1 {
      LeadBegins(maxEntries, p, leader, key, log[a].now);
    } else {
      Window(maxEntries, log, a, b - 1, leader, key);
      WindowStep(maxEntries, p, log[b - 1], leader, key);
    }
  }

  /** While the window is open the leader has not aborted. */
  lemma HeldNotAborted(maxEntries: nat, s: System, leader: nat, key: string)
    requires Inv(maxEntries, s) && Leads(s, leader, key) && Held(s, leader, key)
    ensures !Aborted(s, leader)
  {
    if Has(s.items, key) {
      assert s.items[Rank(s.items, key)] in s.items;
      assert ItemOk(s, s.items[Rank(s.items, key)]);
    }
  }

  /** The requests for the key that were admitted between two states. */
  ghost predicate Since(s0: System, s: System, r: nat, key: string) {
    r in s.handlers && r !in s0.handlers && s.handlers[r].key == key
  }

  /** The request was admitted under the leader, runs only if it is the leader, and is over only with its response. */
  ghost predicate Served(s: System, r: nat, leader: nat)
    requires r in s.handlers && leader in s.flights
  {
    && s.handlers[r].epoch == leader
    && (r in s.ran ==> r == leader)
    && (s.handlers[r].phase.Finished? ==>
          s.flights[leader].result.Some? && s.handlers[r].phase.reply == s.flights[leader].result)
  }

  /** The request follows a leader of the key that has aborted, and has not called downstream yet. */
  ghost predicate Pending(s: System, r: nat, key: string) {
    && r in s.handlers && s.handlers[r].key == key && s.handlers[r].epoch != r
    && Aborted(s, s.handlers[r].epoch) && (s.handlers[r].phase.Waiting? || s.handlers[r].phase.FallThrough?)
  }

  /** The request has called downstream for the key between two states. */
  ghost predicate CalledSince(s0: System, s: System, r: nat, key: string) {
    r in s.ran && r !in s0.ran && r in s.handlers && s.handlers[r].key == key
  }

  /**
   At most once for a key.  From a leader's admission on, as long as it is at work or its response is stored: every
   request for the key is admitted under it, it alone of these calls downstream, and all of them that are over got its
   response.  Any other call for the key in the window is by a request that was pending when the leader was admitted.
   */
  lemma AtMostOnceForKey(maxEntries: nat, log: seq<Event>, a: nat, b: nat, leader: nat, key: string)
    requires maxEntries > 0 && a < b <= |log| && LeadsFrom(maxEntries, log, a, leader, key)
    requires forall m :: a < m <= b ==> Held(Exec(maxEntries, log[..m]), leader, key)
    ensures var s0, s := Exec(maxEntries, log[..a]), Exec(maxEntries, log[..b]);
            && leader in s.flights && (s.flights[leader].result.Some? ==> leader in s.ran)
            && (forall r :: Since(s0, s, r, key) ==> Served(s, r, leader))
            && (forall r :: CalledSince(s0, s, r, key) ==> r == leader || Pending(s0, r, key))
  {
    var s0, s := Exec(maxEntries, log[..a]), Exec(maxEntries, log[..b]);
    Window(maxEntries, log, a, b, leader, key);
    InvAlways(maxEntries, log[..b]);
    HeldNotAborted(maxEntries, s, leader, key);
    hide Inv, Held, Exec;
    AtMostOnce(maxEntries, log[..b], leader);
    assert s.flights[leader].result.Some? ==> leader in Executions(s, leader);
    forall r | Since(s0, s, r, key) ensures Served(s, r, leader) {
      assert r in s.ran ==> r in Executions(s, leader);
    }
    forall r | CalledSince(s0, s, r, key) && r != leader ensures Pending(s0, r, key) {
      assert r !in s0.handlers ==> Since(s0, s, r, key);
      EarlierCaller(maxEntries, log, a, b, leader, key, r);
    }
  }

  /** A result once set stays set. */
  lemma ResultStep(maxEntries: nat, s: System, ev: Event, f: nat)
    requires maxEntries > 0 && Inv(maxEntries, s) && f in s.flights && s.flights[f].result.Some?
    ensures var t := Apply(maxEntries, s, ev); f in t.flights && t.flights[f].result == s.flights[f].result
  {
    assert FlightOk(s, f) && HandlerOk(s, f);
    hide Inv, Write, Dropped, Unexpired, LiveValue, Registered, Cacheable;
  }

  lemma {:induction false} ResultStays(maxEntries: nat, log: seq<Event>, a: nat, b: nat, f: nat)
    requires maxEntries > 0 && a <= b <= |log|
    requires var s := Exec(maxEntries, log[..a]); f in s.flights && s.flights[f].result.Some?
    ensures var s, t := Exec(maxEntries, log[..a]), Exec(maxEntries, log[..b]);
            f in t.flights && t.flights[f].result == s.flights[f].result
    decreases b
  {
    hide Inv, Apply;
    if a < b {
      ResultStays(maxEntries, log, a, b - 1, f);
      assert log[..b][..b - 1] == log[..b - 1];
      InvAlways(maxEntries, log[..b - 1]);
      ResultStep(maxEntries, Exec(maxEntries, log[..b - 1]), log[b - 1], f);
    }
  }

  /** A request admitted before the leader that calls after it was pending: its own leader had aborted by then. */
  lemma EarlierCaller(maxEntries: nat, log: seq<Event>, a: nat, b: nat, leader: nat, key: string, r: nat)
    requires maxEntries > 0 && a < b <= |log| && LeadsFrom(maxEntries, log, a, leader, key)
    requires var s0, s := Exec(maxEntries, log[..a]), Exec(maxEntries, log[..b]);
             Grown(s0, s) && r in s0.handlers && CalledSince(s0, s, r, key)
    ensures Pending(Exec(maxEntries, log[..a]), r, key)
  {
    hide Exec, Apply;
    var s0, s := Exec(maxEntries, log[..a]), Exec(maxEntries, log[..b]);
    var e := s0.handlers[r].epoch;
    CallersExactly(maxEntries, log[..b], r);
    AtAdmission(maxEntries, log, a, leader, key, r);
    if e in s0.flights && s0.flights[e].result.Some? {
      ResultStays(maxEntries, log, a, b, e);
    }
  }

  /**
   When a leader is admitted, every earlier request for the key has called, is pending, or belongs to a leader that
   has its result.
   */
  lemma AtAdmission(maxEntries: nat, log: seq<Event>, a: nat, leader: nat, key: string, r: nat)
    requires maxEntries > 0 && a < |log| && LeadsFrom(maxEntries, log, a, leader, key)
    ensures var s0 := Exec(maxEntries, log[..a]);
            r in s0.handlers && s0.handlers[r].key == key ==>
              var e := s0.handlers[r].epoch;
              r in s0.ran || Pending(s0, r, key) || (e != r && e in s0.flights && s0.flights[e].result.Some?)
  {
    var s0 := Exec(maxEntries, log[..a]);
    assert log[..a + 1][..a] == log[..a];
    InvAlways(maxEntries, log[..a]);
    LeadBegins(maxEntries, s0, leader, key, log[a].now);
    if r in s0.handlers {
      assert HandlerOk(s0, r);
      assert FlightOk(s0, s0.handlers[r].epoch) && HandlerOk(s0, s0.handlers[r].epoch);
    }
  }

  // ---------------------------------------------------------------- what closes the window

  predicate ExpiredAt(s: System, key: string, now: int) {
    Has(s.items, key) && now > s.items[Rank(s.items, key)].expiresAt
  }

  /**
   The leader panics or finishes with a response that is not stored; the stored one is looked at after it expired; or
   it is the oldest of a full store when another key's response is stored.
   */
  predicate Ends(maxEntries: nat, s: System, ev: Event, leader: nat, key: string) {
    match ev
    case Panic(rid) => rid == leader && At(s, leader) == Some(Running)
    case Finish(rid, _) =>
      && rid in s.handlers && s.handlers[rid].phase.Answered?
      && var response := s.handlers[rid].phase.response;
         if rid == leader then response.status >= 500 || |response.body| > 262144
         else
           && response.status < 500 && |response.body| <= 262144 && Has(s.items, key)
           && !Has(s.items, s.handlers[rid].key) && |s.items| == maxEntries && s.items[0].key == key
    case Sweep(now) => ExpiredAt(s, key, now)
    case Reserve(rid, k, now) => k == key && rid !in s.handlers && ExpiredAt(s, key, now)
    case _ => false
  }

  /** Nothing else closes the window, and each of these does. */
  lemma WindowEndsExactly(maxEntries: nat, s: System, ev: Event, leader: nat, key: string)
    requires maxEntries > 0 && Inv(maxEntries, s) && Leads(s, leader, key) && Held(s, leader, key)
    ensures !Held(Apply(maxEntries, s, ev), leader, key) <==> Ends(maxEntries, s, ev, leader, key)
  {
    hide Inv, Admit, FinishState, Unexpired, Leads, Has, Rank, Cacheable, Working;
    HeldEither(maxEntries, s, leader, key);
    match ev
    case Reserve(rid, k, now) =>
      if rid !in s.handlers {
        EndsReserve(maxEntries, s, rid, k, now, leader, key);
      }
    case Finish(rid, expiresAt) =>
      if rid in s.handlers && s.handlers[rid].phase.Answered? {
        EndsFinish(maxEntries, s, rid, expiresAt, leader, key);
      }
    case Sweep(now) => EndsSweep(s, now, leader, key);
    case Panic(rid) => EndsPanic(s, rid, leader, key);
    case Downstream(_, _) => EndsOther(maxEntries, s, ev, leader, key);
    case Close(_) => EndsOther(maxEntries, s, ev, leader, key);
    case Wake(_) => EndsOther(maxEntries, s, ev, leader, key);
  }

  lemma EndsSweep(s: System, now: int, leader: nat, key: string)
    requires Distinct(s.items) && (Working(s, leader) ==> !Has(s.items, key)) && Held(s, leader, key)
    ensures !Held(s.(items := Unexpired(s.items, now)), leader, key) <==> ExpiredAt(s, key, now)
  {
    SweptHas(s.items, now, key);
    hide Unexpired, Has, Rank;
  }

  lemma EndsPanic(s: System, rid: nat, leader: nat, key: string)
    requires Held(s, leader, key) && (Working(s, leader) ==> !Has(s.items, key))
    requires Working(s, leader) ==> s.handlers[leader].key in s.inflight && s.inflight[s.handlers[leader].key] == leader
    ensures rid in s.handlers ==>
              (!Held(PanicState(s, rid), leader, key) <==> rid == leader && At(s, leader) == Some(Running))
  {
    hide Has;
  }

  lemma EndsOther(maxEntries: nat, s: System, ev: Event, leader: nat, key: string)
    requires maxEntries > 0 && (ev.Downstream? || ev.Close? || ev.Wake?) && Held(s, leader, key)
    ensures Held(Apply(maxEntries, s, ev), leader, key)
  {
    hide Has;
  }

  /** A leader at work has no stored response, and is registered. */
  lemma HeldEither(maxEntries: nat, s: System, leader: nat, key: string)
    requires Inv(maxEntries, s) && Leads(s, leader, key)
    ensures Working(s, leader) ==> !Has(s.items, key) && key in s.inflight && s.inflight[key] == leader
    ensures s.handlers[leader].key == key && s.handlers[leader].epoch == leader && Distinct(s.items)
  {
    assert HandlerOk(s, leader) && FlightOk(s, leader) && KeyOk(s, key);
    if Has(s.items, key) {
      assert s.items[Rank(s.items, key)] in s.items;
      assert ItemOk(s, s.items[Rank(s.items, key)]);
    }
  }

  lemma EndsReserve(maxEntries: nat, s: System, rid: nat, k: string, now: int, leader: nat, key: string)
    requires maxEntries > 0 && Inv(maxEntries, s) && Leads(s, leader, key) && Held(s, leader, key) && rid !in s.handlers
    ensures !Held(Admit(s, rid, k, now), leader, key) <==> k == key && ExpiredAt(s, key, now)
  {
    HeldEither(maxEntries, s, leader, key);
    WithoutHas(s.items, k, key);
    hide Inv, Without, Rank;
    assert Working(Admit(s, rid, k, now), leader) <==> Working(s, leader);
  }

  lemma WithoutHas<K, V>(s: seq<Entry<K, V>>, x: K, k: K)
    requires Distinct(s)
    ensures Has(Without(s, x), k) <==> Has(s, k) && x != k
  {
    WithoutProps(s, x);
    if Has(s, k) && x != k {
      HasWithout(s, x, k);
    }
    if Has(Without(s, x), k) {
      WithoutFrom(s, x);
      var e := Without(s, x)[Rank(Without(s, x), k)];
      assert e in Without(s, x);
      assert e in s && e.key == k;
    }
  }

  lemma EndsFinish(maxEntries: nat, s: System, rid: nat, expiresAt: int, leader: nat, key: string)
    requires maxEntries > 0 && Inv(maxEntries, s) && Leads(s, leader, key) && Held(s, leader, key)
    requires rid in s.handlers && s.handlers[rid].phase.Answered?
    ensures !Held(FinishState(maxEntries, s, rid, expiresAt), leader, key)
            <==> Ends(maxEntries, s, Finish(rid, expiresAt), leader, key)
  {
    hide Write, Inv, Rank, Has, Bounded, Leads, HandlerOk, KeyOk, Newest, Without;
    var h := s.handlers[rid];
    var e := Entry(h.key, h.phase.response, expiresAt);
    FinisherLeads(maxEntries, s, rid, leader, key);
    HeldEither(maxEntries, s, leader, key);
    WriteBounded(maxEntries, s.items, e);
    if rid != leader && Has(s.items, key) {
      WriteEvictsOldest(maxEntries, s.items, e, key);
    }
  }

  lemma FinisherLeads(maxEntries: nat, s: System, rid: nat, leader: nat, key: string)
    requires maxEntries > 0 && Inv(maxEntries, s) && Leads(s, leader, key)
    requires rid in s.handlers && s.handlers[rid].phase.Answered?
    ensures Bounded(maxEntries, s.items) && (s.handlers[rid].key == key <==> rid == leader)
  {
    assert HandlerOk(s, rid) && KeyOk(s, s.handlers[rid].key) && FlightOk(s, leader) && HandlerOk(s, leader);
  }

  lemma SweptHas(s: seq<Entry<string, Response>>, now: int, key: string)
    requires Distinct(s)
    ensures Has(Unexpired(s, now), key) <==> Has(s, key) && now <= s[Rank(s, key)].expiresAt
  {
    UnexpiredFrom(s, now);
    var u := Unexpired(s, now);
    if Has(u, key) {
      var e := u[Rank(u, key)];
      assert e in u;
      var i :| 0 <= i < |s| && s[i] == e;
      RankOf(s, i);
    }
    if Has(s, key) && now <= s[Rank(s, key)].expiresAt {
      var e := s[Rank(s, key)];
      assert e in s;
      assert e in u;
      var i :| 0 <= i < |u| && u[i] == e;
      RankOf(u, i);
    }
  }

  // ---------------------------------------------------------------- responses that are not stored

  /** Nothing is stored or in flight for the key. */
  predicate Vacant(s: System, key: string) {
    key !in s.inflight && !Has(s.items, key)
  }

  /** A leader whose response is a server error or too large leaves nothing behind for its key. */
  lemma LeavesVacant(maxEntries: nat, s: System, rid: nat, expiresAt: int)
    requires maxEntries > 0 && Inv(maxEntries, s) && rid in s.handlers && s.handlers[rid].phase.Answered?
    requires var r := s.handlers[rid].phase.response; r.status >= 500 || |r.body| > 262144
    ensures Vacant(Apply(maxEntries, s, Finish(rid, expiresAt)), s.handlers[rid].key)
  {
    var key := s.handlers[rid].key;
    assert HandlerOk(s, rid) && KeyOk(s, key);
    LeadsOf(maxEntries, s, rid);
    HeldEither(maxEntries, s, rid, key);
    hide Inv, Write, HandlerOk;
  }

  lemma LeadsOf(maxEntries: nat, s: System, rid: nat)
    requires Inv(maxEntries, s) && Working(s, rid)
    ensures Leads(s, rid, s.handlers[rid].key)
  {
    assert HandlerOk(s, rid) && KeyOk(s, s.handlers[rid].key);
  }

  /** The key stays vacant until a request for it is admitted. */
  lemma VacantStep(maxEntries: nat, s: System, ev: Event, key: string)
    requires maxEntries > 0 && Inv(maxEntries, s) && Vacant(s, key) && !(ev.Reserve? && ev.key == key)
    ensures Vacant(Apply(maxEntries, s, ev), key)
  {
    match ev
    case Reserve(rid, k, now) =>
      WithoutHas(s.items, k, key);
      hide Without, Has, Inv;
    case Finish(rid, expiresAt) =>
      if rid in s.handlers && s.handlers[rid].phase.Answered? {
        VacantFinish(maxEntries, s, rid, expiresAt, key);
      }
    case Sweep(now) =>
      SweptHas(s.items, now, key);
      hide Unexpired, Has, Inv;
    case Downstream(_, _) =>
      hide Inv, Has;
    case Panic(_) =>
      hide Inv, Has;
    case Close(_) =>
      hide Inv, Has;
    case Wake(_) =>
      hide Inv, Has;
  }

  lemma VacantFinish(maxEntries: nat, s: System, rid: nat, expiresAt: int, key: string)
    requires maxEntries > 0 && Inv(maxEntries, s) && Vacant(s, key)
    requires rid in s.handlers && s.handlers[rid].phase.Answered?
    ensures Vacant(FinishState(maxEntries, s, rid, expiresAt), key)
  {
    var h := s.handlers[rid];
    var e := Entry(h.key, h.phase.response, expiresAt);
    assert HandlerOk(s, rid);
    WriteBounded(maxEntries, s.items, e);
    hide Inv, Write, HandlerOk, Cacheable;
    var w := Write(maxEntries, s.items, e);
    forall i | 0 <= i < |w| ensures w[i].key != key {
      assert w[i] in w;
      assert w[i] == e || w[i] in s.items;
    }
  }

  lemma {:induction false} StaysVacant(maxEntries: nat, log: seq<Event>, a: nat, b: nat, key: string)
    requires maxEntries > 0 && a <= b <= |log| && Vacant(Exec(maxEntries, log[..a]), key)
    requires forall m :: a <= m < b ==> !(log[m].Reserve? && log[m].key == key)
    ensures Vacant(Exec(maxEntries, log[..b]), key)
    decreases b
  {
    hide Inv, Apply, Vacant;
    if a < b {
      StaysVacant(maxEntries, log, a, b - 1, key);
      assert log[..b][..b - 1] == log[..b - 1];
      InvAlways(maxEntries, log[..b - 1]);
      VacantStep(maxEntries, Exec(maxEntries, log[..b - 1]), log[b - 1], key);
    }
  }

  /**
   A server error or an oversized response is never replayed: the next request for the key that is admitted after the
   leader has finished leads, and so reaches downstream.
   */
  lemma RetryLeads(maxEntries: nat, log: seq<Event>, a: nat, b: nat, key: string)
    requires maxEntries > 0 && a < b < |log| && log[a].Finish? && log[b].Reserve? && log[b].key == key
    requires var s := Exec(maxEntries, log[..a]);
             && log[a].rid in s.handlers && s.handlers[log[a].rid].phase.Answered? && s.handlers[log[a].rid].key == key
             && var r := s.handlers[log[a].rid].phase.response; r.status >= 500 || |r.body| > 262144
    requires forall m :: a < m < b ==> !(log[m].Reserve? && log[m].key == key)
    requires log[b].rid !in Exec(maxEntries, log[..b]).handlers
    ensures var t := Exec(maxEntries, log[..b + 1]);
            log[b].rid in t.handlers && t.handlers[log[b].rid] == Handler(key, log[b].rid, Running)
  {
    hide Inv, Vacant, Apply;
    assert log[..a + 1][..a] == log[..a] && log[..b + 1][..b] == log[..b];
    InvAlways(maxEntries, log[..a]);
    LeavesVacant(maxEntries, Exec(maxEntries, log[..a]), log[a].rid, log[a].expiresAt);
    StaysVacant(maxEntries, log, a + 1, b, key);
    VacantLeads(maxEntries, Exec(maxEntries, log[..b]), log[b].rid, key, log[b].now);
  }

  lemma VacantLeads(maxEntries: nat, s: System, rid: nat, key: string, now: int)
    requires maxEntries > 0 && Vacant(s, key) && rid !in s.handlers
    ensures var t := Apply(maxEntries, s, Reserve(rid, key, now));
            rid in t.handlers && t.handlers[rid] == Handler(key, rid, Running)
  {
    hide Dropped;
  }

  // ---------------------------------------------------------------- exactly when the leader is alone

  /** Once its leader's flight is closed, a pending request is about to call, and nothing else has changed for keys. */
  lemma PendingFalls(maxEntries: nat, s: System, r: nat, key: string)
    requires maxEntries > 0 && Inv(maxEntries, s) && Pending(s, r, key)
    ensures var e := s.handlers[r].epoch;
            var s1 := Apply(maxEntries, s, Close(e));
            var t := Apply(maxEntries, s1, Wake(r));
            && Unmoved(s, s1, e, r) && Unmoved(s, t, e, r)
            && r in t.handlers && t.handlers[r] == s.handlers[r].(phase := FallThrough)
  {
    var e := s.handlers[r].epoch;
    assert HandlerOk(s, r) && FlightOk(s, e) && HandlerOk(s, e);
    hide Inv, HandlerOk;
    var s1 := Apply(maxEntries, s, Close(e));
    assert e in s1.flights && s1.flights[e].closed && s1.flights[e].result.None?;
    assert r in s1.handlers && s1.handlers[r] == s.handlers[r];
  }

  /** Two requests aside, nothing that matters for the keys differs. */
  ghost predicate Unmoved(s: System, t: System, e: nat, r: nat) {
    && t.items == s.items && t.inflight == s.inflight && t.epochs == s.epochs && t.ran == s.ran
    && t.flights.Keys == s.flights.Keys && t.handlers.Keys == s.handlers.Keys
    && (forall f :: f in s.flights ==> t.flights[f].key == s.flights[f].key)
    && (forall x :: x in s.handlers && x != e && x != r ==> t.handlers[x] == s.handlers[x])
  }

  lemma UnmovedHeld(s: System, t: System, e: nat, r: nat, leader: nat, key: string)
    requires Unmoved(s, t, e, r) && leader != e && leader != r
    ensures Held(s, leader, key) ==> Held(t, leader, key)
    ensures Leads(s, leader, key) ==> Leads(t, leader, key)
  {
  }

  /** The call itself. */
  lemma Calls(maxEntries: nat, s: System, r: nat, response: Response, leader: nat, key: string)
    requires maxEntries > 0 && r in s.handlers && s.handlers[r].phase.FallThrough? && leader != r
    ensures var t := Apply(maxEntries, s, Downstream(r, response));
            && r in t.ran && r in t.handlers && t.handlers[r].key == s.handlers[r].key
            && (Held(s, leader, key) ==> Held(t, leader, key)) && (Leads(s, leader, key) ==> Leads(t, leader, key))
  {
  }

  /** A pending request is neither a leader nor a caller, and its own leader is at work no more. */
  lemma PendingFacts(maxEntries: nat, s: System, r: nat, key: string)
    requires Inv(maxEntries, s) && Pending(s, r, key)
    ensures r !in s.ran && r !in s.flights && s.handlers[r].epoch in s.handlers && !Working(s, s.handlers[r].epoch)
    ensures s.flights[s.handlers[r].epoch].result.None?
  {
    assert HandlerOk(s, r) && FlightOk(s, s.handlers[r].epoch) && HandlerOk(s, s.handlers[r].epoch);
  }

  /** Admission of another request leaves a pending one pending. */
  lemma PendingAdmit(s: System, r: nat, key: string, leader: nat, k: string, now: int)
    requires Pending(s, r, key) && leader !in s.handlers && leader !in s.flights
    ensures Pending(Admit(s, leader, k, now), r, key)
    ensures Admit(s, leader, k, now).handlers[r] == s.handlers[r] && Admit(s, leader, k, now).ran == s.ran
  {
    hide Dropped, LiveValue;
  }

  /** The steps by which a request that is pending at a leader's admission comes to call within its window. */
  function CallRun(past: seq<Event>, leader: nat, key: string, now: int, e: nat, r: nat, response: Response)
    : (log: seq<Event>)
  {
    past + [Reserve(leader, key, now)] + [Close(e)] + [Wake(r)] + [Downstream(r, response)]
  }

  lemma PendingCalls(maxEntries: nat, past: seq<Event>, leader: nat, key: string, now: int, r: nat, response: Response)
    requires maxEntries > 0 && LeadsFrom(maxEntries, past + [Reserve(leader, key, now)], |past|, leader, key)
    requires Pending(Exec(maxEntries, past), r, key)
    ensures var s0 := Exec(maxEntries, past);
            var log := CallRun(past, leader, key, now, s0.handlers[r].epoch, r, response);
            && (forall m :: |past| < m <= |log| ==> Held(Exec(maxEntries, log[..m]), leader, key))
            && CalledSince(s0, Exec(maxEntries, log), r, key) && r != leader
  {
    hide Exec, Apply, Held, Leads, Admit;
    var s0 := Exec(maxEntries, past);
    var e := s0.handlers[r].epoch;
    var l1 := past + [Reserve(leader, key, now)];
    var l2 := l1 + [Close(e)];
    var l3 := l2 + [Wake(r)];
    var l4 := l3 + [Downstream(r, response)];
    ExecSnoc(maxEntries, past, Reserve(leader, key, now));
    ExecSnoc(maxEntries, l1, Close(e));
    ExecSnoc(maxEntries, l2, Wake(r));
    ExecSnoc(maxEntries, l3, Downstream(r, response));
    InvAlways(maxEntries, past);
    InvAlways(maxEntries, l1);
    assert l1[..|past|] == past && l1[..|past| + 1] == l1;
    PendingFacts(maxEntries, s0, r, key);
    LeadingBegins(maxEntries, s0, leader, key, now);
    PendingAdmit(s0, r, key, leader, key, now);
    var s1 := Exec(maxEntries, l1);
    PendingFalls(maxEntries, s1, r, key);
    UnmovedHeld(s1, Exec(maxEntries, l2), e, r, leader, key);
    UnmovedHeld(s1, Exec(maxEntries, l3), e, r, leader, key);
    Calls(maxEntries, Exec(maxEntries, l3), r, response, leader, key);
    PrefixesHeld(maxEntries, past, l1, l2, l3, l4, leader, key);
  }

  lemma LeadingBegins(maxEntries: nat, s: System, leader: nat, key: string, now: int)
    requires maxEntries > 0 && Inv(maxEntries, s) && leader !in s.handlers
    requires leader in Apply(maxEntries, s, Reserve(leader, key, now)).flights
    ensures leader !in s.flights
    ensures Apply(maxEntries, s, Reserve(leader, key, now)) == Admit(s, leader, key, now)
    ensures Held(Admit(s, leader, key, now), leader, key)
  {
    assert FlightOk(s, leader);
    hide Dropped;
  }

  lemma PrefixesHeld(maxEntries: nat, past: seq<Event>, l1: seq<Event>, l2: seq<Event>, l3: seq<Event>, l4: seq<Event>,
                     leader: nat, key: string)
    requires maxEntries > 0 && |l1| == |past| + 1 && |l2| == |l1| + 1 && |l3| == |l2| + 1 && |l4| == |l3| + 1
    requires l2[..|l1|] == l1 && l3[..|l2|] == l2 && l4[..|l3|] == l3
    requires Held(Exec(maxEntries, l1), leader, key) && Held(Exec(maxEntries, l2), leader, key)
    requires Held(Exec(maxEntries, l3), leader, key) && Held(Exec(maxEntries, l4), leader, key)
    ensures forall m :: |past| < m <= |l4| ==> Held(Exec(maxEntries, l4[..m]), leader, key)
  {
    hide Held, Exec;
    assert l4[..|l1|] == l1 && l4[..|l2|] == l2 && l4[..|l4|] == l4;
    forall m | |past| < m <= |l4| ensures Held(Exec(maxEntries, l4[..m]), leader, key) {
      assert m == |l1| || m == |l2| || m == |l3| || m == |l4|;
    }
  }

  /** Whatever happens next while the window stays open, nobody but the leader calls downstream for the key. */
  ghost predicate Alone(maxEntries: nat, past: seq<Event>, leader: nat, key: string, now: int)
    requires maxEntries > 0
  {
    forall log: seq<Event> :: Continues(maxEntries, past, log, leader, key, now) ==>
          OnlyCaller(maxEntries, past, log, leader, key)
  }

  ghost predicate Continues(maxEntries: nat, past: seq<Event>, log: seq<Event>, leader: nat, key: string, now: int)
    requires maxEntries > 0
  {
    && |log| > |past| && log[..|past| + 1] == past + [Reserve(leader, key, now)]
    && forall m :: |past| < m <= |log| ==> Held(Exec(maxEntries, log[..m]), leader, key)
  }

  ghost predicate OnlyCaller(maxEntries: nat, past: seq<Event>, log: seq<Event>, leader: nat, key: string)
    requires maxEntries > 0
  {
    forall r :: CalledSince(Exec(maxEntries, past), Exec(maxEntries, log), r, key) ==> r == leader
  }

  /** A leader is alone in its window if and only if no request for the key is pending when it is admitted. */
  lemma AloneExactly(maxEntries: nat, past: seq<Event>, leader: nat, key: string, now: int)
    requires maxEntries > 0 && LeadsFrom(maxEntries, past + [Reserve(leader, key, now)], |past|, leader, key)
    ensures Alone(maxEntries, past, leader, key, now) <==> !exists r :: Pending(Exec(maxEntries, past), r, key)
  {
    hide Pending, CalledSince, Exec;
    var s0 := Exec(maxEntries, past);
    if r :| Pending(s0, r, key) {
      var response := Response(200, "", "");
      PendingCalls(maxEntries, past, leader, key, now, r, response);
      var log := CallRun(past, leader, key, now, EpochIn(s0, r, key), r, response);
      assert log[..|past| + 1] == past + [Reserve(leader, key, now)];
      assert Continues(maxEntries, past, log, leader, key, now) && !OnlyCaller(maxEntries, past, log, leader, key);
    } else {
      forall log: seq<Event> | Continues(maxEntries, past, log, leader, key, now)
        ensures OnlyCaller(maxEntries, past, log, leader, key)
      {
        AloneIfNonePending(maxEntries, past, log, leader, key, now);
      }
    }
  }

  ghost function EpochIn(s: System, r: nat, key: string): (e: nat)
    requires Pending(s, r, key)
  {
    s.handlers[r].epoch
  }

  lemma AloneIfNonePending(maxEntries: nat, past: seq<Event>, log: seq<Event>, leader: nat, key: string, now: int)
    requires maxEntries > 0 && LeadsFrom(maxEntries, past + [Reserve(leader, key, now)], |past|, leader, key)
    requires Continues(maxEntries, past, log, leader, key, now) && !exists r :: Pending(Exec(maxEntries, past), r, key)
    ensures OnlyCaller(maxEntries, past, log, leader, key)
  {
    hide Exec, Held, Pending, CalledSince, Since, Served, LeadsFrom;
    SameStart(maxEntries, past, log, leader, key, now);
    assert log[..|log|] == log;
    AtMostOnceForKey(maxEntries, log, |past|, |log|, leader, key);
    forall r | CalledSince(Exec(maxEntries, past), Exec(maxEntries, log), r, key) ensures r == leader {
      assert CalledSince(Exec(maxEntries, log[..|past|]), Exec(maxEntries, log[..|log|]), r, key);
      assert !Pending(Exec(maxEntries, past), r, key);
    }
  }

  lemma SameStart(maxEntries: nat, past: seq<Event>, log: seq<Event>, leader: nat, key: string, now: int)
    requires maxEntries > 0 && LeadsFrom(maxEntries, past + [Reserve(leader, key, now)], |past|, leader, key)
    requires |log| > |past| && log[..|past| + 1] == past + [Reserve(leader, key, now)]
    ensures log[..|past|] == past && LeadsFrom(maxEntries, log, |past|, leader, key)
  {
    hide Exec;
    var first := past + [Reserve(leader, key, now)];
    assert first[..|past|] == past && first[..|past| + 1] == first;
    assert log[..|past|] == log[..|past| + 1][..|past|] == past;
    assert log[|past|] == log[..|past| + 1][|past|] == Reserve(leader, key, now);
  }

  // ---------------------------------------------------------------- a pending request can always call beside a leader

  lemma {:induction false} Beyond(rids: set<nat>) returns (n: nat)
    ensures forall r :: r in rids ==> r < n
  {
    if rids == {} {
      n := 0;
    } else {
      var x :| x in rids;
      n := Beyond(rids - {x});
      n := if x < n then n else x + 1;
      assert rids == (rids - {x}) + {x};
    }
  }

  /** The key has a leader in charge that is at work or has its response stored, or it is free. */
  lemma HolderOf(maxEntries: nat, s: System, key: string) returns (leader: Option<nat>)
    requires Inv(maxEntries, s)
    ensures leader.Some? ==> Leads(s, leader.value, key) && Held(s, leader.value, key)
    ensures leader.None? ==> key !in s.inflight && !Has(s.items, key)
  {
    if key in s.inflight {
      var f := s.inflight[key];
      assert KeyOk(s, key) && FlightOk(s, f) && HandlerOk(s, f);
      leader := Some(f);
    } else if Has(s.items, key) {
      var e := s.items[Rank(s.items, key)];
      assert e in s.items && ItemOk(s, e);
      assert FlightOk(s, s.epochs[key]);
      leader := Some(s.epochs[key]);
    } else {
      leader := None;
    }
  }

  /** In charge of a key is no request that is pending for it, and not the leader it followed. */
  lemma InChargeNotPending(maxEntries: nat, s: System, r: nat, key: string, leader: nat)
    requires Inv(maxEntries, s) && Pending(s, r, key) && Leads(s, leader, key) && Held(s, leader, key)
    ensures leader != r && leader != s.handlers[r].epoch
  {
    PendingFacts(maxEntries, s, r, key);
    HeldNotAborted(maxEntries, s, leader, key);
  }

  /**
   From every reachable state with a pending request: a continuation after which some leader is in charge of the key
   and holds it, and then the pending request calls downstream while it does.
   */
  lemma FollowerRunsBesideLeader(maxEntries: nat, log: seq<Event>, r: nat, key: string, response: Response)
    returns (more: seq<Event>, leader: nat)
    requires maxEntries > 0 && Pending(Exec(maxEntries, log), r, key)
    ensures var s := Exec(maxEntries, log + more);
            var t := Exec(maxEntries, log + more + [Downstream(r, response)]);
            && Leads(s, leader, key) && Held(s, leader, key) && Leads(t, leader, key) && Held(t, leader, key)
            && leader != r && r !in s.ran && r in t.ran && r in t.handlers && t.handlers[r].key == key
  {
    hide Exec, Apply, Pending, Leads, Held, Inv;
    var first;
    first, leader := LeaderInCharge(maxEntries, log, r, key);
    var base := log + first;
    var s := Exec(maxEntries, base);
    InvAlways(maxEntries, base);
    PendingFacts(maxEntries, s, r, key);
    var e := EpochIn(s, r, key);
    InChargeNotPending(maxEntries, s, r, key, leader);
    more := first + [Close(e)] + [Wake(r)];
    var l2 := base + [Close(e)];
    var l3 := l2 + [Wake(r)];
    assert log + more == l3;
    ExecSnoc(maxEntries, base, Close(e));
    ExecSnoc(maxEntries, l2, Wake(r));
    ExecSnoc(maxEntries, l3, Downstream(r, response));
    PendingFalls(maxEntries, s, r, key);
    UnmovedHeld(s, Exec(maxEntries, l3), e, r, leader, key);
    Calls(maxEntries, Exec(maxEntries, l3), r, response, leader, key);
    PendingKey(s, r, key);
  }

  lemma PendingKey(s: System, r: nat, key: string)
    requires Pending(s, r, key)
    ensures r in s.handlers && s.handlers[r].key == key
  {
  }

  /** A leader is in charge of the key, or a new one is admitted; the pending request stays pending. */
  lemma LeaderInCharge(maxEntries: nat, log: seq<Event>, r: nat, key: string) returns (more: seq<Event>, leader: nat)
    requires maxEntries > 0 && Pending(Exec(maxEntries, log), r, key)
    ensures var s := Exec(maxEntries, log + more);
            Leads(s, leader, key) && Held(s, leader, key) && Pending(s, r, key)
  {
    hide Exec, Pending, Leads, Held, Inv, Admit;
    var s := Exec(maxEntries, log);
    InvAlways(maxEntries, log);
    var now := HolderOf(maxEntries, s, key);
    if now.Some? {
      more, leader := [], now.value;
      assert log + more == log;
    } else {
      leader := Beyond(s.handlers.Keys);
      more := [Reserve(leader, key, 0)];
      ExecSnoc(maxEntries, log, Reserve(leader, key, 0));
      FreeIsLed(maxEntries, s, leader, key, r);
    }
  }

  lemma FreeIsLed(maxEntries: nat, s: System, leader: nat, key: string, r: nat)
    requires maxEntries > 0 && Inv(maxEntries, s) && Pending(s, r, key)
    requires leader !in s.handlers && key !in s.inflight && !Has(s.items, key)
    ensures var t := Apply(maxEntries, s, Reserve(leader, key, 0));
            Leads(t, leader, key) && Held(t, leader, key) && Pending(t, r, key)
  {
    assert FlightOk(s, leader);
    PendingAdmit(s, r, key, leader, key, 0);
    hide Dropped, Inv, Pending;
  }

  /** Such a state is reached by two requests for a key and a panic. */
  lemma PendingReached()
    ensures Pending(Exec(1, Join + [Panic(0)]), 1, "k")
  {
    hide Exec;
    JoinReached();
    ExecSnoc(1, Join, Panic(0));
  }
}
