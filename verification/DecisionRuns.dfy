/**
 The decision cache under concurrency: any number of requests, each with its own inputs, interleave
 with whole flushes, flushes of a subject, evictions, expiries and changes of grants.
 */
module DecisionRuns {
  import opened Recency
  import opened CacheKey
  import opened Authz
  import opened GuardedFill

  /** What the IAM Check is asked; the required relation is not part of the cache key. */
  datatype CheckInput = CheckInput(inputs: Inputs, relation: string)

  /** The outside check as a function of the version of the grants. */
  type Checker = (nat, CheckInput) -> Reply

  /** Requests look up and fill under their own key, and fill only what the check answered then. */
  ghost predicate Conforms(hash: string -> string, log: seq<Event<string, Cached>>, who: map<nat, CheckInput>,
                           check: Checker)
  {
    forall i :: 0 <= i < |log| ==>
      && (log[i].Lookup? ==> log[i].rid in who && log[i].key == Key(hash, who[log[i].rid].inputs))
      && (log[i].Fetch? ==>
            && log[i].rid in who && log[i].key == Key(hash, who[log[i].rid].inputs)
            && Verdict(check(Version(log, i), who[log[i].rid])) == Some(log[i].value))
  }

  /** A step that revokes what is cached for a subject. */
  ghost predicate Revokes(ev: Event<string, Cached>, subject: string) {
    ev.FlushAll? || (ev.FlushWhere? && ev.pred == SubjectKeys(subject))
  }

  lemma RevokesKey(hash: string -> string, ev: Event<string, Cached>, i: Inputs)
    requires Revokes(ev, i.subject)
    ensures Invalidates(ev, Key(hash, i))
  {
    var key := Key(hash, i);
    assert key[..|i.subject| + 1] == i.subject + "|";
  }

  /**
   After a revocation for its subject no request is served, from the cache, a verdict of grants older
   than the revocation: the verdict is what the check answered, to a request with the same key, at a
   version of the grants no older than at the revocation.
   */
  lemma NoVerdictOlderThanRevocation(c: Config, hash: string -> string, log: seq<Event<string, Cached>>,
                                     who: map<nat, CheckInput>, check: Checker, n: nat, revoked: nat)
    requires c.Valid() && Conforms(hash, log, who, check)
    requires revoked < n < |log| && log[n].Lookup? && Hit(c, log, n).Some?
    requires Revokes(log[revoked], who[log[n].rid].inputs.subject)
    ensures exists u, rid ::
              && Version(log, revoked) <= u <= Version(log, n)
              && rid in who && Key(hash, who[rid].inputs) == log[n].key
              && Verdict(check(u, who[rid])) == Some(Hit(c, log, n).value.value)
  {
    RevokesKey(hash, log[revoked], who[log[n].rid].inputs);
    NoStaleHit(c, log, n);
    var s := Hit(c, log, n).value;
    VersionMonotone(log, revoked, s.fetchAt);
    VersionMonotone(log, s.fetchAt, n);
    var u, rid := Version(log, s.fetchAt), log[s.fetchAt].rid;
    assert Verdict(check(u, who[rid])) == Some(s.value);
  }

  // ---------------------------------------------------------------- transparency

  /** Requests that share a key agree in all that it stands for and have one required relation. */
  ghost predicate OneQuestion(hash: string -> string, who: map<nat, CheckInput>) {
    forall a, b :: a in who && b in who && Key(hash, who[a].inputs) == Key(hash, who[b].inputs) ==>
      SameQuestion(who[a], who[b])
  }

  predicate SameQuestion(x: CheckInput, y: CheckInput) {
    Agree(x.inputs, y.inputs) && x.relation == y.relation
  }

  /** Requests that agree in all that the key stands for have one required relation. */
  ghost predicate OneRelation(who: map<nat, CheckInput>) {
    forall a, b :: a in who && b in who && Agree(who[a].inputs, who[b].inputs) ==> who[a].relation == who[b].relation
  }

  /** The check depends on nothing but the relation and what the key stands for. */
  ghost predicate KeyFieldsOnly(check: Checker) {
    forall u: nat, x: CheckInput, y: CheckInput :: SameQuestion(x, y) ==> check(u, x) == check(u, y)
  }

  /** What a request whose lookup is at position `n` of a run is told; `reply` is what the check answers on a miss. */
  function Decided(c: Config, log: seq<Event<string, Cached>>, n: nat, r: Route, reply: Reply): (o: Outcome)
    requires n < |log| && log[n].Lookup?
  {
    match Early(r)
    case Some(o) => o
    case None =>
      match Hit(c, log, n)
      case Some(s) => CachedOutcome(r.hidesExistence, s.value)
      case None => FreshOutcome(r.hidesExistence, reply)
  }

  /**
   A lookup at position `n` of a conforming run, where the check depends on key fields only and its answer to the
   request has been stable since position `from`, which is the start or comes right after a revocation.
   */
  ghost predicate Settled(hash: string -> string, log: seq<Event<string, Cached>>, who: map<nat, CheckInput>,
                          check: Checker, n: nat, from: nat)
  {
    && Conforms(hash, log, who, check) && KeyFieldsOnly(check)
    && from <= n < |log| && log[n].Lookup?
    && (from == 0 || Revokes(log[from - 1], who[log[n].rid].inputs.subject))
    && (forall u :: Version(log, from) <= u <= Version(log, n) ==>
                      check(u, who[log[n].rid]) == check(Version(log, n), who[log[n].rid]))
  }

  /**
   Transparency: with the cache a request gets the very outcome, reasons and deny-versus-not-found included,
   that it would get without it, if the check's answer to it has been stable since the last revocation.
   */
  lemma DecisionTransparent(c: Config, hash: string -> string, log: seq<Event<string, Cached>>,
                            who: map<nat, CheckInput>, check: Checker, r: Route, n: nat, from: nat)
    requires c.Valid() && OneQuestion(hash, who) && Settled(hash, log, who, check, n, from)
    ensures var reply := check(Version(log, n), who[log[n].rid]); Decided(c, log, n, r, reply) == Uncached(r, reply)
  {
    if Hit(c, log, n).Some? {
      HitIsCurrent(c, hash, log, who, check, n, from);
    }
  }

  lemma HitIsCurrent(c: Config, hash: string -> string, log: seq<Event<string, Cached>>,
                     who: map<nat, CheckInput>, check: Checker, n: nat, from: nat)
    requires c.Valid() && OneQuestion(hash, who) && Settled(hash, log, who, check, n, from) && Hit(c, log, n).Some?
    ensures Verdict(check(Version(log, n), who[log[n].rid])) == Some(Hit(c, log, n).value.value)
  {
    var x := who[log[n].rid];
    NoStaleHit(c, log, n);
    var s := Hit(c, log, n).value;
    var y := who[log[s.fetchAt].rid];
    if from > 0 {
      RevokesKey(hash, log[from - 1], x.inputs);
      assert from - 1 < s.snapAt;
    }
    VersionMonotone(log, from, s.fetchAt);
    VersionMonotone(log, s.fetchAt, n);
    assert SameQuestion(y, x);
    assert check(Version(log, s.fetchAt), y) == check(Version(log, s.fetchAt), x);
  }

  // ---------------------------------------------------------------- exactly when the cache is invisible

  /** A check that allows one question. */
  function OnlyFor(x: CheckInput): (check: Checker) {
    (u: nat, y: CheckInput) => if SameQuestion(x, y) then Allowed else Denied([])
  }

  lemma OnlyForKeyFields(x: CheckInput)
    ensures KeyFieldsOnly(OnlyFor(x))
  {
    forall u: nat, y: CheckInput, z: CheckInput | SameQuestion(y, z) ensures OnlyFor(x)(u, y) == OnlyFor(x)(u, z) {
      AgreeTransitive(x.inputs, y.inputs, z.inputs);
    }
  }

  lemma AgreeTransitive(i: Inputs, j: Inputs, k: Inputs)
    requires Agree(j, k)
    ensures Agree(i, j) <==> Agree(i, k)
  {
    forall n | 0 <= n < |ContextKeys|
      ensures SameField(ContextOf(i), ContextOf(j), ContextKeys[n])
              <==> SameField(ContextOf(i), ContextOf(k), ContextKeys[n])
    {
      assert SameField(ContextOf(j), ContextOf(k), ContextKeys[n]);
    }
  }

  /**
   Any two requests that share a key and do not agree, or agree and differ in their relation: there is a settled run in
   which the second is served the first one's verdict against what it would get without the cache.
   */
  lemma SharedKeyMisleads(c: Config, hash: string -> string, who: map<nat, CheckInput>, a: nat, b: nat, r: Route)
    requires c.Valid() && a in who && b in who && Early(r).None?
    requires Key(hash, who[a].inputs) == Key(hash, who[b].inputs) && !SameQuestion(who[a], who[b])
    ensures var check := OnlyFor(who[a]);
            var log := UnflushedRun([], a, b, Key(hash, who[a].inputs), Cached(true, []), 0);
            && Settled(hash, log, who, check, 3, 0) && log[3].rid == b
            && var reply := check(Version(log, 3), who[b]); Decided(c, log, 3, r, reply) != Uncached(r, reply)
  {
    var k, v := Key(hash, who[a].inputs), Cached(true, []);
    OnlyForKeyFields(who[a]);
    UnflushedHit(c, [], a, b, k, v, 0);
    UnflushedVersions([], a, b, k, v, 0);
    assert SameQuestion(who[a], who[a]);
    hide UnflushedRun, Hit, Key, Early, SameQuestion, KeyFieldsOnly;
    var check := OnlyFor(who[a]);
    var log := UnflushedRun([], a, b, k, v, 0);
    assert |log| == 4 && log[0].Snapshot? && log[1] == Fetch(a, k, v) && log[2].Fill? && log[3] == Lookup(b, k, 0);
    assert Conforms(hash, log, who, check);
  }

  /** In particular the relation, which is not in the key, can mislead. */
  lemma RelationIsNotInTheKey(c: Config, hash: string -> string, who: map<nat, CheckInput>, a: nat, b: nat, r: Route)
    requires c.Valid() && a in who && b in who && Early(r).None?
    requires Agree(who[a].inputs, who[b].inputs) && who[a].relation != who[b].relation
    ensures var check := OnlyFor(who[a]);
            var log := UnflushedRun([], a, b, Key(hash, who[a].inputs), Cached(true, []), 0);
            && Settled(hash, log, who, check, 3, 0) && log[3].rid == b
            && var reply := check(Version(log, 3), who[b]); Decided(c, log, 3, r, reply) != Uncached(r, reply)
  {
    AgreeSameKey(hash, who[a].inputs, who[b].inputs);
    SharedKeyMisleads(c, hash, who, a, b, r);
  }

  /** Over every settled run the cache is invisible. */
  ghost predicate AlwaysTransparent(c: Config, hash: string -> string, who: map<nat, CheckInput>) {
    forall log: seq<Event<string, Cached>>, check: Checker, r: Route, n: nat, from: nat ::
      Settled(hash, log, who, check, n, from) ==>
        TransparentAt(c, log, n, r, check(Version(log, n), who[log[n].rid]))
  }

  ghost predicate TransparentAt(c: Config, log: seq<Event<string, Cached>>, n: nat, r: Route, reply: Reply)
    requires n < |log| && log[n].Lookup?
  {
    Decided(c, log, n, r, reply) == Uncached(r, reply)
  }

  /**
   Exactly when the cache is invisible, whatever the hash and whatever the requests contain: if and only if requests
   that share a key agree in what it stands for and have one relation.
   */
  lemma TransparentExactly(c: Config, hash: string -> string, who: map<nat, CheckInput>)
    requires c.Valid()
    ensures AlwaysTransparent(c, hash, who) <==> OneQuestion(hash, who)
  {
    if OneQuestion(hash, who) {
      forall log: seq<Event<string, Cached>>, check: Checker, r: Route, n: nat, from: nat
        | Settled(hash, log, who, check, n, from)
        ensures TransparentAt(c, log, n, r, check(Version(log, n), who[log[n].rid]))
      {
        DecisionTransparent(c, hash, log, who, check, r, n, from);
      }
    }
    if AlwaysTransparent(c, hash, who) {
      hide Settled, Decided, SameQuestion, Key;
      forall a, b | a in who && b in who && Key(hash, who[a].inputs) == Key(hash, who[b].inputs)
        ensures SameQuestion(who[a], who[b])
      {
        if !SameQuestion(who[a], who[b]) {
          var r := Route(false, false, NoOverride, true, false, true, false, false, false, who[b].inputs);
          SharedKeyMisleads(c, hash, who, a, b, r);
          var check := OnlyFor(who[a]);
          var log := UnflushedRun([], a, b, Key(hash, who[a].inputs), Cached(true, []), 0);
          Contradicted(c, hash, who, log, check, r, 3, 0);
        }
      }
    }
  }

  lemma Contradicted(c: Config, hash: string -> string, who: map<nat, CheckInput>, log: seq<Event<string, Cached>>,
                     check: Checker, r: Route, n: nat, from: nat)
    requires AlwaysTransparent(c, hash, who) && Settled(hash, log, who, check, n, from)
    ensures Decided(c, log, n, r, check(Version(log, n), who[log[n].rid]))
            == Uncached(r, check(Version(log, n), who[log[n].rid]))
  {
    assert TransparentAt(c, log, n, r, check(Version(log, n), who[log[n].rid]));
  }

  /** For requests without bars behind the subject, the relation is all that is needed. */
  lemma TransparentForPlain(c: Config, hash: string -> string, who: map<nat, CheckInput>)
    requires c.Valid() && Injective(hash) && BarFree(hash)
    requires forall rid :: rid in who ==> Plain(who[rid].inputs)
    ensures AlwaysTransparent(c, hash, who) <==> OneRelation(who)
  {
    hide AlwaysTransparent, Key, Agree, Plain, Injective, BarFree;
    TransparentExactly(c, hash, who);
    forall a, b | a in who && b in who
      ensures Key(hash, who[a].inputs) == Key(hash, who[b].inputs) <==> Agree(who[a].inputs, who[b].inputs)
    {
      KeyFaithful(hash, who[a].inputs, who[b].inputs);
    }
  }

  // ---------------------------------------------------------------- a decision as steps of a run

  /** The steps that one undisturbed request takes. */
  function DecisionSteps(c: Config, log: seq<Event<string, Cached>>, rid: nat, key: string, reply: Reply,
                         now: int, nowPut: int): (steps: seq<Event<string, Cached>>)
  {
    var start := [Snapshot(rid), Lookup(rid, key, now)];
    if LiveValue(Exec(c, log).cache.entries, key, now).Some? || Verdict(reply).None? then start
    else start + [Fetch(rid, key, Verdict(reply).value), Fill(rid, c.ttl, nowPut)]
  }

  /** After any run, the steps of a request do to the cache, and tell it, what the last phase of a decision does. */
  lemma DecisionIsARun(c: Config, log: seq<Event<string, Cached>>, rid: nat, key: string, r: Route, reply: Reply,
                       now: int, nowPut: int)
    requires c.Valid() && Early(r).None?
    ensures var st := Unstamped(Exec(c, log).cache);
            var run := log + DecisionSteps(c, log, rid, key, reply, now, nowPut);
            && Unstamped(Exec(c, run).cache) == CheckState(c, st, key, reply, now, nowPut)
            && run[|log| + 1].Lookup? && Decided(c, run, |log| + 1, r, reply) == CheckOutcome(st, key, r, reply, now)
  {
    hide Exec, GetState, PutState, Rank, Without, Early;
    var s := Exec(c, log);
    var snap, look: Event<string, Cached> := Snapshot(rid), Lookup(rid, key, now);
    var l2 := log + [snap] + [look];
    ExecSnoc(c, log, snap);
    ExecSnoc(c, log + [snap], look);
    PlainGet(s.cache, key, now);
    var run := log + DecisionSteps(c, log, rid, key, reply, now, nowPut);
    assert run[..|log| + 1] == log + [snap];
    if LiveValue(s.cache.entries, key, now).Some? || Verdict(reply).None? {
      assert run == l2;
    } else {
      Missed(c, log, rid, key, Verdict(reply).value, now, nowPut);
      assert run == l2 + [Fetch(rid, key, Verdict(reply).value)] + [Fill(rid, c.ttl, nowPut)];
    }
  }

  lemma Missed(c: Config, log: seq<Event<string, Cached>>, rid: nat, key: string, v: Cached, now: int, nowPut: int)
    requires c.Valid()
    ensures var s := Exec(c, log);
            var run := log + [Snapshot(rid)] + [Lookup(rid, key, now)] + [Fetch(rid, key, v)]
                       + [Fill(rid, c.ttl, nowPut)];
            Unstamped(Exec(c, run).cache)
            == PutIfGenState(c, GetState(Unstamped(s.cache), key, now), key, v, c.ttl, s.cache.gen, nowPut)
  {
    hide Exec, PutState, GetState, LiveValue, Rank;
    var s := Exec(c, log);
    var l1 := log + [Snapshot(rid)];
    var l2 := l1 + [Lookup(rid, key, now)];
    var l3 := l2 + [Fetch(rid, key, v)];
    ExecSnoc(c, log, Snapshot(rid));
    ExecSnoc(c, l1, Lookup(rid, key, now));
    ExecSnoc(c, l2, Fetch(rid, key, v));
    ExecSnoc(c, l3, Fill(rid, c.ttl, nowPut));
    PlainGet(s.cache, key, now);
    GetSameGen(s.cache, key, now);
    var got := GetState(s.cache, key, now);
    PlainPut(c, got, key, Stamped(v, |log|, |log| + 2, |log| + 3), nowPut + c.ttl);
  }
}
