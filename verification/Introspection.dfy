/**
 Token introspection with a cache whose entries live no longer than the token: the TTL is clamped to
 the time left until `exp`, and a result fetched before a revocation is never cached after it.
 Times are in nanoseconds; `exp` is in seconds, zero meaning that there is none.
 */
module Introspection {
  import opened Recency
  import opened GuardedFill
  import Elements
  import LruCache

  datatype Info = Info(active: bool, subject: string, expiryAt: int)

  const SECOND: int := 1_000_000_000

  /** The TTL of an entry, or none when the token has already expired. */
  function Clamp(ttl: int, expiryAt: int, now: int): (r: Option<int>)
    ensures ttl > 0 && r.Some? ==> 0 < r.value <= ttl
    ensures expiryAt <= 0 ==> r == Some(ttl)
    ensures expiryAt > 0 ==> (r.Some? <==> now < expiryAt * SECOND)
    ensures expiryAt > 0 && r.Some? ==> r.value == ttl || now + r.value == expiryAt * SECOND
    ensures expiryAt > 0 && r.Some? ==> now + r.value <= expiryAt * SECOND
  {
    if expiryAt <= 0 then Some(ttl)
    else
      var untilExp := expiryAt * SECOND - now;
      if untilExp <= 0 then None else if untilExp < ttl then Some(untilExp) else Some(ttl)
  }

  datatype Answer = BadRequest | Unreachable | Inactive(info: Info) | Active(info: Info)

  function Judge(info: Info): (a: Answer) {
    if info.active then Active(info) else Inactive(info)
  }

  /** The keys that the revocation of one token matches. */
  function Only(jti: string): (p: string -> bool)
    ensures forall k :: p(k) <==> k == jti
  {
    (k: string) => k == jti
  }

  /** What a request with a token is told. */
  function AnswerOf(c: Config, st: State<string, Info>, jti: string, fetched: Option<Info>, now: int, nowClamp: int)
    : (a: Answer)
  {
    match LiveValue(st.entries, jti, now)
    case Some(info) => Judge(info)
    case None =>
      if fetched.None? then Unreachable
      else if Clamp(c.ttl, fetched.value.expiryAt, nowClamp).None? then Inactive(fetched.value.(active := false))
      else Judge(fetched.value)
  }

  /** The cache after it: a miss writes what was fetched, with the clamped TTL, unless the token has expired. */
  function CacheAfter(c: Config, st: State<string, Info>, jti: string, fetched: Option<Info>,
                      now: int, nowClamp: int, nowPut: int): (r: State<string, Info>)
  {
    var got := GetState(st, jti, now);
    if LiveValue(st.entries, jti, now).Some? || fetched.None? then got
    else
      match Clamp(c.ttl, fetched.value.expiryAt, nowClamp)
      case None => got
      case Some(ttl) => PutState(c, got, jti, fetched.value, nowPut + ttl)
  }

  /** The server answered, and not about a token whose `exp` has passed. */
  predicate Alive(fetched: Option<Info>, nowClamp: int) {
    fetched.Some? && (fetched.value.expiryAt <= 0 || nowClamp < fetched.value.expiryAt * 1_000_000_000)
  }

  /**
   Active is said exactly of a live cached info that is active or, without a live one, of an active answer of the
   server about a token that has not expired; it comes with that info.
   */
  predicate Told(a: Answer, hit: Option<Info>, fetched: Option<Info>, nowClamp: int) {
    && (a.Active? <==> (hit.Some? && hit.value.active)
                       || (hit.None? && Alive(fetched, nowClamp) && fetched.value.active))
    && (a.Active? ==> a.info == if hit.Some? then hit.value else fetched.value)
    && (a.Unreachable? <==> hit.None? && fetched.None?)
    && (a.Inactive? <==> (hit.Some? && !hit.value.active)
                         || (hit.None? && fetched.Some? && (!fetched.value.active || !Alive(fetched, nowClamp))))
    && (a.Inactive? ==> !a.info.active)
  }

  lemma ToldExactly(c: Config, st: State<string, Info>, jti: string, fetched: Option<Info>, now: int, nowClamp: int)
    ensures Told(AnswerOf(c, st, jti, fetched, now, nowClamp), LiveValue(st.entries, jti, now), fetched, nowClamp)
  {
  }

  /** What the cache holds for the token afterwards: on a miss an answer about a live token, while it lives. */
  lemma HeldAfter(c: Config, st: State<string, Info>, jti: string, fetched: Option<Info>,
                  now: int, nowClamp: int, nowPut: int)
    requires c.Valid() && Ok(c, st)
    ensures var t := CacheAfter(c, st, jti, fetched, now, nowClamp, nowPut);
            var e := EntryOf(t, jti);
            && t.gen == st.gen
            && (LiveValue(st.entries, jti, now).Some? ==> e == EntryOf(st, jti))
            && (LiveValue(st.entries, jti, now).None? ==>
                  && (e.Some? <==> Alive(fetched, nowClamp))
                  && (e.Some? ==>
                        var left := fetched.value.expiryAt * 1_000_000_000 - nowClamp;
                        && e.value.value == fetched.value
                        && e.value.expiresAt
                           == nowPut + if fetched.value.expiryAt > 0 && left < c.ttl then left else c.ttl))
  {
    var got := GetState(st, jti, now);
    GetOk(c, st, jti, now);
    GetExactly(c, st, jti, now, jti);
    if fetched.Some? && Clamp(c.ttl, fetched.value.expiryAt, nowClamp).Some? {
      PutExactly(c, got, jti, fetched.value, nowPut + Clamp(c.ttl, fetched.value.expiryAt, nowClamp).value, jti);
    }
    hide GetState, PutState, Rank;
  }

  class IntrospectionCache {
    const ttl: int
    const cache: LruCache.Cache<string, Info>

    ghost predicate Valid()
      reads this, cache
    {
      cache.Valid() && ttl == cache.config.ttl
    }

    constructor (maxEntries: int, ttl: int)
      ensures Valid() && fresh(cache) && cache.Abs() == Empty<string, Info>()
      ensures cache.config.maxSize == if maxEntries <= 0 then 10000 else maxEntries
      ensures cache.config.ttl == if ttl <= 0 then 5 * SECOND else ttl
    {
      cache := new LruCache.Cache(maxEntries, ttl);
      this.ttl := Normalised(maxEntries, ttl).ttl;
    }

    /**
     One introspection.  `fetched` is what the authorization server answers if it is asked, `now`,
     `nowClamp` and `nowPut` the clock at the lookup, at the clamp and at the write.
     */
    method Introspect(jti: string, rawToken: string, fetched: Option<Info>, now: int, nowClamp: int, nowPut: int)
      returns (a: Answer)
      requires Valid()
      modifies cache`items, cache`order, cache`repr, cache.repr
      ensures Valid()
      ensures jti == "" || rawToken == "" ==> a == BadRequest && cache.Abs() == old(cache.Abs())
      ensures jti != "" && rawToken != "" ==>
                && a == old(AnswerOf(cache.config, cache.Abs(), jti, fetched, now, nowClamp))
                && Told(a, old(LiveValue(cache.Abs().entries, jti, now)), fetched, nowClamp)
                && cache.Abs() == old(CacheAfter(cache.config, cache.Abs(), jti, fetched, now, nowClamp, nowPut))
    {
      hide GetState, LiveValue, PutState, Elements.Linked, Elements.View, Told;
      ToldExactly(cache.config, cache.Abs(), jti, fetched, now, nowClamp);
      if jti == "" || rawToken == "" {
        return BadRequest;
      }
      var hit := cache.Get(jti, now);
      if hit.Some? {
        return Judge(hit.value);
      }
      var gen := cache.Generation();
      if fetched.None? {
        return Unreachable;
      }
      var res := fetched.value;
      var t := ttl;
      if res.expiryAt > 0 {
        var untilExp := res.expiryAt * SECOND - nowClamp;
        if untilExp <= 0 {
          return Inactive(res.(active := false));
        }
        if untilExp < t {
          t := untilExp;
        }
      }
      GetSameGen(old(cache.Abs()), jti, now);
      cache.PutIfGenWithTtl(jti, res, t, gen, nowPut);
      a := Judge(res);
    }

    /** Revocation of a token: drops its entry and always bumps the generation. */
    method Invalidate(jti: string)
      requires Valid()
      modifies cache
      ensures Valid() && cache.Abs() == old(InvalidateWhereState(cache.Abs(), Only(jti)))
    {
      var n := cache.InvalidateWhere(Only(jti));
    }
  }

  // ---------------------------------------------------------------- runs

  /** Every fill uses the clamped TTL of what its request fetched, clamped at most `gap` before the write. */
  ghost predicate Clamped(c: Config, log: seq<Event<string, Info>>, gap: int) {
    forall j, i :: 0 <= j < i < |log| && log[j].Fetch? && log[i].Fill? && log[i].rid == log[j].rid ==>
      ClampedAt(c, log[j].value, log[i].ttl, log[i].now, gap)
  }

  ghost predicate ClampedAt(c: Config, info: Info, ttl: int, now: int, gap: int) {
    exists nowClamp :: Clamp(c.ttl, info.expiryAt, nowClamp) == Some(ttl) && nowClamp <= now <= nowClamp + gap
  }

  /**
   In every run a cached result is served no later than one TTL after its write, and no later than
   its `exp` plus the gap between the two clock readings; the fallback TTL of the cache is never used.
   */
  lemma ServedInTime(c: Config, log: seq<Event<string, Info>>, gap: int, n: nat)
    requires c.Valid() && Clamped(c, log, gap)
    requires n < |log| && log[n].Lookup? && Hit(c, log, n).Some?
    ensures var s := Hit(c, log, n).value;
            && s.fillAt < n && log[s.fillAt].Fill? && log[s.fillAt].ttl > 0
            && log[n].now <= log[s.fillAt].now + c.ttl
            && (s.value.expiryAt > 0 ==> log[n].now <= s.value.expiryAt * SECOND + gap)
  {
    NoStaleHit(c, log, n);
    var s := Hit(c, log, n).value;
    assert ClampedAt(c, s.value, log[s.fillAt].ttl, log[s.fillAt].now, gap);
  }

  /** The bound is attained: a run serves a result `gap` after its `exp`. */
  lemma ServedAtTheBound(c: Config, gap: int, jti: string)
    requires c.Valid() && gap >= 0
    ensures var info := Info(true, "s", 1);
            var log := [Snapshot(0), Fetch(0, jti, info), Fill(0, 1, SECOND - 1 + gap), Lookup(1, jti, SECOND + gap)];
            Clamped(c, log, gap) && Hit(c, log, 3) == Some(Stamped(info, 0, 1, 2))
  {
    var info := Info(true, "s", 1);
    var log := [Snapshot(0), Fetch(0, jti, info), Fill(0, 1, SECOND - 1 + gap), Lookup(1, jti, SECOND + gap)];
    assert ClampedAt(c, info, 1, SECOND - 1 + gap, gap) by {
      assert Clamp(c.ttl, 1, SECOND - 1) == Some(1);
    }
    var l1: seq<Event<string, Info>> := [Snapshot(0)];
    var l2 := l1 + [Fetch(0, jti, info)];
    assert log[..3] == l2 + [Fill(0, 1, SECOND - 1 + gap)];
    ExecSnoc<string, Info>(c, [], Snapshot(0));
    assert [] + l1 == l1;
    ExecSnoc(c, l1, Fetch(0, jti, info));
    ExecSnoc(c, l2, Fill(0, 1, SECOND - 1 + gap));
    var e := Entry(jti, Stamped(info, 0, 1, 2), SECOND + gap);
    assert PutState(c, Empty(), jti, e.value, e.expiresAt).entries == [e];
  }

  /** No result fetched before a revocation of the token is served from the cache after it. */
  lemma NotServedAfterRevocation(c: Config, log: seq<Event<string, Info>>, n: nat, revoked: nat)
    requires c.Valid() && revoked < n < |log| && log[n].Lookup? && Hit(c, log, n).Some?
    requires log[revoked].FlushWhere? && log[revoked].pred == Only(log[n].key)
    ensures var s := Hit(c, log, n).value;
            && revoked < s.snapAt < s.fetchAt < n
            && log[s.fetchAt].Fetch? && log[s.fetchAt].key == log[n].key && log[s.fetchAt].value == s.value
  {
    NoStaleHit(c, log, n);
    assert Invalidates(log[revoked], log[n].key);
  }

  // ---------------------------------------------------------------- an introspection as steps of a run

  /** The steps that one undisturbed introspection takes. */
  function IntrospectSteps(c: Config, log: seq<Event<string, Info>>, rid: nat, jti: string, fetched: Option<Info>,
                           now: int, nowClamp: int, nowPut: int): (steps: seq<Event<string, Info>>)
  {
    [Lookup(rid, jti, now)]
    + if LiveValue(Exec(c, log).cache.entries, jti, now).Some? then []
      else
        [Snapshot(rid)]
        + if fetched.None? then []
          else
            [Fetch(rid, jti, fetched.value)]
            + match Clamp(c.ttl, fetched.value.expiryAt, nowClamp)
              case None => []
              case Some(ttl) => [Fill(rid, ttl, nowPut)]
  }

  /** After any run, the steps of an introspection do to the cache, and tell the request, what the method does. */
  lemma IntrospectionIsARun(c: Config, log: seq<Event<string, Info>>, rid: nat, jti: string, fetched: Option<Info>,
                            now: int, nowClamp: int, nowPut: int)
    requires c.Valid()
    ensures var st := Unstamped(Exec(c, log).cache);
            var run := log + IntrospectSteps(c, log, rid, jti, fetched, now, nowClamp, nowPut);
            && Unstamped(Exec(c, run).cache) == CacheAfter(c, st, jti, fetched, now, nowClamp, nowPut)
            && run[|log|].Lookup?
            && AnswerOf(c, st, jti, fetched, now, nowClamp)
               == match Hit(c, run, |log|)
                  case Some(s) => Judge(s.value)
                  case None => AnswerOf(c, Empty(), jti, fetched, now, nowClamp)
  {
    hide Exec, GetState, PutState, Rank, Without, Clamp;
    var s := Exec(c, log);
    var look: Event<string, Info> := Lookup(rid, jti, now);
    var run := log + IntrospectSteps(c, log, rid, jti, fetched, now, nowClamp, nowPut);
    ExecSnoc(c, log, look);
    PlainGet(s.cache, jti, now);
    assert run[..|log|] == log;
    var l1 := log + [look];
    if LiveValue(s.cache.entries, jti, now).Some? {
      assert run == l1;
    } else {
      ExecSnoc(c, l1, Snapshot(rid));
      var l2 := l1 + [Snapshot(rid)];
      if fetched.None? {
        assert run == l2;
      } else {
        Fetches(c, log, rid, jti, fetched.value, now, nowClamp, nowPut);
        var l3 := l2 + [Fetch(rid, jti, fetched.value)];
        match Clamp(c.ttl, fetched.value.expiryAt, nowClamp)
        case None => assert run == l3;
        case Some(ttl) => assert run == l3 + [Fill(rid, ttl, nowPut)];
      }
    }
  }

  lemma Fetches(c: Config, log: seq<Event<string, Info>>, rid: nat, jti: string, info: Info,
                now: int, nowClamp: int, nowPut: int)
    requires c.Valid()
    ensures var l3 := log + [Lookup(rid, jti, now)] + [Snapshot(rid)] + [Fetch(rid, jti, info)];
            var got := GetState(Unstamped(Exec(c, log).cache), jti, now);
            match Clamp(c.ttl, info.expiryAt, nowClamp)
            case None => Unstamped(Exec(c, l3).cache) == got
            case Some(ttl) =>
              Unstamped(Exec(c, l3 + [Fill(rid, ttl, nowPut)]).cache) == PutState(c, got, jti, info, nowPut + ttl)
  {
    hide Exec, GetState, PutState, Rank, Without, Clamp;
    var s := Exec(c, log);
    GetSameGen(s.cache, jti, now);
    var l1 := log + [Lookup(rid, jti, now)];
    var l2 := l1 + [Snapshot(rid)];
    var l3 := l2 + [Fetch(rid, jti, info)];
    ExecSnoc(c, log, Lookup(rid, jti, now));
    ExecSnoc(c, l1, Snapshot(rid));
    ExecSnoc(c, l2, Fetch(rid, jti, info));
    PlainGet(s.cache, jti, now);
    var got := GetState(s.cache, jti, now);
    match Clamp(c.ttl, info.expiryAt, nowClamp)
    case None =>
    case Some(ttl) =>
      ExecSnoc(c, l3, Fill(rid, ttl, nowPut));
      PlainPut(c, got, jti, Stamped(info, |log| + 1, |log| + 2, |log| + 3), nowPut + ttl);
  }

  // ---------------------------------------------------------------- interleaved introspections

  /** What one introspection looks up, is answered and reads off the clock. */
  datatype Plan = Plan(jti: string, info: Info, now: int, nowClamp: int, nowPut: int)

  /** The steps of an introspection that gets to its end; one that hits, fails or is still under way takes a prefix. */
  function Program(c: Config, rid: nat, p: Plan): (steps: seq<Event<string, Info>>) {
    [Lookup(rid, p.jti, p.now), Snapshot(rid), Fetch(rid, p.jti, p.info)]
    + match Clamp(c.ttl, p.info.expiryAt, p.nowClamp)
      case None => []
      case Some(ttl) => [Fill(rid, ttl, p.nowPut)]
  }

  lemma StepsFollowProgram(c: Config, log: seq<Event<string, Info>>, rid: nat, jti: string, fetched: Option<Info>,
                           info: Info, now: int, nowClamp: int, nowPut: int)
    requires fetched.Some? ==> fetched.value == info
    ensures IntrospectSteps(c, log, rid, jti, fetched, now, nowClamp, nowPut)
            <= Program(c, rid, Plan(jti, info, now, nowClamp, nowPut))
  {
    hide Exec, LiveValue, Clamp;
  }

  predicate ByRequest(ev: Event<string, Info>) {
    ev.Lookup? || ev.Snapshot? || ev.Fetch? || ev.Fill?
  }

  /** The steps of one request in a run. */
  function Own(log: seq<Event<string, Info>>, rid: nat): (steps: seq<Event<string, Info>>) {
    if log == [] then []
    else
      var n := |log| - 1;
      Own(log[..n], rid) + (if ByRequest(log[n]) && log[n].rid == rid then [log[n]] else [])
  }

  /** Introspections interleave at will with each other and with revocations: each request follows its own program. */
  ghost predicate Introspective(c: Config, log: seq<Event<string, Info>>, plans: map<nat, Plan>, gap: int) {
    && (forall i :: 0 <= i < |log| && ByRequest(log[i]) ==> log[i].rid in plans)
    && (forall rid :: rid in plans ==>
          && Own(log, rid) <= Program(c, rid, plans[rid])
          && plans[rid].nowClamp <= plans[rid].nowPut <= plans[rid].nowClamp + gap)
  }

  lemma {:induction false} OwnMember(log: seq<Event<string, Info>>, i: nat)
    requires i < |log| && ByRequest(log[i])
    ensures log[i] in Own(log, log[i].rid)
  {
    var n := |log| - 1;
    if i < n {
      OwnMember(log[..n], i);
    }
  }

  /** Every run of interleaved introspections meets the premise of the time bound. */
  lemma IntrospectionClamps(c: Config, log: seq<Event<string, Info>>, plans: map<nat, Plan>, gap: int)
    requires Introspective(c, log, plans, gap)
    ensures Clamped(c, log, gap)
  {
    hide ClampedAt, Clamp, Own;
    forall j, i | 0 <= j < i < |log| && log[j].Fetch? && log[i].Fill? && log[i].rid == log[j].rid
      ensures ClampedAt(c, log[j].value, log[i].ttl, log[i].now, gap)
    {
      var rid := log[i].rid;
      var plan := plans[rid];
      OwnMember(log, i);
      OwnMember(log, j);
      assert log[i] in Program(c, rid, plan) && log[j] in Program(c, rid, plan);
      FillIsClamped(c, plan.info, log[i].ttl, plan.nowClamp, plan.nowPut, gap);
    }
  }

  lemma FillIsClamped(c: Config, info: Info, ttl: int, nowClamp: int, now: int, gap: int)
    requires Clamp(c.ttl, info.expiryAt, nowClamp) == Some(ttl) && nowClamp <= now <= nowClamp + gap
    ensures ClampedAt(c, info, ttl, now, gap)
  {
  }

  /**
   Over runs: a request whose lookup is at position `n` is told that a token is active only because the server said
   so, to itself or in the fetch that the cached info goes back to.
   */
  lemma ActiveGoesBack(c: Config, log: seq<Event<string, Info>>, n: nat, fetched: Option<Info>, nowClamp: int)
    requires c.Valid() && n < |log| && log[n].Lookup?
    requires AnswerOf(c, Unstamped(Exec(c, log[..n]).cache), log[n].key, fetched, log[n].now, nowClamp).Active?
    ensures var info := AnswerOf(c, Unstamped(Exec(c, log[..n]).cache), log[n].key, fetched, log[n].now, nowClamp).info;
            && info.active
            && match Hit(c, log, n)
               case Some(s) =>
                 && s.fetchAt < n && log[s.fetchAt].Fetch?
                 && log[s.fetchAt].key == log[n].key && log[s.fetchAt].value == info
               case None => fetched == Some(info) && Alive(fetched, nowClamp)
  {
    hide Exec;
    PlainGet(Exec(c, log[..n]).cache, log[n].key, log[n].now);
    ToldExactly(c, Unstamped(Exec(c, log[..n]).cache), log[n].key, fetched, log[n].now, nowClamp);
    if Hit(c, log, n).Some? {
      NoStaleHit(c, log, n);
    }
  }
}
