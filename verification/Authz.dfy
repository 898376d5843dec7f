/**
 The authorization decision: the pipeline of phases, the decision cache with its invalidation by
 subject, and the metrics.  The catalog, the overrides, token checks and the IAM Check are outside;
 what they answer for a request is given as data.
 */
module Authz {
  import opened Recency
  import opened CacheKey
  import opened Metrics
  import Elements
  import LruCache

  datatype Cached = Cached(allowed: bool, reasons: seq<string>)

  /** What the IAM Check answers: a decision, a deny in the form of an error, or a failure. */
  datatype Reply = Allowed | Denied(reasons: seq<string>) | PermissionDenied(message: string) | Failed

  datatype Outcome =
    | Allow
    | Deny(reasons: seq<string>)
    | NotFound
    | Unauthenticated
    | InvalidArgument
    | Error

  datatype Override = NoOverride | OverrideAllow | OverrideDeny

  /** What the lookups before the check say about a request. */
  datatype Route = Route(allowlisted: bool, internalExempt: bool, override: Override, found: bool, exempt: bool,
                         authenticated: bool, streamUnresolved: bool, malformedId: bool,
                         hidesExistence: bool, inputs: Inputs)

  const STREAM_UNRESOLVED: string :=
    "streaming RPC with a concrete-resource scope cannot be authorized: "
    + "scope id unresolvable on the unmaterialised stream path"

  // ---------------------------------------------------------------- outcomes

  function DenyOutcome(hidesExistence: bool, reasons: seq<string>): (o: Outcome) {
    if hidesExistence then NotFound else Deny(reasons)
  }

  /** What a reply puts into the cache; a failure is never cached. */
  function Verdict(reply: Reply): (r: Option<Cached>) {
    match reply
    case Allowed => Some(Cached(true, []))
    case Denied(reasons) => Some(Cached(false, if reasons == [] then ["no path"] else reasons))
    case PermissionDenied(message) => Some(Cached(false, [message]))
    case Failed => None
  }

  function CachedOutcome(hidesExistence: bool, v: Cached): (o: Outcome) {
    if v.allowed then Allow else DenyOutcome(hidesExistence, v.reasons)
  }

  function FreshOutcome(hidesExistence: bool, reply: Reply): (o: Outcome) {
    match reply
    case Allowed => Allow
    case Denied(reasons) => DenyOutcome(hidesExistence, if reasons == [] then ["no path"] else reasons)
    case PermissionDenied(message) => DenyOutcome(hidesExistence, [message])
    case Failed => Error
  }

  /** Nothing before the resource phase is final. */
  predicate Reaches(r: Route) {
    !r.allowlisted && !r.internalExempt && r.override.NoOverride? && r.found && !r.exempt && r.authenticated
  }

  /** The outcome of the phases before the check, if one of them is final. */
  function Early(r: Route): (o: Option<Outcome>)
    ensures o == Some(Allow) <==>
            || r.allowlisted || r.internalExempt || r.override.OverrideAllow?
            || (r.override.NoOverride? && r.found && r.exempt && r.authenticated)
    ensures o == Some(Unauthenticated) <==>
            !r.allowlisted && !r.internalExempt && r.override.NoOverride? && r.found && !r.authenticated
    ensures o.Some? && o.value.Deny? <==>
            && !r.allowlisted && !r.internalExempt
            && (r.override.OverrideDeny?
                || (r.override.NoOverride? && (!r.found || (!r.exempt && r.authenticated && r.streamUnresolved))))
    ensures o == Some(InvalidArgument) <==> Reaches(r) && !r.streamUnresolved && r.malformedId
    ensures o.None? <==> Reaches(r) && !r.streamUnresolved && !r.malformedId
  {
    if r.allowlisted || r.internalExempt then Some(Allow)
    else if r.override.OverrideAllow? then Some(Allow)
    else if r.override.OverrideDeny? then Some(Deny(["override: explicit deny"]))
    else if r.found && r.exempt then Some(if r.authenticated then Allow else Unauthenticated)
    else if !r.found then
      Some(Deny([if r.authenticated then "catalog: no entry for method"
                 else "catalog: no entry for method; unauthenticated"]))
    else if !r.authenticated then Some(Unauthenticated)
    else if r.streamUnresolved then Some(Deny([STREAM_UNRESOLVED]))
    else if r.malformedId then Some(InvalidArgument)
    else None
  }

  /** The decision with no cache at all. */
  function Uncached(r: Route, reply: Reply): (o: Outcome) {
    match Early(r)
    case Some(o) => o
    case None => FreshOutcome(r.hidesExistence, reply)
  }

  /** The outcome of the last phase in a cache state: the live cached verdict, or the check. */
  function CheckOutcome(st: State<string, Cached>, key: string, r: Route, reply: Reply, now: int): (o: Outcome) {
    match LiveValue(st.entries, key, now)
    case Some(v) => CachedOutcome(r.hidesExistence, v)
    case None => FreshOutcome(r.hidesExistence, reply)
  }

  /** The cache after the last phase: a hit is only a use; a miss writes the verdict, if there is one. */
  function CheckState(c: Config, st: State<string, Cached>, key: string, reply: Reply, now: int, nowPut: int)
    : (r: State<string, Cached>)
  {
    var got := GetState(st, key, now);
    if LiveValue(st.entries, key, now).Some? then got else WrittenState(c, got, key, reply, st.gen, nowPut)
  }

  /** The cache after the check has answered: its verdict, if there is one, is written under the generation guard. */
  function WrittenState(c: Config, st: State<string, Cached>, key: string, reply: Reply, gen: nat, nowPut: int)
    : (r: State<string, Cached>)
  {
    match Verdict(reply)
    case None => st
    case Some(v) => PutIfGenState(c, st, key, v, c.ttl, gen, nowPut)
  }

  /** The reason of a deny before the check. */
  lemma EarlyReasons(r: Route)
    requires Early(r).Some? && Early(r).value.Deny?
    ensures Early(r).value.reasons == [
              if r.override.OverrideDeny? then "override: explicit deny"
              else if r.found then
                "streaming RPC with a concrete-resource scope cannot be authorized: "
                + "scope id unresolvable on the unmaterialised stream path"
              else if r.authenticated then "catalog: no entry for method"
              else "catalog: no entry for method; unauthenticated"]
  {
  }

  // ---------------------------------------------------------------- what each reply and each verdict gives

  /** The reply is a deny with these reasons. */
  predicate DeniesWith(reply: Reply, reasons: seq<string>) {
    || (reply.Denied? && reply.reasons == [] && reasons == ["no path"])
    || (reply.Denied? && reply.reasons != [] && reasons == reply.reasons)
    || (reply.PermissionDenied? && reasons == [reply.message])
  }

  /** Without a live verdict the reply decides: a failure is an error, and a deny hides its reasons where it must. */
  lemma MissOutcome(st: State<string, Cached>, key: string, r: Route, reply: Reply, now: int)
    requires LiveValue(st.entries, key, now).None?
    ensures var o := CheckOutcome(st, key, r, reply, now);
            && (o == Allow <==> reply.Allowed?)
            && (o == Error <==> reply.Failed?)
            && (o == NotFound <==> (reply.Denied? || reply.PermissionDenied?) && r.hidesExistence)
            && (forall reasons :: o == Deny(reasons) <==> !r.hidesExistence && DeniesWith(reply, reasons))
            && o != Unauthenticated && o != InvalidArgument
  {
  }

  /** With one it decides, whatever the check would answer. */
  lemma HitOutcome(st: State<string, Cached>, key: string, r: Route, reply: Reply, now: int)
    requires LiveValue(st.entries, key, now).Some?
    ensures var o, v := CheckOutcome(st, key, r, reply, now), LiveValue(st.entries, key, now).value;
            && (o == Allow <==> v.allowed)
            && (o == NotFound <==> !v.allowed && r.hidesExistence)
            && (forall reasons :: o == Deny(reasons) <==> !v.allowed && !r.hidesExistence && reasons == v.reasons)
            && o != Error && o != Unauthenticated && o != InvalidArgument
  {
  }

  /** What the cache holds for the key afterwards: on a miss the reply, unless it failed; on a hit what it held. */
  lemma CachedAfter(c: Config, st: State<string, Cached>, key: string, reply: Reply, now: int, nowPut: int)
    requires c.Valid() && Ok(c, st)
    ensures var e := EntryOf(CheckState(c, st, key, reply, now, nowPut), key);
            && (LiveValue(st.entries, key, now).Some? ==> e == EntryOf(st, key))
            && (LiveValue(st.entries, key, now).None? ==>
                  && (e.None? <==> reply.Failed?)
                  && (e.Some? ==>
                        && e.value.expiresAt == nowPut + c.ttl && (e.value.value.allowed <==> reply.Allowed?)
                        && (reply.Allowed? || DeniesWith(reply, e.value.value.reasons))))
    ensures CheckState(c, st, key, reply, now, nowPut).gen == st.gen
  {
    var got := GetState(st, key, now);
    GetOk(c, st, key, now);
    GetExactly(c, st, key, now, key);
    if Verdict(reply).Some? {
      PutIfGenExactly(c, got, key, Verdict(reply).value, c.ttl, st.gen, nowPut);
    }
    hide GetState, PutState, Rank;
  }

  // ---------------------------------------------------------------- the decision cache

  /** The keys that invalidation of a subject matches, as a function value. */
  function SubjectKeys(subject: string): (p: string -> bool)
    ensures forall k :: p(k) <==> ForSubject(subject, k)
  {
    (k: string) => ForSubject(subject, k)
  }

  class DecisionCache {
    const c: LruCache.Cache<string, Cached>

    constructor (maxSize: int, ttl: int)
      ensures c.Valid() && fresh(c) && c.config == Normalised(maxSize, ttl)
      ensures c.Abs() == Empty<string, Cached>() && c.repr == {}
    {
      c := new LruCache.Cache(maxSize, ttl);
    }

    /** Drops a subject's entries and bumps the generation; an empty subject does neither. */
    method InvalidateSubject(subject: string) returns (removed: nat)
      requires c.Valid()
      modifies c
      ensures c.Valid()
      ensures subject == "" ==> removed == 0 && c.Abs() == old(c.Abs())
      ensures subject != "" ==> c.Abs() == old(InvalidateWhereState(c.Abs(), SubjectKeys(subject)))
      ensures removed == old(|c.order|) - |c.order| && c.repr == old(c.repr)
    {
      if subject == "" {
        return 0;
      }
      removed := c.InvalidateWhere(SubjectKeys(subject));
    }
  }

  // ---------------------------------------------------------------- decide

  class AuthzMiddleware {
    const cache: LruCache.Cache<string, Cached>
    const metrics: AuthzMetrics
    ghost var calls: nat
    ghost var checks: nat

    /** Conservation: every call is counted once as a result and once as a sample; every check, as hit or miss. */
    ghost predicate Valid()
      reads this, cache, metrics, metrics.counts
    {
      && cache.Valid() && metrics.Valid()
      && metrics.allowed + metrics.denied + metrics.errors == metrics.count == calls
      && metrics.hits + metrics.misses == checks
    }

    constructor (maxSize: int, ttl: int, buckets: seq<real>)
      ensures Valid() && fresh(cache) && fresh(metrics) && fresh(metrics.counts)
      ensures calls == checks == 0 && cache.Abs() == Empty<string, Cached>()
    {
      var d := new DecisionCache(maxSize, ttl);
      cache := d.c;
      metrics := new AuthzMetrics(buckets);
      calls, checks := 0, 0;
    }

    /**
     One decision.  `reply` is what the check answers if it is asked; `now` and `nowPut` are the clock
     at the lookup and at the write.
     */
    method Decide(hash: string -> string, r: Route, reply: Reply, now: int, nowPut: int, latency: real)
      returns (o: Outcome)
      requires Valid()
      modifies this, cache, cache.repr, metrics, metrics.counts
      ensures Valid() && calls == old(calls) + 1
      ensures checks == old(checks) + (if Early(r).None? then 1 else 0)
      ensures metrics.allowed == old(metrics.allowed) + (if o.Allow? then 1 else 0)
      ensures metrics.errors == old(metrics.errors) + (if o.Error? then 1 else 0)
      ensures metrics.samples == old(metrics.samples) + [if latency < 0.0 then 0.0 else latency]
      ensures Early(r).Some? ==> o == Early(r).value && cache.Abs() == old(cache.Abs())
      ensures Early(r).None? ==>
                && o == old(CheckOutcome(cache.Abs(), Key(hash, r.inputs), r, reply, now))
                && cache.Abs() == old(CheckState(cache.config, cache.Abs(), Key(hash, r.inputs), reply, now, nowPut))
    {
      hide CheckOutcome, CheckState, Elements.Linked, Elements.View, Key, Early, InBucket, Total, AscendingPositive;
      calls := calls + 1;
      var early := BeforeCheck(r);
      if early.Some? {
        o := early.value;
      } else {
        o := PhaseCheck(hash, r, reply, now, nowPut);
      }
      metrics.ObserveLatencyMs(latency);
    }

    /** The phases before the check, each of which may be final and then records its own result. */
    method BeforeCheck(r: Route) returns (o: Option<Outcome>)
      modifies metrics`allowed, metrics`denied
      ensures o == Early(r) && (o.Some? ==> !o.value.Error?)
      ensures metrics.allowed == old(metrics.allowed) + (if o == Some(Allow) then 1 else 0)
      ensures metrics.denied == old(metrics.denied) + (if o.Some? && !o.value.Allow? then 1 else 0)
    {
      if r.allowlisted {
        metrics.allowed := metrics.allowed + 1;
        return Some(Allow);
      }
      if r.internalExempt {
        metrics.allowed := metrics.allowed + 1;
        return Some(Allow);
      }
      if r.override.OverrideAllow? {
        metrics.allowed := metrics.allowed + 1;
        return Some(Allow);
      } else if r.override.OverrideDeny? {
        metrics.denied := metrics.denied + 1;
        return Some(Deny(["override: explicit deny"]));
      }
      if r.found && r.exempt {
        if !r.authenticated {
          metrics.denied := metrics.denied + 1;
          return Some(Unauthenticated);
        }
        metrics.allowed := metrics.allowed + 1;
        return Some(Allow);
      }
      if !r.found {
        var reason := "catalog: no entry for method";
        if !r.authenticated {
          reason := "catalog: no entry for method; unauthenticated";
        }
        metrics.denied := metrics.denied + 1;
        return Some(Deny([reason]));
      }
      if !r.authenticated {
        metrics.denied := metrics.denied + 1;
        return Some(Unauthenticated);
      }
      if r.streamUnresolved {
        metrics.denied := metrics.denied + 1;
        return Some(Deny([STREAM_UNRESOLVED]));
      }
      if r.malformedId {
        metrics.denied := metrics.denied + 1;
        return Some(InvalidArgument);
      }
      o := None;
    }

    method RecordAllow() returns (o: Outcome)
      modifies metrics`allowed
      ensures o == Allow && metrics.allowed == old(metrics.allowed) + 1
    {
      metrics.allowed := metrics.allowed + 1;
      o := Allow;
    }

    method RecordDeny(d: Outcome) returns (o: Outcome)
      modifies metrics`denied
      ensures o == d && metrics.denied == old(metrics.denied) + 1
    {
      metrics.denied := metrics.denied + 1;
      o := d;
    }

    /** Acts on a cached verdict. */
    method ServeCached(hidesExistence: bool, v: Cached) returns (o: Outcome)
      modifies metrics`allowed, metrics`denied
      ensures o == CachedOutcome(hidesExistence, v) && !o.Error?
      ensures metrics.allowed == old(metrics.allowed) + (if o.Allow? then 1 else 0)
      ensures metrics.denied == old(metrics.denied) + (if o.Allow? then 0 else 1)
    {
      if v.allowed {
        o := RecordAllow();
      } else {
        o := RecordDeny(DenyOutcome(hidesExistence, v.reasons));
      }
    }

    /** The last phase: snapshot, lookup, check, conditional write. */
    method PhaseCheck(hash: string -> string, r: Route, reply: Reply, now: int, nowPut: int) returns (o: Outcome)
      requires cache.Valid()
      modifies this`checks, cache`items, cache`order, cache`repr, cache.repr
      modifies metrics`hits, metrics`misses, metrics`allowed, metrics`denied, metrics`errors
      ensures cache.Valid() && checks == old(checks) + 1
      ensures metrics.hits + metrics.misses == old(metrics.hits + metrics.misses) + 1
      ensures old(LiveValue(cache.Abs().entries, Key(hash, r.inputs), now)).Some? <==> metrics.hits > old(metrics.hits)
      ensures metrics.hits >= old(metrics.hits) && metrics.misses >= old(metrics.misses)
      ensures metrics.allowed == old(metrics.allowed) + (if o.Allow? then 1 else 0)
      ensures metrics.errors == old(metrics.errors) + (if o.Error? then 1 else 0)
      ensures metrics.denied == old(metrics.denied) + (if o.Allow? || o.Error? then 0 else 1)
      ensures o == old(CheckOutcome(cache.Abs(), Key(hash, r.inputs), r, reply, now))
      ensures cache.Abs() == old(CheckState(cache.config, cache.Abs(), Key(hash, r.inputs), reply, now, nowPut))
    {
      hide GetState, LiveValue, PutIfGenState, Elements.Linked, Elements.View, Key, Verdict, CachedOutcome,
           FreshOutcome;
      checks := checks + 1;
      var key := BuildCacheKey(hash, r.inputs);
      var gen := cache.Generation();
      var cached := cache.Get(key, now);
      if cached.Some? {
        metrics.hits := metrics.hits + 1;
        o := ServeCached(r.hidesExistence, cached.value);
      } else {
        metrics.misses := metrics.misses + 1;
        o := Check(key, gen, r, reply, nowPut);
      }
    }

    /** Acts on the answer of the check: all but a failure is written under the generation guard. */
    method Check(key: string, gen: nat, r: Route, reply: Reply, nowPut: int) returns (o: Outcome)
      requires cache.Valid()
      modifies cache`items, cache`order, cache`repr, cache.repr
      modifies metrics`allowed, metrics`denied, metrics`errors
      ensures cache.Valid()
      ensures metrics.allowed == old(metrics.allowed) + (if o.Allow? then 1 else 0)
      ensures metrics.errors == old(metrics.errors) + (if o.Error? then 1 else 0)
      ensures metrics.denied == old(metrics.denied) + (if o.Allow? || o.Error? then 0 else 1)
      ensures o == FreshOutcome(r.hidesExistence, reply)
      ensures cache.Abs() == old(WrittenState(cache.config, cache.Abs(), key, reply, gen, nowPut))
    {
      hide PutIfGenState, Elements.Linked, Elements.View;
      match reply {
        case Failed =>
          metrics.errors := metrics.errors + 1;
          o := Error;
        case PermissionDenied(message) =>
          o := RecordDeny(DenyOutcome(r.hidesExistence, [message]));
          cache.PutIfGen(key, Cached(false, [message]), gen, nowPut);
        case Allowed =>
          cache.PutIfGen(key, Cached(true, []), gen, nowPut);
          o := RecordAllow();
        case Denied(reasons) =>
          var rs := if reasons == [] then ["no path"] else reasons;
          cache.PutIfGen(key, Cached(false, rs), gen, nowPut);
          o := RecordDeny(DenyOutcome(r.hidesExistence, rs));
      }
    }
  }
}
