/**
 The write-after-invalidate protocol that the decision cache and the introspection cache share.
 A request snapshots the generation, asks an outside authority, and fills the cache only if the
 generation has not moved.  Any number of requests, lookups and invalidations interleave; a run
 is the sequence of their atomic steps, and the statements below are about every run.
 */
module GuardedFill {
  import opened Recency

  datatype Event<!K, V> =
    | Snapshot(rid: nat)
    | Lookup(rid: nat, key: K, now: int)
    | Fetch(rid: nat, key: K, value: V)
    | Fill(rid: nat, ttl: int, now: int)
    | FlushAll
    | FlushWhere(pred: K -> bool)
    /** A step of the outside world, such as a change of grants. */
    | Outside
    /** A step of another component that touches neither the cache nor the authority. */
    | Idle

  /** A cached value with the positions in the run of the steps it came from. */
  datatype Stamped<V> = Stamped(value: V, snapAt: nat, fetchAt: nat, fillAt: nat)

  datatype Fetched<K, V> = Fetched(key: K, value: V, at: nat)

  /** What a request remembers between its steps. */
  datatype Request<K, V> = Request(gen: nat, snapAt: nat, fetched: Option<Fetched<K, V>>)

  datatype System<K, V> = System(cache: State<K, Stamped<V>>, requests: map<nat, Request<K, V>>)

  function Apply<K(==), V>(c: Config, s: System<K, V>, ev: Event<K, V>, at: nat): (r: System<K, V>) {
    match ev
    case Snapshot(rid) => s.(requests := s.requests[rid := Request(s.cache.gen, at, None)])
    case Lookup(_, key, now) => s.(cache := GetState(s.cache, key, now))
    case Fetch(rid, key, value) =>
      if rid !in s.requests then s
      else s.(requests := s.requests[rid := s.requests[rid].(fetched := Some(Fetched(key, value, at)))])
    case Fill(rid, ttl, now) =>
      if rid !in s.requests || s.requests[rid].fetched.None? then s
      else
        var q := s.requests[rid];
        var f := q.fetched.value;
        s.(cache := PutIfGenState(c, s.cache, f.key, Stamped(f.value, q.snapAt, f.at, at), ttl, q.gen, now))
    case FlushAll => s.(cache := InvalidateState(s.cache))
    case FlushWhere(p) => s.(cache := InvalidateWhereState(s.cache, p))
    case Outside => s
    case Idle => s
  }

  /** The state after a run from the empty cache. */
  function Exec<K(==), V>(c: Config, log: seq<Event<K, V>>): (r: System<K, V>)
    decreases |log|
  {
    if log == [] then System(Empty(), map[])
    else Apply(c, Exec(c, log[..|log| - 1]), log[|log| - 1], |log| - 1)
  }

  predicate IsFlush<K, V>(ev: Event<K, V>) {
    ev.FlushAll? || ev.FlushWhere?
  }

  /** The step invalidates the key. */
  predicate Invalidates<K, V>(ev: Event<K, V>, k: K) {
    ev.FlushAll? || (ev.FlushWhere? && ev.pred(k))
  }

  function Flushes<K, V>(log: seq<Event<K, V>>): (n: nat)
    decreases |log|
  {
    if log == [] then 0 else Flushes(log[..|log| - 1]) + (if IsFlush(log[|log| - 1]) then 1 else 0)
  }

  lemma {:induction false} FlushesMonotone<K, V>(log: seq<Event<K, V>>, a: nat)
    requires a <= |log|
    ensures Flushes(log[..a]) <= Flushes(log)
    ensures Flushes(log[..a]) == Flushes(log) ==> forall i :: a <= i < |log| ==> !IsFlush(log[i])
    decreases |log|
  {
    if a == |log| {
      assert log[..a] == log;
    } else {
      var prev := log[..|log| - 1];
      assert prev[..a] == log[..a];
      FlushesMonotone(prev, a);
      assert forall i :: a <= i < |log| - 1 ==> log[i] == prev[i];
    }
  }

  // ---------------------------------------------------------------- the invariant

  ghost predicate RequestOk<K, V>(log: seq<Event<K, V>>, rid: nat, q: Request<K, V>) {
    && q.snapAt < |log|
    && log[q.snapAt].Snapshot? && log[q.snapAt].rid == rid
    && q.gen == Flushes(log[..q.snapAt])
    && (q.fetched.Some? ==>
          var f := q.fetched.value;
          q.snapAt < f.at < |log| && IsFetch(log[f.at], rid, f.key, f.value))
  }

  ghost predicate IsFetch<K, V>(ev: Event<K, V>, rid: nat, key: K, value: V) {
    ev.Fetch? && ev.rid == rid && ev.key == key && ev.value == value
  }

  /**
   Where a cached entry came from: one request snapshotted, then fetched this value for this key,
   then filled; and no invalidation of the key has happened since that snapshot.
   */
  ghost predicate Provenance<K, V>(c: Config, log: seq<Event<K, V>>, e: Entry<K, Stamped<V>>) {
    var s := e.value;
    && s.snapAt < s.fetchAt < s.fillAt < |log|
    && log[s.snapAt].Snapshot?
    && IsFetch(log[s.fetchAt], log[s.snapAt].rid, e.key, s.value)
    && log[s.fillAt].Fill? && log[s.fillAt].rid == log[s.snapAt].rid
    && e.expiresAt == log[s.fillAt].now + EffectiveTtl(c, log[s.fillAt].ttl)
    && (forall i :: s.snapAt <= i < |log| ==> !Invalidates(log[i], e.key))
  }

  ghost predicate Inv<K, V>(c: Config, log: seq<Event<K, V>>, s: System<K, V>) {
    && Ok(c, s.cache)
    && s.cache.gen == Flushes(log)
    && (forall rid :: rid in s.requests ==> RequestOk(log, rid, s.requests[rid]))
    && (forall e :: e in s.cache.entries ==> Provenance(c, log, e))
  }

  lemma RequestExtends<K, V>(log: seq<Event<K, V>>, ev: Event<K, V>, rid: nat, q: Request<K, V>)
    requires RequestOk(log, rid, q)
    ensures RequestOk(log + [ev], rid, q)
  {
    assert (log + [ev])[..q.snapAt] == log[..q.snapAt];
  }

  lemma ProvenanceExtends<K, V>(c: Config, log: seq<Event<K, V>>, ev: Event<K, V>, e: Entry<K, Stamped<V>>)
    requires Provenance(c, log, e) && !Invalidates(ev, e.key)
    ensures Provenance(c, log + [ev], e)
  {
  }

  lemma FlushesSnoc<K, V>(log: seq<Event<K, V>>, ev: Event<K, V>)
    ensures Flushes(log + [ev]) == Flushes(log) + (if IsFlush(ev) then 1 else 0)
  {
    assert (log + [ev])[..|log|] == log;
  }

  lemma RequestsKept<K, V>(c: Config, log: seq<Event<K, V>>, s: System<K, V>, ev: Event<K, V>)
    requires Inv(c, log, s)
    ensures forall rid :: rid in s.requests ==> RequestOk(log + [ev], rid, s.requests[rid])
  {
    forall rid | rid in s.requests ensures RequestOk(log + [ev], rid, s.requests[rid]) {
      RequestExtends(log, ev, rid, s.requests[rid]);
    }
  }

  lemma EntriesKept<K, V>(c: Config, log: seq<Event<K, V>>, s: System<K, V>, ev: Event<K, V>, entries: seq<Entry<K,
                          Stamped<V>>>)
    requires Inv(c, log, s)
    requires forall e :: e in entries ==> e in s.cache.entries && !Invalidates(ev, e.key)
    ensures forall e :: e in entries ==> Provenance(c, log + [ev], e)
  {
    forall e | e in entries ensures Provenance(c, log + [ev], e) {
      ProvenanceExtends(c, log, ev, e);
    }
  }

  /** A fill that is not dropped comes from a request with no invalidation since its snapshot. */
  lemma FillProvenance<K, V>(c: Config, log: seq<Event<K, V>>, s: System<K, V>, ev: Event<K, V>)
    requires Inv(c, log, s) && ev.Fill? && ev.rid in s.requests
    requires var q := s.requests[ev.rid]; q.fetched.Some? && q.gen == s.cache.gen
    ensures var q := s.requests[ev.rid];
            var f := q.fetched.value;
            var v := Stamped(f.value, q.snapAt, f.at, |log|);
            Provenance(c, log + [ev], Entry(f.key, v, ev.now + EffectiveTtl(c, ev.ttl)))
  {
    var q := s.requests[ev.rid];
    assert RequestOk(log, ev.rid, q);
    FlushesMonotone(log, q.snapAt);
  }

  lemma InvFill<K, V>(c: Config, log: seq<Event<K, V>>, s: System<K, V>, ev: Event<K, V>)
    requires c.Valid() && Inv(c, log, s) && ev.Fill?
    ensures Inv(c, log + [ev], Apply(c, s, ev, |log|))
  {
    hide PutState, Provenance, RequestOk, Ok;
    RequestsKept(c, log, s, ev);
    FlushesSnoc(log, ev);
    EntriesKept(c, log, s, ev, s.cache.entries);
    if ev.rid in s.requests && s.requests[ev.rid].fetched.Some? && s.requests[ev.rid].gen == s.cache.gen {
      var q := s.requests[ev.rid];
      var f := q.fetched.value;
      var v := Stamped(f.value, q.snapAt, f.at, |log|);
      var expiresAt := ev.now + EffectiveTtl(c, ev.ttl);
      FillProvenance(c, log, s, ev);
      PutOk(c, s.cache, f.key, v, expiresAt);
      PutFrom(c, s.cache, f.key, v, expiresAt);
      assert Apply(c, s, ev, |log|).cache == PutState(c, s.cache, f.key, v, expiresAt);
    }
  }

  lemma InvStep<K, V>(c: Config, log: seq<Event<K, V>>, s: System<K, V>, ev: Event<K, V>)
    requires c.Valid() && Inv(c, log, s)
    ensures Inv(c, log + [ev], Apply(c, s, ev, |log|))
  {
    hide Provenance, RequestOk, Ok, GetState, DropWhere, Exec, Flushes;
    if ev.Fill? {
      InvFill(c, log, s, ev);
      return;
    }
    if ev.Snapshot? || ev.Fetch? {
      InvRequest(c, log, s, ev);
      return;
    }
    RequestsKept(c, log, s, ev);
    FlushesSnoc(log, ev);
    match ev
    case Lookup(_, key, now) =>
      GetFrom(s.cache, key, now);
      GetSameGen(s.cache, key, now);
      GetOk(c, s.cache, key, now);
      EntriesKept(c, log, s, ev, GetState(s.cache, key, now).entries);
    case FlushAll =>
      FlushOk(c, s.cache, Anything);
    case FlushWhere(p) =>
      DropWhereFrom(c, s.cache, p);
      FlushOk(c, s.cache, p);
      EntriesKept(c, log, s, ev, DropWhere(s.cache.entries, p));
    case Outside =>
      EntriesKept(c, log, s, ev, s.cache.entries);
    case Idle =>
      EntriesKept(c, log, s, ev, s.cache.entries);
  }

  predicate Anything<K>(k: K) {
    true
  }

  lemma GetSameGen<K, V>(st: State<K, V>, k: K, now: int)
    ensures GetState(st, k, now).gen == st.gen
  {
  }

  lemma DropWhereFrom<K, V>(c: Config, st: State<K, V>, p: K -> bool)
    requires Ok(c, st)
    ensures forall e :: e in DropWhere(st.entries, p) ==> e in st.entries && !p(e.key)
  {
    DropWhereProps(st.entries, p);
  }

  /** The steps that change only what a request remembers. */
  lemma InvRequest<K, V>(c: Config, log: seq<Event<K, V>>, s: System<K, V>, ev: Event<K, V>)
    requires c.Valid() && Inv(c, log, s) && (ev.Snapshot? || ev.Fetch?)
    ensures Inv(c, log + [ev], Apply(c, s, ev, |log|))
  {
    hide Provenance, Ok, Exec;
    RequestsKept(c, log, s, ev);
    FlushesSnoc(log, ev);
    EntriesKept(c, log, s, ev, s.cache.entries);
    assert (log + [ev])[..|log|] == log;
  }

  /** The invariant holds after every run. */
  lemma {:induction false} InvAlways<K, V>(c: Config, log: seq<Event<K, V>>)
    requires c.Valid()
    ensures Inv(c, log, Exec(c, log))
    decreases |log|
  {
    if log != [] {
      var prev := log[..|log| - 1];
      InvAlways(c, prev);
      InvStep(c, prev, Exec(c, prev), log[|log| - 1]);
      assert prev + [log[|log| - 1]] == log;
    }
  }

  // ---------------------------------------------------------------- what every run guarantees

  /** The value a lookup at position `n` of a run finds. */
  function Hit<K(==), V>(c: Config, log: seq<Event<K, V>>, n: nat): (r: Option<Stamped<V>>)
    requires n < |log| && log[n].Lookup?
  {
    LiveValue(Exec(c, log[..n]).cache.entries, log[n].key, log[n].now)
  }

  /**
   No lookup returns a value older than an invalidation of its key: the request behind the hit took
   its snapshot after every earlier invalidation of the key, fetched this very value for this key
   after that, and filled it within its TTL.
   */
  lemma NoStaleHit<K, V>(c: Config, log: seq<Event<K, V>>, n: nat)
    requires c.Valid() && n < |log| && log[n].Lookup? && Hit(c, log, n).Some?
    ensures var s := Hit(c, log, n).value;
            var k := log[n].key;
            && s.snapAt < s.fetchAt < s.fillAt < n
            && log[s.snapAt].Snapshot?
            && IsFetch(log[s.fetchAt], log[s.snapAt].rid, k, s.value)
            && log[s.fillAt].Fill? && log[s.fillAt].rid == log[s.snapAt].rid
            && log[n].now <= log[s.fillAt].now + EffectiveTtl(c, log[s.fillAt].ttl)
            && (forall i :: 0 <= i < n && Invalidates(log[i], k) ==> i < s.snapAt)
  {
    var past := log[..n];
    InvAlways(c, past);
    var entries := Exec(c, past).cache.entries;
    var e := entries[Rank(entries, log[n].key)];
    assert e in entries;
    assert Provenance(c, past, e);
    forall i | 0 <= i < n && Invalidates(log[i], log[n].key) ensures i < e.value.snapAt {
      assert past[i] == log[i];
    }
  }

  /** After any flush, a fill by a request that took its snapshot before the flush changes nothing. */
  lemma LateFillDropped<K, V>(c: Config, log: seq<Event<K, V>>, n: nat, flush: nat)
    requires c.Valid() && flush < n < |log| && log[n].Fill? && IsFlush(log[flush])
    requires var rs := Exec(c, log[..n]).requests; log[n].rid in rs ==> rs[log[n].rid].snapAt <= flush
    ensures Exec(c, log[..n + 1]).cache == Exec(c, log[..n]).cache
  {
    var past := log[..n];
    var s := Exec(c, past);
    InvAlways(c, past);
    assert log[..n + 1][..n] == past;
    if log[n].rid in s.requests {
      var q := s.requests[log[n].rid];
      assert RequestOk(past, log[n].rid, q);
      FlushesMonotone(past, q.snapAt);
      assert past[flush] == log[flush];
    }
  }

  // ---------------------------------------------------------------- a changing authority

  /** How many changes of the outside world precede a position. */
  function Version<K, V>(log: seq<Event<K, V>>, n: nat): (r: nat)
    requires n <= |log|
  {
    if n == 0 then 0 else Version(log, n - 1) + (if log[n - 1].Outside? then 1 else 0)
  }

  lemma {:induction false} VersionMonotone<K, V>(log: seq<Event<K, V>>, a: nat, b: nat)
    requires a <= b <= |log|
    ensures Version(log, a) <= Version(log, b)
    decreases b
  {
    if a < b {
      VersionMonotone(log, a, b - 1);
    }
  }

  /** Every fetch returns what the authority answers at that moment. */
  ghost predicate Truthful<K, V>(log: seq<Event<K, V>>, authority: (nat, K) -> V) {
    forall i :: 0 <= i < |log| && log[i].Fetch? ==> log[i].value == authority(Version(log, i), log[i].key)
  }

  /** The position is the start of the run or comes right after an invalidation of the key. */
  predicate CleanAt<K, V>(log: seq<Event<K, V>>, k: K, from: nat)
    requires from <= |log|
  {
    from == 0 || Invalidates(log[from - 1], k)
  }

  /**
   Transparency: a hit equals what the authority would answer now, provided its answer for the key has
   not changed since some invalidation of the key (or since the start).
   */
  lemma Transparent<K, V>(c: Config, log: seq<Event<K, V>>, authority: (nat, K) -> V, n: nat, from: nat)
    requires c.Valid() && n < |log| && log[n].Lookup? && Truthful(log, authority)
    requires from <= n && CleanAt(log, log[n].key, from)
    requires forall u :: Version(log, from) <= u <= Version(log, n) ==>
                           authority(u, log[n].key) == authority(Version(log, n), log[n].key)
    ensures Hit(c, log, n).Some? ==> Hit(c, log, n).value.value == authority(Version(log, n), log[n].key)
  {
    if Hit(c, log, n).Some? {
      NoStaleHit(c, log, n);
      var s := Hit(c, log, n).value;
      if from > 0 {
        assert from - 1 < s.snapAt;
      }
      VersionMonotone(log, from, s.fetchAt);
      VersionMonotone(log, s.fetchAt, n);
    }
  }

  // ---------------------------------------------------------------- the stability premise is needed

  function Outsides<K, V>(d: nat): (log: seq<Event<K, V>>)
    ensures |log| == d
    ensures forall i :: 0 <= i < d ==> log[i].Outside?
  {
    if d == 0 then [] else Outsides(d - 1) + [Outside]
  }

  /** After any run, one request fills the cache undisturbed. */
  function FillRun<K, V>(past: seq<Event<K, V>>, a: nat, k: K, v: V): (log: seq<Event<K, V>>) {
    past + [Snapshot(a)] + [Fetch(a, k, v)] + [Fill(a, 0, 0)]
  }

  /** Then the outside world changes `d` times with no invalidation, and another request looks the key up. */
  function UnflushedRun<K, V>(past: seq<Event<K, V>>, a: nat, b: nat, k: K, v: V, d: nat): (log: seq<Event<K, V>>)
    ensures |log| == |past| + 3 + d + 1
  {
    FillRun(past, a, k, v) + Outsides(d) + [Lookup(b, k, 0)]
  }

  lemma FillLands<K, V>(c: Config, past: seq<Event<K, V>>, a: nat, k: K, v: V)
    requires c.Valid()
    ensures var s := Exec(c, FillRun(past, a, k, v)).cache.entries;
            s != [] && s[0] == Entry(k, Stamped(v, |past|, |past| + 1, |past| + 2), c.ttl)
  {
    var l1 := past + [Snapshot(a)];
    var l2 := l1 + [Fetch(a, k, v)];
    ExecSnoc(c, past, Snapshot(a));
    ExecSnoc(c, l1, Fetch(a, k, v));
    ExecSnoc(c, l2, Fill(a, 0, 0));
    hide Exec, Without, Rank;
  }

  lemma {:induction false} OutsidesKeep<K, V>(c: Config, log: seq<Event<K, V>>, d: nat)
    ensures Exec(c, log + Outsides(d)) == Exec(c, log)
  {
    if d == 0 {
      assert log + Outsides(0) == log;
    } else {
      hide Exec;
      OutsidesKeep(c, log, d - 1);
      assert log + Outsides(d) == (log + Outsides(d - 1)) + [Outside];
      ExecSnoc(c, log + Outsides(d - 1), Outside);
    }
  }

  /** The lookup finds what was filled. */
  lemma UnflushedHit<K, V>(c: Config, past: seq<Event<K, V>>, a: nat, b: nat, k: K, v: V, d: nat)
    requires c.Valid()
    ensures var log := UnflushedRun(past, a, b, k, v, d);
            && log[|log| - 1] == Lookup(b, k, 0)
            && Hit(c, log, |log| - 1) == Some(Stamped(v, |past|, |past| + 1, |past| + 2))
  {
    hide Exec, FillRun;
    var log := UnflushedRun(past, a, b, k, v, d);
    var filled := FillRun(past, a, k, v);
    FillLands(c, past, a, k, v);
    OutsidesKeep(c, filled, d);
    assert log[..|log| - 1] == filled + Outsides(d);
    var s := Exec(c, filled).cache.entries;
    assert Rank(s, k) == 0;
  }

  lemma {:induction false} VersionPrefix<K, V>(log: seq<Event<K, V>>, more: seq<Event<K, V>>, n: nat)
    requires n <= |log|
    ensures Version(log + more, n) == Version(log, n)
  {
    if n > 0 {
      VersionPrefix(log, more, n - 1);
    }
  }

  lemma {:induction false} VersionRise<K, V>(log: seq<Event<K, V>>, n: nat, d: nat)
    requires n + d <= |log| && forall i :: n <= i < n + d ==> log[i].Outside?
    ensures Version(log, n + d) == Version(log, n) + d
  {
    if d > 0 {
      VersionRise(log, n, d - 1);
    }
  }

  lemma UnflushedVersions<K, V>(past: seq<Event<K, V>>, a: nat, b: nat, k: K, v: V, d: nat)
    ensures var log := UnflushedRun(past, a, b, k, v, d);
            var u := Version(past, |past|);
            && log[..|past|] == past && log[|past|] == Snapshot(a) && log[|past| + 1] == Fetch(a, k, v)
            && log[|past| + 2] == Fill(a, 0, 0) && (forall i :: |past| + 3 <= i < |log| - 1 ==> log[i].Outside?)
            && log[|log| - 1] == Lookup(b, k, 0)
            && Version(log, |past| + 1) == u && Version(log, |log| - 1) == u + d
  {
    var log := UnflushedRun(past, a, b, k, v, d);
    var n := |past|;
    assert log == past + log[n..];
    VersionPrefix(past, log[n..], n);
    assert log[n].Snapshot? && log[n + 1].Fetch? && log[n + 2].Fill?;
    assert Version(log, n + 1) == Version(log, n);
    assert Version(log, n + 2) == Version(log, n);
    assert Version(log, n + 3) == Version(log, n);
    VersionRise(log, n + 3, d);
  }

  /**
   The stability premise is needed: after any run, whenever the authority's answer differs between the version of a
   fill and a later one with no invalidation in between, the old answer is served at the later version.
   */
  lemma StaleWithoutFlush<K, V>(c: Config, past: seq<Event<K, V>>, authority: (nat, K) -> V, k: K, a: nat, b: nat,
                                d: nat)
    requires c.Valid() && Truthful(past, authority)
    requires var u := Version(past, |past|); authority(u, k) != authority(u + d, k)
    ensures var log := UnflushedRun(past, a, b, k, authority(Version(past, |past|), k), d);
            var n := |log| - 1;
            && Truthful(log, authority)
            && log[n].Lookup? && Hit(c, log, n).Some? && Hit(c, log, n).value.value != authority(Version(log, n), k)
  {
    hide Hit, UnflushedRun, Truthful, Exec, Version;
    var v := authority(Version(past, |past|), k);
    UnflushedHit(c, past, a, b, k, v, d);
    UnflushedVersions(past, a, b, k, v, d);
    UnflushedTruthful(past, authority, k, a, b, d);
  }

  lemma UnflushedTruthful<K, V>(past: seq<Event<K, V>>, authority: (nat, K) -> V, k: K, a: nat, b: nat, d: nat)
    requires Truthful(past, authority)
    ensures Truthful(UnflushedRun(past, a, b, k, authority(Version(past, |past|), k), d), authority)
  {
    hide UnflushedRun, Version;
    var v := authority(Version(past, |past|), k);
    UnflushedVersions(past, a, b, k, v, d);
    var log := UnflushedRun(past, a, b, k, v, d);
    var tail := log[|past|..];
    assert log == past + tail;
    forall i | 0 <= i < |log| && log[i].Fetch? ensures log[i].value == authority(Version(log, i), log[i].key) {
      if i < |past| {
        assert log[i] == past[i];
        VersionPrefix(past, tail, i);
      } else {
        assert i == |past| + 1;
      }
    }
  }

  lemma ExecSnoc<K, V>(c: Config, log: seq<Event<K, V>>, ev: Event<K, V>)
    ensures Exec(c, log + [ev]) == Apply(c, Exec(c, log), ev, |log|)
  {
    assert (log + [ev])[..|log|] == log;
  }

  // ---------------------------------------------------------------- the cache without the stamps

  /** The entries without the record of where they came from. */
  function Plainly<K, V>(s: seq<Entry<K, Stamped<V>>>): (r: seq<Entry<K, V>>)
    ensures |r| == |s|
    ensures forall i :: 0 <= i < |s| ==> r[i] == Entry(s[i].key, s[i].value.value, s[i].expiresAt)
  {
    seq(|s|, i requires 0 <= i < |s| => Entry(s[i].key, s[i].value.value, s[i].expiresAt))
  }

  function Unstamped<K, V>(st: State<K, Stamped<V>>): (r: State<K, V>) {
    State(Plainly(st.entries), st.gen)
  }

  lemma PlainRank<K, V>(s: seq<Entry<K, Stamped<V>>>, k: K)
    ensures Rank(Plainly(s), k) == Rank(s, k)
    ensures Without(Plainly(s), k) == Plainly(Without(s, k))
  {
    var i, j := Rank(s, k), Rank(Plainly(s), k);
    assert i == j;
  }

  lemma PlainGet<K, V>(st: State<K, Stamped<V>>, k: K, now: int)
    ensures GetState(Unstamped(st), k, now) == Unstamped(GetState(st, k, now))
    ensures LiveValue(Unstamped(st).entries, k, now)
            == match LiveValue(st.entries, k, now) case Some(s) => Some(s.value) case None => None
  {
    PlainRank(st.entries, k);
    hide Without, Rank;
  }

  lemma PlainPut<K, V>(c: Config, st: State<K, Stamped<V>>, k: K, v: Stamped<V>, expiresAt: int)
    ensures PutState(c, Unstamped(st), k, v.value, expiresAt) == Unstamped(PutState(c, st, k, v, expiresAt))
  {
    PlainRank(st.entries, k);
    hide Without, Rank;
  }
}
