/**
 Properties of whole runs of the cache: the entries are always in the order of their last
 use, so the entry evicted is the least recently used one; and a key that was just used
 survives exactly as long as fewer than `maxSize` other keys are used after it.
 */
module RecencyRuns {
  import opened Recency

  // ---------------------------------------------------------------- order of last use

  /** A cache together with a record, kept apart from it, of when each key was last used. */
  datatype Timed<K, V> = Timed(st: State<K, V>, lastUse: map<K, nat>, clock: nat)

  function TimedStep<K(==), V>(c: Config, t: Timed<K, V>, op: Op<K, V>): (r: Timed<K, V>) {
    var lastUse := match UsedKey(c, t.st, op)
      case Some(k) => t.lastUse[k := t.clock]
      case None => t.lastUse;
    Timed(Step(c, t.st, op), lastUse, t.clock + 1)
  }

  function TimedRun<K(==), V>(c: Config, t: Timed<K, V>, ops: seq<Op<K, V>>): (r: Timed<K, V>)
    decreases |ops|
  {
    if ops == [] then t else TimedRun(c, TimedStep(c, t, ops[0]), ops[1..])
  }

  /** Every entry was used at some time before `bound`, and earlier entries later than later ones. */
  predicate Descending<K(==), V>(s: seq<Entry<K, V>>, lastUse: map<K, nat>, bound: nat) {
    && (forall i :: 0 <= i < |s| ==> s[i].key in lastUse && lastUse[s[i].key] < bound)
    && (forall i, j :: 0 <= i < j < |s| ==> lastUse[s[i].key] > lastUse[s[j].key])
  }

  lemma DescendingDistinct<K, V>(s: seq<Entry<K, V>>, lastUse: map<K, nat>, bound: nat)
    requires Descending(s, lastUse, bound)
    ensures Distinct(s)
  {
  }

  lemma DescendingWithout<K, V>(s: seq<Entry<K, V>>, lastUse: map<K, nat>, bound: nat, k: K)
    requires Descending(s, lastUse, bound)
    ensures Descending(Without(s, k), lastUse, bound)
  {
  }

  lemma DescendingCons<K, V>(e: Entry<K, V>, s: seq<Entry<K, V>>, lastUse: map<K, nat>, bound: nat)
    requires Descending(s, lastUse, bound)
    requires e.key in lastUse && lastUse[e.key] < bound
    requires forall i :: 0 <= i < |s| ==> lastUse[e.key] > lastUse[s[i].key]
    ensures Descending([e] + s, lastUse, bound)
  {
  }

  lemma {:induction false} DescendingDrop<K, V>(s: seq<Entry<K, V>>, lastUse: map<K, nat>, bound: nat, p: K -> bool)
    requires Descending(s, lastUse, bound)
    ensures Descending(DropWhere(s, p), lastUse, bound)
  {
    if s != [] {
      DescendingDrop(s[1..], lastUse, bound, p);
      DescendingDistinct(s, lastUse, bound);
      DropWhereProps(s[1..], p);
      var rest := DropWhere(s[1..], p);
      forall i | 0 <= i < |rest| ensures lastUse[s[0].key] > lastUse[rest[i].key] {
        assert rest[i] in rest;
        assert rest[i] in s[1..];
        var j :| 1 <= j < |s| && s[j] == rest[i];
      }
      DescendingCons(s[0], rest, lastUse, bound);
    }
  }

  lemma DescendingFront<K, V>(s: seq<Entry<K, V>>, lastUse: map<K, nat>, bound: nat, e: Entry<K, V>, n: nat)
    requires Descending(s, lastUse, bound)
    requires n <= |s| + 1
    ensures Descending(([e] + Without(s, e.key)), lastUse[e.key := bound], bound + 1)
    ensures n <= |Without(s, e.key)| + 1
            ==> Descending(([e] + Without(s, e.key))[..n], lastUse[e.key := bound], bound + 1)
  {
    DescendingDistinct(s, lastUse, bound);
    DescendingWithout(s, lastUse, bound, e.key);
    WithoutProps(s, e.key);
  }

  lemma DescendingWiden<K, V>(s: seq<Entry<K, V>>, lastUse: map<K, nat>, bound: nat)
    requires Descending(s, lastUse, bound)
    ensures Descending(s, lastUse, bound + 1)
  {
  }

  lemma DescendingPut<K, V>(c: Config, st: State<K, V>, k: K, v: V, expiresAt: int, lastUse: map<K, nat>, bound: nat)
    requires Descending(st.entries, lastUse, bound)
    ensures Descending(PutState(c, st, k, v, expiresAt).entries, lastUse[k := bound], bound + 1)
  {
    DescendingFront(st.entries, lastUse, bound, Entry(k, v, expiresAt), |st.entries|);
    DescendingFront(st.entries, lastUse, bound, Entry(k, v, expiresAt), 0);
  }

  lemma DescendingGet<K, V>(st: State<K, V>, k: K, now: int, lastUse: map<K, nat>, bound: nat)
    requires Descending(st.entries, lastUse, bound)
    ensures LiveValue(st.entries, k, now).Some?
            ==> Descending(GetState(st, k, now).entries, lastUse[k := bound], bound + 1)
    ensures LiveValue(st.entries, k, now).None?
            ==> Descending(GetState(st, k, now).entries, lastUse, bound)
    ensures Descending(PeekState(st, k, now).entries, lastUse, bound)
    ensures Descending(InvalidateKeyState(st, k).entries, lastUse, bound)
  {
    DescendingWithout(st.entries, lastUse, bound, k);
    var i := Rank(st.entries, k);
    if i < |st.entries| {
      DescendingFront(st.entries, lastUse, bound, st.entries[i], 0);
    }
  }

  lemma DescendingStep<K, V>(c: Config, t: Timed<K, V>, op: Op<K, V>)
    requires Descending(t.st.entries, t.lastUse, t.clock)
    ensures var t' := TimedStep(c, t, op); Descending(t'.st.entries, t'.lastUse, t'.clock)
  {
    hide GetState, PeekState, PutState, Descending, LiveValue;
    var st := t.st;
    match op
    case Get(k, now) =>
      DescendingGet(st, k, now, t.lastUse, t.clock);
      if LiveValue(st.entries, k, now).None? {
        DescendingWiden(GetState(st, k, now).entries, t.lastUse, t.clock);
      }
    case Peek(k, now) =>
      DescendingGet(st, k, now, t.lastUse, t.clock);
      DescendingWiden(PeekState(st, k, now).entries, t.lastUse, t.clock);
    case Put(k, v, ttl, now) =>
      DescendingPut(c, st, k, v, now + EffectiveTtl(c, ttl), t.lastUse, t.clock);
    case AddIfAbsent(k, v, nowCheck, nowPut) =>
      DescendingGet(st, k, nowCheck, t.lastUse, t.clock);
      DescendingPut(c, PeekState(st, k, nowCheck), k, v, nowPut + c.ttl, t.lastUse, t.clock);
      DescendingWiden(st.entries, t.lastUse, t.clock);
    case PutIfGen(k, v, ttl, gen, now) =>
      DescendingPut(c, st, k, v, now + EffectiveTtl(c, ttl), t.lastUse, t.clock);
      DescendingWiden(st.entries, t.lastUse, t.clock);
    case Invalidate =>
      DescendingNil<K, V>(t.lastUse, t.clock + 1);
    case InvalidateKey(k) =>
      DescendingGet(st, k, 0, t.lastUse, t.clock);
      DescendingWiden(Without(st.entries, k), t.lastUse, t.clock);
    case InvalidateWhere(p) =>
      DescendingDrop(st.entries, t.lastUse, t.clock, p);
      DescendingWiden(DropWhere(st.entries, p), t.lastUse, t.clock);
  }

  lemma DescendingNil<K, V>(lastUse: map<K, nat>, bound: nat)
    ensures Descending<K, V>([], lastUse, bound)
  {
  }

  /** In every run from the empty cache the entries are ordered by their last use, latest first. */
  lemma {:induction false} OrderedByLastUse<K, V>(c: Config, t: Timed<K, V>, ops: seq<Op<K, V>>)
    requires Descending(t.st.entries, t.lastUse, t.clock)
    ensures var t' := TimedRun(c, t, ops);
            Descending(t'.st.entries, t'.lastUse, t'.clock) && t'.st == Run(c, t.st, ops)
    decreases |ops|
  {
    if ops != [] {
      DescendingStep(c, t, ops[0]);
      OrderedByLastUse(c, TimedStep(c, t, ops[0]), ops[1..]);
    }
  }

  /**
   After any run from the empty cache, a write of a new key into a full cache removes exactly one
   key, and every key that stays was used more recently than it.
   */
  lemma VictimIsLeastRecentlyUsed<K, V>(c: Config, ops: seq<Op<K, V>>, k: K, v: V, expiresAt: int)
    requires c.Valid()
    requires var s := TimedRun(c, Timed(Empty<K, V>(), map[], 0), ops).st.entries; |s| == c.maxSize && !Has(s, k)
    ensures
      var t := TimedRun(c, Timed(Empty<K, V>(), map[], 0), ops);
      var s := t.st.entries;
      var s' := PutState(c, t.st, k, v, expiresAt).entries;
      var victim := s[|s| - 1].key;
      && t.st == Run(c, Empty<K, V>(), ops)
      && !Has(s', victim)
      && |s'| == c.maxSize
      && victim in t.lastUse
      && (forall x | Has(s, x) && x != victim ::
            Has(s', x) && x in t.lastUse && t.lastUse[victim] < t.lastUse[x])
  {
    hide TimedRun, Run, PutState, Descending;
    OrderedByLastUse(c, Timed(Empty<K, V>(), map[], 0), ops);
    var t := TimedRun(c, Timed(Empty<K, V>(), map[], 0), ops);
    VictimOf(c, t, k, v, expiresAt);
  }

  lemma VictimOf<K, V>(c: Config, t: Timed<K, V>, k: K, v: V, expiresAt: int)
    requires c.Valid() && Descending(t.st.entries, t.lastUse, t.clock)
    requires |t.st.entries| == c.maxSize && !Has(t.st.entries, k)
    ensures var s := t.st.entries;
            var s' := PutState(c, t.st, k, v, expiresAt).entries;
            var victim := s[|s| - 1].key;
            && !Has(s', victim) && |s'| == c.maxSize && victim in t.lastUse
            && (forall x | Has(s, x) && x != victim ::
                  Has(s', x) && x in t.lastUse && t.lastUse[victim] < t.lastUse[x])
  {
    var s := t.st.entries;
    var e := Entry(k, v, expiresAt);
    var s' := PutState(c, t.st, k, v, expiresAt).entries;
    var victim := s[|s| - 1].key;
    assert s' == [e] + s[..|s| - 1];
    DescendingDistinct(s, t.lastUse, t.clock);
    RankOf(s, |s| - 1);
    hide PutState;
    assert forall i :: 0 <= i < |s'| ==> s'[i].key != victim;
    forall x | Has(s, x) && x != victim
      ensures Has(s', x) && x in t.lastUse && t.lastUse[victim] < t.lastUse[x]
    {
      var i := Rank(s, x);
      assert i < |s| - 1;
      assert s'[i + 1].key == x;
    }
  }

  // ---------------------------------------------------------------- survival

  /** The operation does not itself remove the key: no matching invalidation, no lookup after expiry. */
  predicate Spares<K(==), V>(st: State<K, V>, op: Op<K, V>, k: K)
    requires Has(st.entries, k)
  {
    var e := st.entries[Rank(st.entries, k)];
    match op
    case Get(x, now) => x == k ==> Live(e, now)
    case Peek(x, now) => x == k ==> Live(e, now)
    case AddIfAbsent(x, _, nowCheck, _) => x == k ==> Live(e, nowCheck)
    case Put(_, _, _, _) => true
    case PutIfGen(_, _, _, _, _) => true
    case Invalidate => false
    case InvalidateKey(x) => x != k
    case InvalidateWhere(p) => !p(k)
  }

  function Uses<K(==), V>(c: Config, st: State<K, V>, op: Op<K, V>): (r: set<K>) {
    match UsedKey(c, st, op)
    case Some(k) => {k}
    case None => {}
  }

  /** The keys used in the course of a run. */
  function UsedIn<K(==), V>(c: Config, st: State<K, V>, ops: seq<Op<K, V>>): (r: set<K>)
    decreases |ops|
  {
    if ops == [] then {} else Uses(c, st, ops[0]) + UsedIn(c, Step(c, st, ops[0]), ops[1..])
  }

  /** As long as the key is there, no operation of the run removes it by itself. */
  predicate SparedIn<K(==), V>(c: Config, st: State<K, V>, ops: seq<Op<K, V>>, k: K)
    decreases |ops|
  {
    ops != [] && Has(st.entries, k) ==>
      Spares(st, ops[0], k) && SparedIn(c, Step(c, st, ops[0]), ops[1..], k)
  }

  /** The keys in front of a position. */
  function Before<K, V>(s: seq<Entry<K, V>>, n: nat): (r: set<K>)
    requires n <= |s|
  {
    set i | 0 <= i < n :: s[i].key
  }

  lemma {:induction false} BeforeSize<K, V>(s: seq<Entry<K, V>>, n: nat)
    requires Distinct(s) && n <= |s|
    ensures |Before(s, n)| == n
  {
    if n > 0 {
      BeforeSize(s, n - 1);
      assert Before(s, n) == Before(s, n - 1) + {s[n - 1].key};
    }
  }

  /** The keys in front of a key. */
  function Ahead<K(==), V>(s: seq<Entry<K, V>>, k: K): (r: set<K>) {
    Before(s, Rank(s, k))
  }

  lemma AheadWithout<K, V>(s: seq<Entry<K, V>>, k: K, x: K)
    requires Distinct(s) && Has(s, k) && x != k
    ensures var w := Without(s, x);
            Has(w, k) && w[Rank(w, k)] == s[Rank(s, k)] && Ahead(w, k) == Ahead(s, k) - {x}
  {
    var w := Without(s, x);
    WithoutProps(s, x);
    var i, j := Rank(s, x), Rank(s, k);
    if i < |s| {
      var j' := if j < i then j else j - 1;
      assert w[j'] == s[j];
      RankOf(w, j');
      forall y | y in Ahead(s, k) && y != x ensures y in Ahead(w, k) {
        var m :| 0 <= m < j && s[m].key == y;
        assert w[if m < i then m else m - 1].key == y;
      }
    }
  }

  lemma AheadFront<K, V>(s: seq<Entry<K, V>>, k: K, e: Entry<K, V>)
    requires Distinct(s) && Has(s, k) && e.key != k
    ensures var w := [e] + Without(s, e.key);
            Has(w, k) && w[Rank(w, k)] == s[Rank(s, k)] && Ahead(w, k) == Ahead(s, k) + {e.key}
  {
    AheadWithout(s, k, e.key);
    var u := Without(s, e.key);
    var w := [e] + u;
    assert w[1..] == u;
    assert Rank(w, k) == 1 + Rank(u, k);
    forall y | y in Ahead(u, k) ensures y in Ahead(w, k) {
      var m :| 0 <= m < Rank(u, k) && u[m].key == y;
      assert w[m + 1].key == y;
    }
    assert w[0].key in Ahead(w, k);
  }

  lemma {:induction false} AheadDrop<K, V>(s: seq<Entry<K, V>>, k: K, p: K -> bool)
    requires Distinct(s) && Has(s, k) && !p(k)
    ensures var w := DropWhere(s, p);
            Has(w, k) && w[Rank(w, k)] == s[Rank(s, k)] && Ahead(w, k) <= Ahead(s, k)
  {
    var w := DropWhere(s, p);
    var tail := s[1..];
    if s[0].key != k {
      assert Has(tail, k);
      AheadDrop(tail, k, p);
      var u := DropWhere(tail, p);
      assert Ahead(tail, k) <= Ahead(s, k) by {
        forall y | y in Ahead(tail, k) ensures y in Ahead(s, k) {
          var m :| 0 <= m < Rank(tail, k) && tail[m].key == y;
          assert s[m + 1].key == y;
        }
      }
      if !p(s[0].key) {
        assert w == [s[0]] + u;
        assert w[1..] == u;
        forall y | y in Ahead(w, k) ensures y in Ahead(s, k) {
          var m :| 0 <= m < Rank(w, k) && w[m].key == y;
          if m > 0 {
            assert u[m - 1].key == y;
            assert y in Ahead(u, k);
          } else {
            assert s[0].key == y;
          }
        }
      } else {
        assert w == u;
      }
    }
  }

  /** Dropping the last entry does not matter to a key that is not last. */
  lemma AheadTake<K, V>(s: seq<Entry<K, V>>, k: K, n: nat)
    requires Rank(s, k) < n <= |s|
    ensures var w := s[..n]; Has(w, k) && w[Rank(w, k)] == s[Rank(s, k)] && Ahead(w, k) == Ahead(s, k)
  {
    var w := s[..n];
    var r := Rank(s, k);
    assert w[r].key == k;
    assert Rank(w, k) == r;
    assert forall i :: 0 <= i < r ==> w[i] == s[i];
  }

  /** A write of another key pushes the key out only if `maxSize` keys are then in front of it. */
  lemma PutAhead<K, V>(c: Config, st: State<K, V>, x: K, v: V, expiresAt: int, k: K)
    requires Ok(c, st) && Has(st.entries, k) && x != k
    ensures var s' := PutState(c, st, x, v, expiresAt).entries;
            if |Ahead(st.entries, k) + {x}| < c.maxSize then
              && Has(s', k)
              && s'[Rank(s', k)] == st.entries[Rank(st.entries, k)]
              && Ahead(s', k) == Ahead(st.entries, k) + {x}
            else !Has(s', k)
  {
    var s := st.entries;
    var e := Entry(x, v, expiresAt);
    var w := [e] + Without(s, x);
    PutShape(c, st, x, v, expiresAt);
    AheadFront(s, k, e);
    FrontOk(s, e);
    hide Without, PutState, Has, Ahead;
    PushedOut(w, k, c.maxSize);
  }

  lemma PutShape<K, V>(c: Config, st: State<K, V>, x: K, v: V, expiresAt: int)
    requires Ok(c, st)
    ensures var w := [Entry(x, v, expiresAt)] + Without(st.entries, x);
            && |w| <= c.maxSize + 1
            && PutState(c, st, x, v, expiresAt)
               == st.(entries := if |w| > c.maxSize then w[..|w| - 1] else w)
  {
  }

  lemma DroppedLast<K, V>(w: seq<Entry<K, V>>, k: K)
    requires Has(w, k) && Rank(w, k) == |w| - 1
    ensures !Has(w[..|w| - 1], k)
  {
    var u := w[..|w| - 1];
    assert forall i :: 0 <= i < |u| ==> u[i] == w[i] && u[i].key != k;
  }

  lemma PushedOut<K, V>(w: seq<Entry<K, V>>, k: K, maxSize: nat)
    requires Distinct(w) && Has(w, k) && |w| <= maxSize + 1
    ensures var s' := if |w| > maxSize then w[..|w| - 1] else w;
            if |Ahead(w, k)| < maxSize then
              Has(s', k) && s'[Rank(s', k)] == w[Rank(w, k)] && Ahead(s', k) == Ahead(w, k)
            else !Has(s', k)
  {
    BeforeSize(w, Rank(w, k));
    if |w| > maxSize {
      if Rank(w, k) < |w| - 1 {
        AheadTake(w, k, |w| - 1);
      } else {
        DroppedLast(w, k);
      }
    }
  }

  lemma SubsetSize<T>(a: set<T>, b: set<T>)
    requires a <= b
    ensures |a| <= |b|
  {
    assert b == a + (b - a);
  }

  /** The key keeps its entry, and the keys in front of it are among `ahead`. */
  ghost predicate Holds<K, V>(s: seq<Entry<K, V>>, k: K, e: Entry<K, V>, ahead: set<K>) {
    Has(s, k) && s[Rank(s, k)] == e && Ahead(s, k) <= ahead
  }

  lemma GetHolds<K, V>(st: State<K, V>, x: K, now: int, k: K, e: Entry<K, V>, ahead: set<K>)
    requires Distinct(st.entries) && Holds(st.entries, k, e, ahead)
    requires x == k ==> Live(e, now)
    ensures Holds(GetState(st, x, now).entries, k, e,
                  ahead + (if LiveValue(st.entries, x, now).Some? then {x} else {}) - {k})
    ensures Holds(PeekState(st, x, now).entries, k, e, ahead - {k})
    ensures x != k ==> Holds(InvalidateKeyState(st, x).entries, k, e, ahead - {k})
  {
    var i := Rank(st.entries, x);
    if x != k {
      AheadWithout(st.entries, k, x);
      if i < |st.entries| {
        AheadFront(st.entries, k, st.entries[i]);
      }
    }
  }

  lemma PutHolds<K, V>(c: Config, st: State<K, V>, x: K, v: V, expiresAt: int, k: K, e: Entry<K, V>, ahead: set<K>)
    requires c.Valid() && Ok(c, st) && Holds(st.entries, k, e, ahead)
    requires |ahead + {x} - {k}| < c.maxSize
    ensures Holds(PutState(c, st, x, v, expiresAt).entries, k,
                  if x == k then Entry(k, v, expiresAt) else e, ahead + {x} - {k})
  {
    if x != k {
      assert k !in Ahead(st.entries, k);
      SubsetSize(Ahead(st.entries, k) + {x}, ahead + {x} - {k});
      PutAhead(c, st, x, v, expiresAt, k);
    }
  }

  lemma AddHolds<K, V>(c: Config, st: State<K, V>, x: K, v: V, nowCheck: int, nowPut: int, k: K, e: Entry<K, V>,
                       ahead: set<K>)
    requires c.Valid() && Ok(c, st) && Holds(st.entries, k, e, ahead)
    requires x == k ==> Live(e, nowCheck)
    requires LiveValue(st.entries, x, nowCheck).None? ==> |ahead + {x} - {k}| < c.maxSize
    ensures Holds(AddState(c, st, x, v, nowCheck, nowPut).entries, k, e,
                  ahead + (if LiveValue(st.entries, x, nowCheck).Some? then {} else {x}) - {k})
  {
    hide PeekState, Ok, LiveValue, Holds, PutState, Live, Ahead, Distinct, Rank, Without, Has, Config.Valid;
    HoldsFacts(c, st, x, nowCheck, k, e, ahead);
    GetHolds(st, x, nowCheck, k, e, ahead);
    PeekOk(c, st, x, nowCheck);
    if LiveValue(st.entries, x, nowCheck).None? {
      assert ahead - {k} + {x} - {k} == ahead + {x} - {k};
      PutHolds(c, PeekState(st, x, nowCheck), x, v, nowPut + c.ttl, k, e, ahead - {k});
    } else {
      assert ahead + {} - {k} == ahead - {k};
    }
  }

  lemma HoldsFacts<K, V>(c: Config, st: State<K, V>, x: K, now: int, k: K, e: Entry<K, V>, ahead: set<K>)
    requires Ok(c, st) && Holds(st.entries, k, e, ahead)
    ensures Distinct(st.entries) && Holds(st.entries, k, e, ahead - {k})
    ensures x == k && Live(e, now) ==> LiveValue(st.entries, x, now).Some?
  {
    assert k !in Ahead(st.entries, k);
  }

  lemma DropHolds<K, V>(st: State<K, V>, p: K -> bool, k: K, e: Entry<K, V>, ahead: set<K>)
    requires Distinct(st.entries) && Holds(st.entries, k, e, ahead) && !p(k)
    ensures Holds(InvalidateWhereState(st, p).entries, k, e, ahead - {k})
  {
    AheadDrop(st.entries, k, p);
  }

  /** The entry of a key after an operation that does not remove it. */
  function EntryAfter<K(==), V>(c: Config, st: State<K, V>, op: Op<K, V>, e: Entry<K, V>): (r: Entry<K, V>) {
    match op
    case Put(x, v, ttl, now) => if x == e.key then Entry(x, v, now + EffectiveTtl(c, ttl)) else e
    case PutIfGen(x, v, ttl, gen, now) =>
      if x == e.key && st.gen == gen then Entry(x, v, now + EffectiveTtl(c, ttl)) else e
    case _ => e
  }

  lemma StepHolds<K, V>(c: Config, st: State<K, V>, op: Op<K, V>, k: K, e: Entry<K, V>, ahead: set<K>)
    requires c.Valid() && Ok(c, st) && Holds(st.entries, k, e, ahead)
    requires Spares(st, op, k)
    requires |ahead + Uses(c, st, op) - {k}| < c.maxSize
    ensures Holds(Step(c, st, op).entries, k, EntryAfter(c, st, op, e), ahead + Uses(c, st, op) - {k})
  {
    hide Holds, GetState, PeekState, PutState, AddState, LiveValue, Live, Ok, Without, DropWhere, Spares, Has,
         Ahead, Distinct, InvalidateKeyState, InvalidateWhereState, Config.Valid;
    SparesFacts(c, st, op, k, e, ahead);
    if op.Put? || op.PutIfGen? || op.AddIfAbsent? {
      WriteHolds(c, st, op, k, e, ahead);
      return;
    }
    assert ahead + {} - {k} == ahead - {k};
    match op
    case Get(x, now) => GetHolds(st, x, now, k, e, ahead);
    case Peek(x, now) => GetHolds(st, x, now, k, e, ahead);
    case InvalidateKey(x) => GetHolds(st, x, 0, k, e, ahead);
    case InvalidateWhere(p) => DropHolds(st, p, k, e, ahead);
  }

  lemma WriteHolds<K, V>(c: Config, st: State<K, V>, op: Op<K, V>, k: K, e: Entry<K, V>, ahead: set<K>)
    requires op.Put? || op.PutIfGen? || op.AddIfAbsent?
    requires c.Valid() && Ok(c, st) && Holds(st.entries, k, e, ahead) && Holds(st.entries, k, e, ahead - {k})
    requires e.key == k && (op.AddIfAbsent? && op.key == k ==> Live(e, op.nowCheck))
    requires |ahead + Uses(c, st, op) - {k}| < c.maxSize
    ensures Holds(Step(c, st, op).entries, k, EntryAfter(c, st, op, e), ahead + Uses(c, st, op) - {k})
  {
    hide Holds, PutState, AddState, LiveValue, Live, Ok, Config.Valid, Rank, Ahead, Has, Distinct;
    var uses := Uses(c, st, op);
    assert uses == {} || uses == {op.key};
    if op.AddIfAbsent? {
      assert uses == if LiveValue(st.entries, op.key, op.nowCheck).Some? then {} else {op.key};
      hide Uses;
      AddHolds(c, st, op.key, op.value, op.nowCheck, op.nowPut, k, e, ahead);
    } else if op.PutIfGen? && st.gen != op.gen {
      assert ahead + {} - {k} == ahead - {k};
    } else {
      assert uses == {op.key};
      hide Uses;
      PutHolds(c, st, op.key, op.value, op.now + EffectiveTtl(c, op.ttl), k, e, ahead);
    }
  }

  lemma SparesFacts<K, V>(c: Config, st: State<K, V>, op: Op<K, V>, k: K, e: Entry<K, V>, ahead: set<K>)
    requires Ok(c, st) && Holds(st.entries, k, e, ahead) && Spares(st, op, k)
    ensures Distinct(st.entries) && e.key == k && Holds(st.entries, k, e, ahead - {k})
    ensures op.Get? && op.key == k ==> Live(e, op.now)
    ensures op.Peek? && op.key == k ==> Live(e, op.now)
    ensures op.AddIfAbsent? && op.key == k ==> Live(e, op.nowCheck)
    ensures !op.Invalidate?
    ensures op.InvalidateKey? ==> op.key != k
    ensures op.InvalidateWhere? ==> !op.pred(k)
  {
    assert k !in Ahead(st.entries, k);
  }

  /** The entry of a key after a run that does not remove it. */
  function EntryAfterRun<K(==), V>(c: Config, st: State<K, V>, ops: seq<Op<K, V>>, e: Entry<K, V>): (r: Entry<K, V>)
    decreases |ops|
  {
    if ops == [] then e
    else EntryAfterRun(c, Step(c, st, ops[0]), ops[1..], EntryAfter(c, st, ops[0], e))
  }

  /**
   A key with its set of keys in front survives a run, with its last written entry, as long as that
   set and the other keys the run uses are together fewer than the capacity.
   */
  lemma {:induction false} RunHolds<K, V>(c: Config, st: State<K, V>, ops: seq<Op<K, V>>, k: K, e: Entry<K, V>,
                                          ahead: set<K>)
    requires c.Valid() && Ok(c, st) && Holds(st.entries, k, e, ahead)
    requires SparedIn(c, st, ops, k)
    requires |ahead + UsedIn(c, st, ops) - {k}| < c.maxSize
    ensures Holds(Run(c, st, ops).entries, k, EntryAfterRun(c, st, ops, e), ahead + UsedIn(c, st, ops) - {k})
    decreases |ops|
  {
    if ops == [] {
      assert k !in Ahead(st.entries, k);
    } else {
      var st' := Step(c, st, ops[0]);
      var now := ahead + Uses(c, st, ops[0]) - {k};
      var later := UsedIn(c, st', ops[1..]);
      assert now + later - {k} == ahead + UsedIn(c, st, ops) - {k};
      SubsetSize(now, ahead + UsedIn(c, st, ops) - {k});
      StepHolds(c, st, ops[0], k, e, ahead);
      StepOk(c, st, ops[0]);
      RunHolds(c, st', ops[1..], k, EntryAfter(c, st, ops[0], e), now);
    }
  }

  /**
   The survival bound: a key at the front, that is one just written or got, is still present after
   any run that uses fewer than `maxSize` distinct other keys and does not remove it by
   invalidation or expiry; its entry is the one last written.
   */
  lemma Survives<K, V>(c: Config, st: State<K, V>, ops: seq<Op<K, V>>, k: K)
    requires c.Valid() && Ok(c, st) && st.entries != [] && st.entries[0].key == k
    requires SparedIn(c, st, ops, k)
    requires |UsedIn(c, st, ops) - {k}| < c.maxSize
    ensures var s := Run(c, st, ops).entries;
            Has(s, k) && s[Rank(s, k)] == EntryAfterRun(c, st, ops, st.entries[0])
  {
    assert {} + UsedIn(c, st, ops) - {k} == UsedIn(c, st, ops) - {k};
    RunHolds(c, st, ops, k, st.entries[0], {});
  }

  // ---------------------------------------------------------------- the bound is exact

  lemma DropNothing<K, V>(s: seq<Entry<K, V>>, p: K -> bool)
    requires forall i :: 0 <= i < |s| ==> !p(s[i].key)
    ensures DropWhere(s, p) == s
  {
  }

  /** No operation removes any key by itself, and none uses `k`. */
  predicate OnlyPressure<K(==), V>(c: Config, st: State<K, V>, op: Op<K, V>, k: K) {
    && (forall i :: 0 <= i < |st.entries| ==> Spares(st, op, (RankOfAt(st.entries, i); st.entries[i].key)))
    && k !in Uses(c, st, op)
  }

  lemma RankOfAt<K, V>(s: seq<Entry<K, V>>, i: int)
    requires 0 <= i < |s|
    ensures Has(s, s[i].key)
  {
  }

  predicate OnlyPressureIn<K(==), V>(c: Config, st: State<K, V>, ops: seq<Op<K, V>>, k: K)
    decreases |ops|
  {
    ops != [] ==> OnlyPressure(c, st, ops[0], k) && OnlyPressureIn(c, Step(c, st, ops[0]), ops[1..], k)
  }

  lemma PressureFacts<K, V>(c: Config, st: State<K, V>, op: Op<K, V>, k: K)
    requires Ok(c, st) && OnlyPressure(c, st, op, k) && Has(st.entries, k)
    ensures op.Get? ==> op.key != k && (Has(st.entries, op.key) <==> LiveValue(st.entries, op.key, op.now).Some?)
    ensures op.Peek? ==> PeekState(st, op.key, op.now) == st
    ensures op.AddIfAbsent? ==> PeekState(st, op.key, op.nowCheck) == st
    ensures !op.Invalidate?
    ensures op.InvalidateKey? ==> Without(st.entries, op.key) == st.entries
    ensures op.InvalidateWhere? ==> DropWhere(st.entries, op.pred) == st.entries
    ensures k !in Uses(c, st, op)
    ensures |Ahead(st.entries, k)| < c.maxSize
    ensures Ahead(st.entries, k) + {} == Ahead(st.entries, k)
  {
    var s := st.entries;
    AheadBound(c, st, k);
    var j := Rank(s, k);
    assert Spares(st, op, s[j].key);
    if (op.Get? || op.Peek? || op.AddIfAbsent? || op.InvalidateKey?) && Has(s, op.key) {
      assert Spares(st, op, s[Rank(s, op.key)].key);
    }
    if op.InvalidateWhere? {
      PressureFlush(c, st, op, k);
    }
    hide Ahead, DropWhere, Ok;
  }

  lemma AheadBound<K, V>(c: Config, st: State<K, V>, k: K)
    requires Ok(c, st) && Has(st.entries, k)
    ensures |Ahead(st.entries, k)| < c.maxSize
  {
    BeforeSize(st.entries, Rank(st.entries, k));
  }

  lemma PressureFlush<K, V>(c: Config, st: State<K, V>, op: Op<K, V>, k: K)
    requires OnlyPressure(c, st, op, k) && op.InvalidateWhere?
    ensures DropWhere(st.entries, op.pred) == st.entries
  {
    var s := st.entries;
    forall i | 0 <= i < |s| ensures !op.pred(s[i].key) {
      assert Spares(st, op, s[i].key);
    }
    DropNothing(s, op.pred);
  }

  lemma StepExact<K, V>(c: Config, st: State<K, V>, op: Op<K, V>, k: K)
    requires c.Valid() && Ok(c, st) && Has(st.entries, k) && OnlyPressure(c, st, op, k)
    ensures var s' := Step(c, st, op).entries;
            var ahead := Ahead(st.entries, k) + Uses(c, st, op);
            if |ahead| < c.maxSize then Has(s', k) && Ahead(s', k) == ahead else !Has(s', k)
  {
    var s := st.entries;
    hide OnlyPressure, GetState, PeekState, PutState, LiveValue, Ok, Ahead, Spares, Rank, Without, DropWhere, Has;
    PressureFacts(c, st, op, k);
    match op
    case Get(x, now) => GetExact(c, st, x, now, k);
    case Put(x, v, ttl, now) => PutAhead(c, st, x, v, now + EffectiveTtl(c, ttl), k);
    case AddIfAbsent(x, v, nowCheck, nowPut) =>
      if LiveValue(s, x, nowCheck).None? {
        PutAhead(c, st, x, v, nowPut + c.ttl, k);
      }
    case PutIfGen(x, v, ttl, gen, now) =>
      if st.gen == gen {
        PutAhead(c, st, x, v, now + EffectiveTtl(c, ttl), k);
      }
    case Peek(_, _) =>
    case InvalidateKey(_) =>
    case InvalidateWhere(_) =>
  }

  lemma GetExact<K, V>(c: Config, st: State<K, V>, x: K, now: int, k: K)
    requires Ok(c, st) && Has(st.entries, k) && x != k
    requires Has(st.entries, x) <==> LiveValue(st.entries, x, now).Some?
    ensures var s' := GetState(st, x, now).entries;
            var ahead := Ahead(st.entries, k) + (if Has(st.entries, x) then {x} else {});
            |ahead| < c.maxSize && Has(s', k) && Ahead(s', k) == ahead
  {
    var s := st.entries;
    BeforeSize(s, Rank(s, k));
    if Has(s, x) {
      var e := s[Rank(s, x)];
      AheadFront(s, k, e);
      var w := [e] + Without(s, x);
      assert GetState(st, x, now).entries == w;
      FrontOk(s, e);
      BeforeSize(w, Rank(w, k));
    } else {
      assert Ahead(s, k) + {} == Ahead(s, k);
    }
  }

  lemma AbsentFront<K, V>(s: seq<Entry<K, V>>, e: Entry<K, V>, k: K)
    requires !Has(s, k)
    ensures !Has(Without(s, e.key), k)
    ensures e.key != k ==> forall n :: 0 <= n <= |[e] + Without(s, e.key)| ==> !Has(([e] + Without(s, e.key))[..n], k)
  {
  }

  lemma AbsentStep<K, V>(c: Config, st: State<K, V>, op: Op<K, V>, k: K)
    requires Ok(c, st) && !Has(st.entries, k) && k !in Uses(c, st, op)
    ensures !Has(Step(c, st, op).entries, k)
  {
    hide GetState, PeekState, PutState, AddState, LiveValue, Ok, Rank, Without, DropWhere, Has,
         InvalidateKeyState, InvalidateWhereState;
    match op
    case Get(x, now) => AbsentGet(st, x, now, k);
    case Peek(x, now) => AbsentGet(st, x, now, k);
    case Put(x, v, ttl, now) => AbsentPut(c, st, x, v, now + EffectiveTtl(c, ttl), k);
    case AddIfAbsent(x, v, nowCheck, nowPut) => AbsentAdd(c, st, x, v, nowCheck, nowPut, k);
    case PutIfGen(x, v, ttl, gen, now) =>
      if st.gen == gen {
        AbsentPut(c, st, x, v, now + EffectiveTtl(c, ttl), k);
      }
    case Invalidate => AbsentNil<K, V>(k);
    case InvalidateKey(x) => AbsentGet(st, x, 0, k);
    case InvalidateWhere(p) => AbsentDrop(c, st, p, k);
  }

  lemma AbsentNil<K, V>(k: K)
    ensures !Has<K, V>([], k)
  {
  }

  lemma AbsentAdd<K, V>(c: Config, st: State<K, V>, x: K, v: V, nowCheck: int, nowPut: int, k: K)
    requires Ok(c, st) && !Has(st.entries, k)
    requires LiveValue(st.entries, x, nowCheck).None? ==> x != k
    ensures !Has(AddState(c, st, x, v, nowCheck, nowPut).entries, k)
  {
    hide Has, PeekState, PutState, Ok, LiveValue, Rank;
    AbsentGet(st, x, nowCheck, k);
    PeekOk(c, st, x, nowCheck);
    if LiveValue(st.entries, x, nowCheck).None? {
      AbsentPut(c, PeekState(st, x, nowCheck), x, v, nowPut + c.ttl, k);
    }
  }

  lemma AbsentDrop<K, V>(c: Config, st: State<K, V>, p: K -> bool, k: K)
    requires Ok(c, st) && !Has(st.entries, k)
    ensures !Has(InvalidateWhereState(st, p).entries, k)
  {
    DropWhereProps(st.entries, p);
    var w := DropWhere(st.entries, p);
    forall i | 0 <= i < |w| ensures w[i].key != k {
      assert w[i] in w;
      assert w[i] in st.entries;
    }
  }

  lemma AbsentGet<K, V>(st: State<K, V>, x: K, now: int, k: K)
    requires !Has(st.entries, k)
    ensures !Has(GetState(st, x, now).entries, k)
    ensures !Has(PeekState(st, x, now).entries, k)
    ensures !Has(InvalidateKeyState(st, x).entries, k)
  {
    var s := st.entries;
    if Has(s, x) {
      var e := s[Rank(s, x)];
      var w := [e] + Without(s, x);
      AbsentFront(s, e, k);
      assert w[..|w|] == w;
    }
  }

  lemma AbsentPut<K, V>(c: Config, st: State<K, V>, x: K, v: V, expiresAt: int, k: K)
    requires Ok(c, st) && !Has(st.entries, k) && x != k
    ensures !Has(PutState(c, st, x, v, expiresAt).entries, k)
  {
    PutShape(c, st, x, v, expiresAt);
    var e := Entry(x, v, expiresAt);
    var w := [e] + Without(st.entries, x);
    AbsentFront(st.entries, e, k);
    assert w[..|w|] == w;
  }

  lemma {:induction false} AbsentRun<K, V>(c: Config, st: State<K, V>, ops: seq<Op<K, V>>, k: K)
    requires c.Valid() && Ok(c, st) && !Has(st.entries, k) && k !in UsedIn(c, st, ops)
    ensures !Has(Run(c, st, ops).entries, k)
    decreases |ops|
  {
    if ops != [] {
      AbsentStep(c, st, ops[0], k);
      StepOk(c, st, ops[0]);
      AbsentRun(c, Step(c, st, ops[0]), ops[1..], k);
    }
  }

  lemma {:induction false} PressureUses<K, V>(c: Config, st: State<K, V>, ops: seq<Op<K, V>>, k: K)
    requires OnlyPressureIn(c, st, ops, k)
    ensures k !in UsedIn(c, st, ops)
    decreases |ops|
  {
    if ops != [] {
      PressureUses(c, Step(c, st, ops[0]), ops[1..], k);
    }
  }

  /**
   In a run where nothing is removed but by eviction, a key that the run does not use stays exactly
   as long as the keys in front of it and the keys used are together fewer than the capacity.
   */
  lemma {:induction false} SurvivesExactly<K, V>(c: Config, st: State<K, V>, ops: seq<Op<K, V>>, k: K)
    requires c.Valid() && Ok(c, st) && Has(st.entries, k)
    requires OnlyPressureIn(c, st, ops, k)
    ensures Has(Run(c, st, ops).entries, k) <==> |Ahead(st.entries, k) + UsedIn(c, st, ops)| < c.maxSize
    decreases |ops|
  {
    var s := st.entries;
    if ops == [] {
      BeforeSize(s, Rank(s, k));
      assert Ahead(s, k) + {} == Ahead(s, k);
    } else {
      var st' := Step(c, st, ops[0]);
      var later := UsedIn(c, st', ops[1..]);
      StepExact(c, st, ops[0], k);
      StepOk(c, st, ops[0]);
      var ahead := Ahead(s, k) + Uses(c, st, ops[0]);
      assert Ahead(s, k) + UsedIn(c, st, ops) == ahead + later;
      if |ahead| < c.maxSize {
        SurvivesExactly(c, st', ops[1..], k);
      } else {
        PressureUses(c, st', ops[1..], k);
        AbsentRun(c, st', ops[1..], k);
        SubsetSize(ahead, ahead + later);
      }
    }
  }
}
