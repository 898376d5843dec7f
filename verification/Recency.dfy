/**
 The bounded TTL+LRU cache as a value: a sequence of entries in order of use, most recent
 first, and the invalidation generation.  The class in LruCache.dfy is proved to compute
 exactly these functions; the protocols built on the cache reason about them.
 */
module Recency {

  datatype Option<T> = None | Some(value: T)

  datatype Entry<K, V> = Entry(key: K, value: V, expiresAt: int)

  datatype State<K, V> = State(entries: seq<Entry<K, V>>, gen: nat)

  function Empty<K, V>(): (r: State<K, V>) {
    State([], 0)
  }

  /** The capacity and default TTL of a cache. */
  datatype Config = Config(maxSize: nat, ttl: int) {
    predicate Valid() {
      maxSize > 0 && ttl > 0
    }
  }

  /** Non-positive arguments fall back to 10000 entries and five seconds (in nanoseconds). */
  function Normalised(maxSize: int, ttl: int): (c: Config)
    ensures c.Valid()
    ensures maxSize > 0 ==> c.maxSize == maxSize
    ensures ttl > 0 ==> c.ttl == ttl
  {
    Config(if maxSize <= 0 then 10000 else maxSize, if ttl <= 0 then 5_000_000_000 else ttl)
  }

  // ---------------------------------------------------------------- sequences of entries

  predicate Distinct<K(==), V>(s: seq<Entry<K, V>>) {
    forall i, j :: 0 <= i < j < |s| ==> s[i].key != s[j].key
  }

  /** The position of a key, or the length when it is absent. */
  function Rank<K(==), V>(s: seq<Entry<K, V>>, k: K): (r: nat)
    ensures r <= |s|
    ensures r < |s| ==> s[r].key == k
    ensures forall i :: 0 <= i < r ==> s[i].key != k
  {
    if s == [] then 0
    else if s[0].key == k then 0
    else 1 + Rank(s[1..], k)
  }

  predicate Has<K(==), V>(s: seq<Entry<K, V>>, k: K) {
    Rank(s, k) < |s|
  }

  /** The sequence with the first entry of a key, if any, taken out. */
  function Without<K(==), V>(s: seq<Entry<K, V>>, k: K): (r: seq<Entry<K, V>>) {
    var i := Rank(s, k);
    if i < |s| then s[..i] + s[i + 1..] else s
  }

  /** The entries whose keys do not satisfy the predicate, in their order. */
  function DropWhere<K, V>(s: seq<Entry<K, V>>, p: K -> bool): (r: seq<Entry<K, V>>) {
    if s == [] then []
    else if p(s[0].key) then DropWhere(s[1..], p)
    else [s[0]] + DropWhere(s[1..], p)
  }

  // ---------------------------------------------------------------- operations

  predicate Live<K, V>(e: Entry<K, V>, now: int) {
    now <= e.expiresAt
  }

  /** The value a lookup at this moment may return. */
  function LiveValue<K(==), V>(s: seq<Entry<K, V>>, k: K, now: int): (r: Option<V>) {
    var i := Rank(s, k);
    if i < |s| && Live(s[i], now) then Some(s[i].value) else None
  }

  function GetState<K(==), V>(st: State<K, V>, k: K, now: int): (r: State<K, V>) {
    var i := Rank(st.entries, k);
    if i == |st.entries| then st
    else if !Live(st.entries[i], now) then st.(entries := Without(st.entries, k))
    else st.(entries := [st.entries[i]] + Without(st.entries, k))
  }

  function PeekState<K(==), V>(st: State<K, V>, k: K, now: int): (r: State<K, V>) {
    var i := Rank(st.entries, k);
    if i < |st.entries| && !Live(st.entries[i], now) then st.(entries := Without(st.entries, k)) else st
  }

  /** A write: a known key moves to the front; a new one may push out the last entry. */
  function PutState<K(==), V>(c: Config, st: State<K, V>, k: K, v: V, expiresAt: int): (r: State<K, V>) {
    var e := Entry(k, v, expiresAt);
    if Rank(st.entries, k) < |st.entries| then st.(entries := [e] + Without(st.entries, k))
    else
      var es := [e] + st.entries;
      st.(entries := if |es| > c.maxSize then es[..|es| - 1] else es)
  }

  function AddState<K(==), V>(c: Config, st: State<K, V>, k: K, v: V, nowCheck: int, nowPut: int): (r: State<K, V>) {
    if LiveValue(st.entries, k, nowCheck).Some? then st
    else PutState(c, PeekState(st, k, nowCheck), k, v, nowPut + c.ttl)
  }

  function EffectiveTtl(c: Config, ttl: int): (r: int) {
    if ttl <= 0 then c.ttl else ttl
  }

  function PutIfGenState<K(==), V>(c: Config, st: State<K, V>, k: K, v: V, ttl: int, gen: nat, now: int)
    : (r: State<K, V>)
  {
    if st.gen != gen then st else PutState(c, st, k, v, now + EffectiveTtl(c, ttl))
  }

  function InvalidateState<K, V>(st: State<K, V>): (r: State<K, V>) {
    State([], st.gen + 1)
  }

  function InvalidateKeyState<K(==), V>(st: State<K, V>, k: K): (r: State<K, V>) {
    st.(entries := Without(st.entries, k))
  }

  function InvalidateWhereState<K, V>(st: State<K, V>, p: K -> bool): (r: State<K, V>) {
    State(DropWhere(st.entries, p), st.gen + 1)
  }

  // ---------------------------------------------------------------- runs

  /** One locked call of the cache, with the clock values it reads. */
  datatype Op<!K, V> =
    | Get(key: K, now: int)
    | Peek(key: K, now: int)
    | Put(key: K, value: V, ttl: int, now: int)
    | AddIfAbsent(key: K, value: V, nowCheck: int, nowPut: int)
    | PutIfGen(key: K, value: V, ttl: int, gen: nat, now: int)
    | Invalidate
    | InvalidateKey(key: K)
    | InvalidateWhere(pred: K -> bool)

  function Step<K(==), V>(c: Config, st: State<K, V>, op: Op<K, V>): (r: State<K, V>) {
    match op
    case Get(k, now) => GetState(st, k, now)
    case Peek(k, now) => PeekState(st, k, now)
    case Put(k, v, ttl, now) => PutState(c, st, k, v, now + EffectiveTtl(c, ttl))
    case AddIfAbsent(k, v, nowCheck, nowPut) => AddState(c, st, k, v, nowCheck, nowPut)
    case PutIfGen(k, v, ttl, gen, now) => PutIfGenState(c, st, k, v, ttl, gen, now)
    case Invalidate => InvalidateState(st)
    case InvalidateKey(k) => InvalidateKeyState(st, k)
    case InvalidateWhere(p) => InvalidateWhereState(st, p)
  }

  function Run<K(==), V>(c: Config, st: State<K, V>, ops: seq<Op<K, V>>): (r: State<K, V>)
    decreases |ops|
  {
    if ops == [] then st else Run(c, Step(c, st, ops[0]), ops[1..])
  }

  /** The key an operation uses, in the sense of recency: a hit by Get, or a write that happens. */
  function UsedKey<K(==), V>(c: Config, st: State<K, V>, op: Op<K, V>): (r: Option<K>) {
    match op
    case Get(k, now) => if LiveValue(st.entries, k, now).Some? then Some(k) else None
    case Put(k, _, _, _) => Some(k)
    case AddIfAbsent(k, _, nowCheck, _) => if LiveValue(st.entries, k, nowCheck).Some? then None else Some(k)
    case PutIfGen(k, _, _, gen, _) => if st.gen == gen then Some(k) else None
    case _ => None
  }

  /** What every operation keeps: one entry per key, and no more entries than the capacity. */
  predicate Ok<K(==), V>(c: Config, st: State<K, V>) {
    Distinct(st.entries) && |st.entries| <= c.maxSize
  }

  /** In a sequence with distinct keys the position of an entry is the rank of its key. */
  lemma RankOf<K, V>(s: seq<Entry<K, V>>, i: nat)
    requires Distinct(s) && i < |s|
    ensures Rank(s, s[i].key) == i
  {
    var r := Rank(s, s[i].key);
    assert r <= i;
  }

  lemma WithoutProps<K, V>(s: seq<Entry<K, V>>, k: K)
    requires Distinct(s)
    ensures Distinct(Without(s, k))
    ensures forall i :: 0 <= i < |Without(s, k)| ==> Without(s, k)[i].key != k
  {
    hide Rank;
    var w, i := Without(s, k), Rank(s, k);
    assert i < |s| ==> forall j :: 0 <= j < |w| ==> w[j] == s[if j < i then j else j + 1];
    hide Without;
  }

  lemma {:induction false} DropWhereProps<K, V>(s: seq<Entry<K, V>>, p: K -> bool)
    requires Distinct(s)
    ensures Distinct(DropWhere(s, p))
    ensures |DropWhere(s, p)| <= |s|
    ensures forall e :: e in DropWhere(s, p) ==> e in s && !p(e.key)
    ensures forall e :: e in s && !p(e.key) ==> e in DropWhere(s, p)
  {
    if s != [] {
      DropWhereProps(s[1..], p);
      var rest := DropWhere(s[1..], p);
      forall e | e in rest ensures e.key != s[0].key {
        assert e in s[1..];
      }
    }
  }

  lemma FrontOk<K, V>(s: seq<Entry<K, V>>, e: Entry<K, V>)
    requires Distinct(s)
    ensures Distinct([e] + Without(s, e.key))
    ensures Has(s, e.key) ==> |[e] + Without(s, e.key)| == |s|
  {
    WithoutProps(s, e.key);
  }

  lemma PutOk<K, V>(c: Config, st: State<K, V>, k: K, v: V, expiresAt: int)
    requires c.Valid() && Ok(c, st)
    ensures Ok(c, PutState(c, st, k, v, expiresAt))
  {
    FrontOk(st.entries, Entry(k, v, expiresAt));
  }

  lemma GetOk<K, V>(c: Config, st: State<K, V>, k: K, now: int)
    requires Ok(c, st)
    ensures Ok(c, GetState(st, k, now))
  {
    WithoutProps(st.entries, k);
    if Has(st.entries, k) {
      FrontOk(st.entries, st.entries[Rank(st.entries, k)]);
    }
  }

  lemma AddOk<K, V>(c: Config, st: State<K, V>, k: K, v: V, nowCheck: int, nowPut: int)
    requires c.Valid() && Ok(c, st)
    ensures Ok(c, AddState(c, st, k, v, nowCheck, nowPut))
  {
    hide Ok, PeekState, PutState;
    PeekOk(c, st, k, nowCheck);
    PutOk(c, PeekState(st, k, nowCheck), k, v, nowPut + c.ttl);
  }

  lemma PeekOk<K, V>(c: Config, st: State<K, V>, k: K, now: int)
    requires Ok(c, st)
    ensures Ok(c, PeekState(st, k, now))
    ensures Ok(c, InvalidateKeyState(st, k))
  {
    WithoutProps(st.entries, k);
  }

  lemma FlushOk<K, V>(c: Config, st: State<K, V>, p: K -> bool)
    requires Ok(c, st)
    ensures Ok(c, InvalidateState(st)) && Ok(c, InvalidateWhereState(st, p))
  {
    DropWhereProps(st.entries, p);
  }

  /** Every operation keeps one entry per key and the capacity bound. */
  lemma StepOk<K, V>(c: Config, st: State<K, V>, op: Op<K, V>)
    requires c.Valid() && Ok(c, st)
    ensures Ok(c, Step(c, st, op))
  {
    hide Ok, GetState, PeekState, PutState, AddState;
    match op
    case Get(k, now) => GetOk(c, st, k, now);
    case Peek(k, now) => PeekOk(c, st, k, now);
    case Put(k, v, ttl, now) => PutOk(c, st, k, v, now + EffectiveTtl(c, ttl));
    case AddIfAbsent(k, v, nowCheck, nowPut) => AddOk(c, st, k, v, nowCheck, nowPut);
    case PutIfGen(k, v, ttl, gen, now) => PutOk(c, st, k, v, now + EffectiveTtl(c, ttl));
    case Invalidate => FlushOk(c, st, k => true);
    case InvalidateKey(k) => PeekOk(c, st, k, 0);
    case InvalidateWhere(p) => FlushOk(c, st, p);
  }

  /** So does every run from the empty cache. */
  lemma {:induction false} RunOk<K, V>(c: Config, st: State<K, V>, ops: seq<Op<K, V>>)
    requires c.Valid() && Ok(c, st)
    ensures Ok(c, Run(c, st, ops))
    decreases |ops|
  {
    if ops != [] {
      StepOk(c, st, ops[0]);
      RunOk(c, Step(c, st, ops[0]), ops[1..]);
    }
  }

  // ---------------------------------------------------------------- where entries come from

  /** An operation on the cache leaves only old entries and the one it writes, if any. */
  lemma WithoutFrom<K, V>(s: seq<Entry<K, V>>, k: K)
    ensures forall e :: e in Without(s, k) ==> e in s
  {
  }

  lemma GetFrom<K, V>(st: State<K, V>, k: K, now: int)
    ensures forall e :: e in GetState(st, k, now).entries ==> e in st.entries
  {
    WithoutFrom(st.entries, k);
  }

  lemma PutFrom<K, V>(c: Config, st: State<K, V>, k: K, v: V, expiresAt: int)
    ensures forall e :: e in PutState(c, st, k, v, expiresAt).entries ==> e in st.entries || e == Entry(k, v, expiresAt)
    ensures PutState(c, st, k, v, expiresAt).gen == st.gen
  {
    WithoutFrom(st.entries, k);
  }

  // ---------------------------------------------------------------- what each operation does, key by key

  /** The entry of a key, if any. */
  function EntryOf<K(==), V>(st: State<K, V>, k: K): (r: Option<Entry<K, V>>)
    ensures r.Some? ==> r.value.key == k
  {
    var i := Rank(st.entries, k);
    if i < |st.entries| then Some(st.entries[i]) else None
  }

  lemma EntryIs<K, V>(st: State<K, V>, i: nat)
    requires Distinct(st.entries) && i < |st.entries|
    ensures EntryOf(st, st.entries[i].key) == Some(st.entries[i])
  {
    RankOf(st.entries, i);
  }

  /** Taking a key out leaves the entries of all others. */
  lemma EntryWithout<K, V>(st: State<K, V>, k: K, x: K)
    requires Distinct(st.entries)
    ensures EntryOf(st.(entries := Without(st.entries, k)), x) == if x == k then None else EntryOf(st, x)
  {
    var w := Without(st.entries, k);
    WithoutProps(st.entries, k);
    var i, j := Rank(st.entries, k), Rank(st.entries, x);
    if x != k && i < |st.entries| {
      if j < |st.entries| {
        var m := if j < i then j else j - 1;
        assert w[m] == st.entries[j];
        RankOf(w, m);
      } else if Rank(w, x) < |w| {
        assert w[Rank(w, x)] in w;
        WithoutFrom(st.entries, k);
      }
    }
  }

  lemma EntryFront<K, V>(st: State<K, V>, e: Entry<K, V>, x: K)
    requires Distinct(st.entries)
    ensures EntryOf(st.(entries := [e] + Without(st.entries, e.key)), x)
            == if x == e.key then Some(e) else EntryOf(st, x)
  {
    var w := Without(st.entries, e.key);
    EntryWithout(st, e.key, x);
    var u := [e] + w;
    assert u[1..] == w;
  }

  /** A lookup drops the key exactly if it has expired, and changes nothing else but the order. */
  lemma GetExactly<K, V>(c: Config, st: State<K, V>, k: K, now: int, x: K)
    requires Ok(c, st)
    ensures var gone := x == k && EntryOf(st, k).Some? && now > EntryOf(st, k).value.expiresAt;
            && EntryOf(GetState(st, k, now), x) == (if gone then None else EntryOf(st, x))
            && EntryOf(PeekState(st, k, now), x) == (if gone then None else EntryOf(st, x))
    ensures GetState(st, k, now).gen == st.gen && PeekState(st, k, now).gen == st.gen
    ensures LiveValue(st.entries, k, now)
            == (if EntryOf(st, k).Some? && now <= EntryOf(st, k).value.expiresAt then Some(EntryOf(st, k).value.value)
                else None)
  {
    EntryWithout(st, k, x);
    if Has(st.entries, k) {
      EntryFront(st, st.entries[Rank(st.entries, k)], x);
    }
    hide Without, Rank;
  }

  /** A write gives the key its value and expiry; another key leaves only as the last one of a full cache. */
  lemma PutExactly<K, V>(c: Config, st: State<K, V>, k: K, v: V, expiresAt: int, x: K)
    requires c.Valid() && Ok(c, st)
    ensures var t := PutState(c, st, k, v, expiresAt);
            var full := EntryOf(st, k).None? && |st.entries| == c.maxSize;
            && t.gen == st.gen
            && EntryOf(t, x) == (if x == k then Some(Entry(k, v, expiresAt))
                                 else if full && x == st.entries[|st.entries| - 1].key then None
                                 else EntryOf(st, x))
  {
    hide PutState, Rank, Without, EntryOf, Distinct;
    var e := Entry(k, v, expiresAt);
    PutShapes(c, st, e);
    if EntryOf(st, k).None? && |st.entries| == c.maxSize {
      PushedLast(st, e, x);
    } else {
      EntryFront(st, e, x);
    }
  }

  lemma PutShapes<K, V>(c: Config, st: State<K, V>, e: Entry<K, V>)
    requires c.Valid() && Ok(c, st)
    ensures PutState(c, st, e.key, e.value, e.expiresAt)
            == st.(entries := if EntryOf(st, e.key).None? && |st.entries| == c.maxSize
                              then [e] + st.entries[..|st.entries| - 1]
                              else [e] + Without(st.entries, e.key))
    ensures EntryOf(st, e.key).None? <==> !Has(st.entries, e.key)
  {
    var es := [e] + st.entries;
    assert |st.entries| == c.maxSize ==> es[..|es| - 1] == [e] + st.entries[..|st.entries| - 1];
  }

  lemma PushedLast<K, V>(st: State<K, V>, e: Entry<K, V>, x: K)
    requires Distinct(st.entries) && st.entries != [] && !Has(st.entries, e.key)
    ensures EntryOf(st.(entries := [e] + st.entries[..|st.entries| - 1]), x)
            == if x == e.key then Some(e) else if x == st.entries[|st.entries| - 1].key then None else EntryOf(st, x)
  {
    var n := |st.entries| - 1;
    var u := st.entries[..n];
    var w := [e] + u;
    assert w[1..] == u;
    RankOf(st.entries, n);
    var j := Rank(st.entries, x);
    if x != e.key && j < n {
      assert u[j] == st.entries[j];
      RankOf(u, j);
    } else {
      assert forall i :: 0 <= i < n ==> u[i] == st.entries[i];
    }
  }

  /** Adding succeeds only without a live entry, and then it is a write that expires one TTL later. */
  lemma AddExactly<K, V>(c: Config, st: State<K, V>, k: K, v: V, nowCheck: int, nowPut: int)
    requires c.Valid() && Ok(c, st)
    ensures var e, t := EntryOf(st, k), AddState(c, st, k, v, nowCheck, nowPut);
            && t.gen == st.gen
            && if e.Some? && nowCheck <= e.value.expiresAt then t == st
               else EntryOf(t, k) == Some(Entry(k, v, nowPut + c.ttl))
  {
    PeekOk(c, st, k, nowCheck);
    GetExactly(c, st, k, nowCheck, k);
    PutExactly(c, PeekState(st, k, nowCheck), k, v, nowPut + c.ttl, k);
    hide PutState, PeekState, Rank;
  }

  /** A guarded write happens only if the generation has not moved; a TTL that is not positive is the default. */
  lemma PutIfGenExactly<K, V>(c: Config, st: State<K, V>, k: K, v: V, ttl: int, gen: nat, now: int)
    requires c.Valid() && Ok(c, st)
    ensures var t := PutIfGenState(c, st, k, v, ttl, gen, now);
            if gen == st.gen then EntryOf(t, k) == Some(Entry(k, v, now + if ttl <= 0 then c.ttl else ttl)) else t == st
  {
    PutExactly(c, st, k, v, now + EffectiveTtl(c, ttl), k);
    hide PutState, Rank;
  }

  /** The invalidations remove exactly what they match; only the first two bump the generation. */
  lemma InvalidateExactly<K, V>(c: Config, st: State<K, V>, p: K -> bool, k: K, x: K)
    requires Ok(c, st)
    ensures EntryOf(InvalidateState(st), x) == None && InvalidateState(st).gen == st.gen + 1
    ensures EntryOf(InvalidateWhereState(st, p), x) == if p(x) then None else EntryOf(st, x)
    ensures InvalidateWhereState(st, p).gen == st.gen + 1
    ensures EntryOf(InvalidateKeyState(st, k), x) == if x == k then None else EntryOf(st, x)
    ensures InvalidateKeyState(st, k).gen == st.gen
  {
    EntryWithout(st, k, x);
    EntryDropped(st, p, x);
  }

  lemma EntryDropped<K, V>(st: State<K, V>, p: K -> bool, x: K)
    requires Distinct(st.entries)
    ensures EntryOf(st.(entries := DropWhere(st.entries, p)), x) == if p(x) then None else EntryOf(st, x)
  {
    var w := DropWhere(st.entries, p);
    DropWhereProps(st.entries, p);
    if Has(w, x) {
      var e := w[Rank(w, x)];
      assert e in w;
      var i :| 0 <= i < |st.entries| && st.entries[i] == e;
      RankOf(st.entries, i);
    }
  }
}
