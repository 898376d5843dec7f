/** The idempotency store's entries as a value: oldest-written first, replaced in first-in first-out order. */
module Fifo {
  import opened Recency

  /** The last `n` entries. */
  function Newest<K, V>(s: seq<Entry<K, V>>, n: nat): (r: seq<Entry<K, V>>) {
    if |s| <= n then s else s[|s| - n..]
  }

  /** A write: a known key moves to the back; a new one first makes room by dropping the oldest. */
  function Write<K(==), V>(maxEntries: nat, s: seq<Entry<K, V>>, e: Entry<K, V>): (r: seq<Entry<K, V>>)
    requires maxEntries > 0
  {
    if Has(s, e.key) then Without(s, e.key) + [e] else Newest(s, maxEntries - 1) + [e]
  }

  /** The entries that have not expired, in their order. */
  function Unexpired<K, V>(s: seq<Entry<K, V>>, now: int): (r: seq<Entry<K, V>>) {
    if s == [] then []
    else if Live(s[|s| - 1], now) then Unexpired(s[..|s| - 1], now) + [s[|s| - 1]]
    else Unexpired(s[..|s| - 1], now)
  }

  /** The entry for a key once a lookup has dropped it if it expired. */
  function Dropped<K(==), V>(s: seq<Entry<K, V>>, k: K, now: int): (r: seq<Entry<K, V>>) {
    PeekState(State(s, 0), k, now).entries
  }

  predicate Bounded<K(==), V>(maxEntries: nat, s: seq<Entry<K, V>>) {
    Distinct(s) && |s| <= maxEntries
  }

  lemma WriteBounded<K, V>(maxEntries: nat, s: seq<Entry<K, V>>, e: Entry<K, V>)
    requires maxEntries > 0 && Bounded(maxEntries, s)
    ensures Bounded(maxEntries, Write(maxEntries, s, e))
    ensures forall x :: x in Write(maxEntries, s, e) ==> x == e || (x in s && x.key != e.key)
    ensures Has(Write(maxEntries, s, e), e.key)
  {
    WithoutProps(s, e.key);
    WithoutFrom(s, e.key);
    var w := Write(maxEntries, s, e);
    assert w[|w| - 1] == e;
  }

  lemma {:induction false} UnexpiredFrom<K, V>(s: seq<Entry<K, V>>, now: int)
    requires Distinct(s)
    ensures Distinct(Unexpired(s, now)) && |Unexpired(s, now)| <= |s|
    ensures forall x :: x in Unexpired(s, now) ==> x in s && Live(x, now)
    ensures forall x :: x in s && Live(x, now) ==> x in Unexpired(s, now)
  {
    if s != [] {
      var prev := s[..|s| - 1];
      UnexpiredFrom(prev, now);
      var r := Unexpired(prev, now);
      forall i | 0 <= i < |r| ensures r[i].key != s[|s| - 1].key {
        assert r[i] in r;
        assert r[i] in prev;
      }
    }
  }

  lemma DroppedBounded<K, V>(maxEntries: nat, s: seq<Entry<K, V>>, k: K, now: int)
    requires Bounded(maxEntries, s)
    ensures Bounded(maxEntries, Dropped(s, k, now))
    ensures forall x :: x in Dropped(s, k, now) ==> x in s
    ensures LiveValue(s, k, now).None? ==> !Has(Dropped(s, k, now), k)
    ensures LiveValue(s, k, now).Some? ==> Dropped(s, k, now) == s
  {
    WithoutProps(s, k);
    WithoutFrom(s, k);
  }

  /** An entry leaves by a write only as the oldest one of a full store. */
  lemma WriteEvictsOldest<K, V>(maxEntries: nat, s: seq<Entry<K, V>>, e: Entry<K, V>, k: K)
    requires maxEntries > 0 && Bounded(maxEntries, s) && Has(s, k) && k != e.key
    ensures var w := Write(maxEntries, s, e);
            if !Has(s, e.key) && |s| == maxEntries && s[0].key == k then !Has(w, k)
            else Has(w, k) && w[Rank(w, k)] == s[Rank(s, k)]
  {
    if Has(s, e.key) {
      HasWithout(s, e.key, k);
      HasAppend(Without(s, e.key), e, k);
    } else if |s| < maxEntries {
      HasAppend(s, e, k);
    } else {
      HasTail(s, e, k);
    }
  }

  lemma HasAppend<K, V>(s: seq<Entry<K, V>>, e: Entry<K, V>, k: K)
    requires Has(s, k)
    ensures Has(s + [e], k) && (s + [e])[Rank(s + [e], k)] == s[Rank(s, k)]
  {
    var w := s + [e];
    assert w[Rank(s, k)] == s[Rank(s, k)];
    assert Rank(w, k) == Rank(s, k);
  }

  lemma HasWithout<K, V>(s: seq<Entry<K, V>>, x: K, k: K)
    requires Distinct(s) && Has(s, k) && x != k
    ensures Has(Without(s, x), k) && Without(s, x)[Rank(Without(s, x), k)] == s[Rank(s, k)]
  {
    WithoutProps(s, x);
    var i, j := Rank(s, k), Rank(s, x);
    if j < |s| {
      var p := if i < j then i else i - 1;
      assert Without(s, x)[p] == s[i];
      RankOf(Without(s, x), p);
    }
  }

  lemma HasTail<K, V>(s: seq<Entry<K, V>>, e: Entry<K, V>, k: K)
    requires Distinct(s) && Has(s, k) && e.key != k
    ensures var w := s[1..] + [e];
            if s[0].key == k then !Has(w, k) else Has(w, k) && w[Rank(w, k)] == s[Rank(s, k)]
  {
    if s[0].key != k {
      assert Has(s[1..], k);
      HasAppend(s[1..], e, k);
    }
  }

  // ---------------------------------------------------------------- how long an entry stays

  /** How many entries were written after a key's. */
  function Younger<K(==), V>(s: seq<Entry<K, V>>, k: K): (n: nat)
    requires Has(s, k)
  {
    |s| - 1 - Rank(s, k)
  }

  /** The key has this entry, with at most `n` younger ones. */
  ghost predicate Stored<K, V>(s: seq<Entry<K, V>>, e: Entry<K, V>, n: nat) {
    Has(s, e.key) && s[Rank(s, e.key)] == e && Younger(s, e.key) <= n
  }

  lemma StoredByWrite<K, V>(maxEntries: nat, s: seq<Entry<K, V>>, e: Entry<K, V>)
    requires maxEntries > 0 && Bounded(maxEntries, s)
    ensures Stored(Write(maxEntries, s, e), e, 0)
  {
    WriteBounded(maxEntries, s, e);
    var w := Write(maxEntries, s, e);
    assert w[|w| - 1] == e;
    RankOf(w, |w| - 1);
  }

  lemma StoredAfterWrite<K, V>(maxEntries: nat, s: seq<Entry<K, V>>, x: Entry<K, V>, e: Entry<K, V>, n: nat)
    requires maxEntries > 0 && Bounded(maxEntries, s) && Stored(s, e, n) && x.key != e.key && n + 1 < maxEntries
    ensures Stored(Write(maxEntries, s, x), e, n + 1)
  {
    WriteBounded(maxEntries, s, x);
    var w := Write(maxEntries, s, x);
    var i := Rank(s, e.key);
    if Has(s, x.key) {
      StoredWithout(s, x.key, e, n);
      var u := Without(s, x.key);
      assert w[Rank(u, e.key)] == e;
      RankOf(w, Rank(u, e.key));
    } else {
      var p := if |s| < maxEntries then i else i - 1;
      assert w[p] == e;
      RankOf(w, p);
    }
  }

  lemma StoredWithout<K, V>(s: seq<Entry<K, V>>, x: K, e: Entry<K, V>, n: nat)
    requires Distinct(s) && Stored(s, e, n) && x != e.key
    ensures Stored(Without(s, x), e, n)
  {
    WithoutProps(s, x);
    var i, j := Rank(s, e.key), Rank(s, x);
    if j < |s| {
      var p := if i < j then i else i - 1;
      assert Without(s, x)[p] == s[i];
      RankOf(Without(s, x), p);
    }
  }

  lemma StoredDropped<K, V>(s: seq<Entry<K, V>>, x: K, now: int, e: Entry<K, V>, n: nat)
    requires Distinct(s) && Stored(s, e, n) && (x == e.key ==> Live(e, now))
    ensures Stored(Dropped(s, x, now), e, n)
  {
    if x != e.key {
      StoredWithout(s, x, e, n);
    }
  }

  lemma {:induction false} StoredUnexpired<K, V>(s: seq<Entry<K, V>>, now: int, e: Entry<K, V>, n: nat)
    requires Distinct(s) && Stored(s, e, n) && Live(e, now)
    ensures Stored(Unexpired(s, now), e, n)
  {
    var last := |s| - 1;
    var prev, u := s[..last], Unexpired(s, now);
    UnexpiredFrom(s, now);
    if Rank(s, e.key) == last {
      assert u[|u| - 1] == e;
      RankOf(u, |u| - 1);
    } else {
      assert prev[Rank(s, e.key)] == e;
      RankOf(prev, Rank(s, e.key));
      StoredUnexpired(prev, now, e, n - 1);
      var v := Unexpired(prev, now);
      assert u[Rank(v, e.key)] == e;
      RankOf(u, Rank(v, e.key));
    }
  }
}
