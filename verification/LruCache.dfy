/**
 The shared cache: a map from keys to list elements and the list itself, both updated in place.
 Every method runs under one lock, so every call is one step; each is proved to compute the
 corresponding function of Recency on the abstract state.
 */
module LruCache {
  import opened Recency
  import opened Elements

  class Cache<K(==,!new), V(!new)> {
    var items: map<K, Element<K, V>>
    var order: seq<Element<K, V>>
    const config: Config
    var gen: nat
    /** Every element the cache has ever linked. */
    ghost var repr: set<Element<K, V>>

    /** The map and the list are in bijection and within the capacity. */
    ghost predicate Valid()
      reads this
    {
      && config.Valid() && Linked(items, order) && |order| <= config.maxSize
      && (forall e :: e in order ==> e in repr)
    }

    ghost function Abs(): (r: State<K, V>)
      reads this, order
    {
      State(View(order), gen)
    }

    constructor (maxSize: int, ttl: int)
      ensures Valid() && config == Normalised(maxSize, ttl)
      ensures config.maxSize == if maxSize <= 0 then 10000 else maxSize
      ensures config.ttl == if ttl <= 0 then 5_000_000_000 else ttl
      ensures Abs() == Empty<K, V>() && repr == {}
    {
      config := Normalised(maxSize, ttl);
      items, order, gen, repr := map[], [], 0, {};
    }

    /** The abstract state of a valid cache has distinct keys and respects the capacity. */
    lemma AbsOk()
      requires Valid()
      ensures Ok(config, Abs())
    {
    }

    method Get(key: K, now: int) returns (v: Option<V>)
      requires Valid()
      modifies this`items, this`order
      ensures Valid()
      ensures v == old(LiveValue(Abs().entries, key, now))
      ensures Abs() == old(GetState(Abs(), key, now))
    {
      hide Linked, Without, Remove;
      ghost var i := Locate(items, order, key);
      if key !in items {
        return None;
      }
      var e := items[key];
      UnlinkLinked(items, order, key);
      if now > e.expiresAt {
        order := Remove(order, e);
        items := items - {key};
        return None;
      }
      order := [e] + Remove(order, e);
      v := Some(e.value);
    }

    method Peek(key: K, now: int) returns (v: Option<V>)
      requires Valid()
      modifies this`items, this`order
      ensures Valid()
      ensures v == old(LiveValue(Abs().entries, key, now))
      ensures Abs() == old(PeekState(Abs(), key, now))
    {
      hide Linked, Without, Remove;
      ghost var i := Locate(items, order, key);
      if key !in items {
        return None;
      }
      var e := items[key];
      if now > e.expiresAt {
        UnlinkLinked(items, order, key);
        order := Remove(order, e);
        items := items - {key};
        return None;
      }
      v := Some(e.value);
    }

    method Put(key: K, value: V, now: int)
      requires Valid()
      modifies this`items, this`order, this`repr, repr
      ensures Valid()
      ensures Abs() == old(PutState(config, Abs(), key, value, now + config.ttl))
      ensures fresh(repr - old(repr))
    {
      PutLocked(key, value, config.ttl, now);
    }

    /** Reads the clock once for the check and, when it inserts, once more for the expiry. */
    method AddIfAbsent(key: K, value: V, nowCheck: int, nowPut: int) returns (added: bool)
      requires Valid()
      modifies this`items, this`order, this`repr, repr
      ensures Valid()
      ensures added <==> old(LiveValue(Abs().entries, key, nowCheck)).None?
      ensures Abs() == old(AddState(config, Abs(), key, value, nowCheck, nowPut))
      ensures fresh(repr - old(repr))
    {
      hide Linked, Without, Remove, PutState;
      ghost var i := Locate(items, order, key);
      if key in items {
        var e := items[key];
        if !(nowCheck > e.expiresAt) {
          return false;
        }
        UnlinkLinked(items, order, key);
        order := Remove(order, e);
        items := items - {key};
      }
      PutLocked(key, value, config.ttl, nowPut);
      added := true;
    }

    method PutIfGenWithTtl(key: K, value: V, ttl: int, gen: nat, now: int)
      requires Valid()
      modifies this`items, this`order, this`repr, repr
      ensures Valid()
      ensures Abs() == old(PutIfGenState(config, Abs(), key, value, ttl, gen, now))
      ensures fresh(repr - old(repr))
    {
      hide Linked, PutState, View, Rank;
      if this.gen != gen {
        return;
      }
      var t := ttl;
      if t <= 0 {
        t := config.ttl;
      }
      PutLocked(key, value, t, now);
    }

    method PutIfGen(key: K, value: V, gen: nat, now: int)
      requires Valid()
      modifies this`items, this`order, this`repr, repr
      ensures Valid()
      ensures Abs() == old(PutIfGenState(config, Abs(), key, value, config.ttl, gen, now))
      ensures fresh(repr - old(repr))
    {
      hide Linked, PutState, View, Rank;
      if this.gen != gen {
        return;
      }
      PutLocked(key, value, config.ttl, now);
    }

    /** The common write path: overwrite and move to the front, or push and evict the last. */
    method PutLocked(key: K, value: V, ttl: int, now: int)
      requires Valid()
      modifies this`items, this`order, this`repr, repr
      ensures Valid() && gen == old(gen)
      ensures Abs() == old(PutState(config, Abs(), key, value, now + ttl))
      ensures fresh(repr - old(repr))
    {
      hide Linked, View;
      ghost var i := Locate(items, order, key);
      if key in items {
        Overwrite(key, value, now + ttl);
      } else {
        PushNew(key, value, now + ttl);
      }
    }

    method Overwrite(key: K, value: V, expiresAt: int)
      requires Valid() && key in items
      modifies this`order, items[key]
      ensures Valid()
      ensures View(order) == old([Entry(key, value, expiresAt)] + Without(View(order), key))
    {
      hide Linked, Remove, Without;
      var e := items[key];
      ghost var i := Locate(items, order, key);
      UnlinkLinked(items, order, key);
      ghost var rest, view := Remove(order, e), View(Remove(order, e));
      NotRemoved(items, order, key);
      e.value, e.expiresAt := value, expiresAt;
      assert View(rest) == view;
      order := [e] + Remove(order, e);
    }

    /** A new key goes to the front; past the capacity the last element is unlinked. */
    method PushNew(key: K, value: V, expiresAt: int)
      requires Valid() && key !in items
      modifies this`items, this`order, this`repr
      ensures Valid()
      ensures View(order) == old(var es := [Entry(key, value, expiresAt)] + View(order);
                                 if |es| > config.maxSize then es[..|es| - 1] else es)
      ensures fresh(repr - old(repr))
    {
      hide Linked, View;
      LinkedNoAlias(items, order);
      PushFront(key, value, expiresAt);
      LinkedNoAlias(items, order);
      if |items| > config.maxSize {
        EvictBack();
      }
    }

    method PushFront(key: K, value: V, expiresAt: int)
      requires Linked(items, order) && key !in items && forall e :: e in order ==> e in repr
      modifies this`items, this`order, this`repr
      ensures Linked(items, order) && forall e :: e in order ==> e in repr
      ensures View(order) == old([Entry(key, value, expiresAt)] + View(order))
      ensures fresh(repr - old(repr))
    {
      hide Linked;
      var e := new Element(key, value, expiresAt);
      PushLinked(items, order, e);
      repr := repr + {e};
      order := [e] + order;
      items := items[key := e];
    }

    method EvictBack()
      requires Linked(items, order) && |order| > 0 && forall e :: e in order ==> e in repr
      modifies this`items, this`order
      ensures Linked(items, order) && forall e :: e in order ==> e in repr
      ensures View(order) == old(View(order)[..|order| - 1])
    {
      hide Linked;
      EvictLinked(items, order);
      var back := order[|order| - 1];
      order := order[..|order| - 1];
      items := items - {back.key};
    }

    method Invalidate()
      requires Valid()
      modifies this
      ensures Valid()
      ensures Abs() == old(InvalidateState(Abs())) && repr == old(repr)
    {
      items, order := map[], [];
      gen := gen + 1;
    }

    /** Drops one key and leaves the generation alone. */
    method InvalidateKey(key: K)
      requires Valid()
      modifies this`items, this`order
      ensures Valid()
      ensures Abs() == old(InvalidateKeyState(Abs(), key))
    {
      hide Linked, Remove;
      ghost var i := Locate(items, order, key);
      if key in items {
        UnlinkLinked(items, order, key);
        order := Remove(order, items[key]);
        items := items - {key};
      }
    }

    method Generation() returns (g: nat)
      ensures g == Abs().gen
    {
      g := gen;
    }

    /** Removes every matching key and always bumps the generation. */
    method InvalidateWhere(pred: K -> bool) returns (removed: nat)
      requires Valid()
      modifies this
      ensures Valid()
      ensures Abs() == old(InvalidateWhereState(Abs(), pred))
      ensures removed == old(|order|) - |order| && repr == old(repr)
    {
      hide Linked, View;
      gen := gen + 1;
      items, order, removed := Sweep(items, order, pred);
    }

    /** The sweep visits the keys in an arbitrary order, as a range over a Go map does. */
    static method Sweep(items0: map<K, Element<K, V>>, order0: seq<Element<K, V>>, pred: K -> bool)
      returns (items: map<K, Element<K, V>>, order: seq<Element<K, V>>, removed: nat)
      requires Linked(items0, order0)
      ensures Linked(items, order)
      ensures View(order) == DropWhere(View(order0), pred)
      ensures |order0| == |order| + removed
      ensures forall e :: e in order ==> e in order0
    {
      hide Linked, Remove, View, Filtered;
      items, order, removed := items0, order0, 0;
      LinkedKeys(items0, order0);
      FilteredNothing(order0);
      var todo := items.Keys;
      ghost var gone: set<K> := {};
      while todo != {}
        invariant todo <= items.Keys
        invariant Swept(items0, order0, gone, items, order) && |order0| == |order| + removed
        invariant forall k :: k in gone ==> pred(k)
        invariant forall k :: k in items && k !in todo ==> !pred(k)
        decreases |todo|
      {
        var k :| k in todo;
        todo := todo - {k};
        if pred(k) {
          SweptMore(items0, order0, gone, items, order, k);
          order := Remove(order, items[k]);
          items := items - {k};
          removed := removed + 1;
          gone := gone + {k};
        }
      }
      LinkedKeys(items, order);
      FilteredFrom(order0, gone);
      FilteredDrop(order0, gone, pred);
    }

    /** Counts the entries that have not expired, whether or not expired ones are still linked. */
    method Len(now: int) returns (n: nat)
      requires Valid()
      ensures n == |set k | k in items && now <= items[k].expiresAt|
    {
      n := 0;
      var todo := items.Keys;
      ghost var live: set<K> := {};
      while todo != {}
        invariant todo <= items.Keys
        invariant live == set k | k in items && k !in todo && now <= items[k].expiresAt
        invariant n == |live|
        decreases |todo|
      {
        var k :| k in todo;
        todo := todo - {k};
        if !(now > items[k].expiresAt) {
          n := n + 1;
          live := live + {k};
        }
      }
      assert live == set k | k in items && now <= items[k].expiresAt;
    }
  }
}
