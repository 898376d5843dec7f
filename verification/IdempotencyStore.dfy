/**
 The idempotency store: completed responses in a map and a FIFO list, and the in-flight reservations.
 Each method is one critical section; closing a flight's channel happens after the lock is released.
 */
module IdempotencyStore {
  import opened Recency
  import opened Elements
  import opened Fifo

  datatype Response = Response(status: int, body: string, contentType: string)

  const MAX_ENTRIES: nat := 10000
  const MAX_BODY_BYTES: nat := 256 * 1024

  /** What is stored for longer than the current batch: no server error, no oversized body. */
  predicate Cacheable(r: Response) {
    r.status < 500 && |r.body| <= MAX_BODY_BYTES
  }

  /** A reservation; `closed` is the state of the channel that followers wait on. */
  class Flight {
    var closed: bool
    var result: Option<Response>

    constructor ()
      ensures !closed && result.None?
    {
      closed, result := false, None;
    }

    /** Closing a closed channel is a fatal error, so the caller must know that it is open. */
    method Close()
      requires !closed
      modifies this`closed
      ensures closed
    {
      closed := true;
    }
  }

  datatype Admission = Replay(response: Response) | Lead(leader: Flight) | Follow(follower: Flight)

  class Store {
    var elems: map<string, Element<string, Response>>
    var order: seq<Element<string, Response>>
    var inflight: map<string, Flight>
    const maxEntries: nat
    const ttl: int

    /** Map and list agree within the capacity; a key in flight has no stored entry, an open flight, and its own. */
    ghost predicate Valid()
      reads this, inflight.Values
    {
      && maxEntries > 0
      && Linked(elems, order) && |order| <= maxEntries
      && elems.Keys !! inflight.Keys
      && (forall k :: k in inflight ==> !inflight[k].closed && inflight[k].result.None?)
      && (forall k, l :: k in inflight && l in inflight && k != l ==> inflight[k] != inflight[l])
    }

    ghost function Items(): (r: seq<Entry<string, Response>>)
      reads this, order
    {
      View(order)
    }

    constructor (ttl: int, maxEntries: int)
      ensures Valid() && Items() == [] && inflight == map[] && this.ttl == ttl
      ensures this.maxEntries == if maxEntries <= 0 then 10000 else maxEntries
    {
      this.ttl := ttl;
      this.maxEntries := if maxEntries <= 0 then MAX_ENTRIES else maxEntries;
      elems, order, inflight := map[], [], map[];
    }

    method RemoveElem(key: string)
      requires Linked(elems, order) && key in elems
      modifies this`elems, this`order
      ensures Linked(elems, order) && |order| == old(|order|) - 1
      ensures elems == old(elems) - {key}
      ensures Items() == old(Without(Items(), key))
      ensures order == old(Remove(order, elems[key]))
    {
      hide Linked, Remove, View, Without;
      UnlinkLinked(elems, order, key);
      order := Remove(order, elems[key]);
      elems := elems - {key};
    }

    /** Admission: replay a stored response, lead, or follow the leader in flight. */
    method Reserve(key: string, now: int) returns (a: Admission)
      requires Valid()
      modifies this`elems, this`order, this`inflight
      ensures Valid()
      ensures Items() == old(Dropped(Items(), key, now))
      ensures match a
              case Replay(r) => old(LiveValue(Items(), key, now)) == Some(r) && inflight == old(inflight)
              case Follow(f) =>
                && old(LiveValue(Items(), key, now)).None?
                && key in old(inflight) && f == old(inflight[key]) && inflight == old(inflight)
              case Lead(f) =>
                && old(LiveValue(Items(), key, now)).None? && key !in old(inflight)
                && fresh(f) && inflight == old(inflight)[key := f]
    {
      hide Linked, View, Without;
      ghost var i := Locate(elems, order, key);
      if key in elems {
        var it := elems[key];
        if !(now > it.expiresAt) {
          return Replay(it.value);
        }
        RemoveElem(key);
      }
      if key in inflight {
        return Follow(inflight[key]);
      }
      var f := new Flight();
      inflight := inflight[key := f];
      a := Lead(f);
    }

    /** Replaces a known key at the back, or evicts the oldest until there is room and appends. */
    method PutLocked(key: string, response: Response, expiresAt: int)
      requires maxEntries > 0 && Linked(elems, order) && |order| <= maxEntries
      modifies this`elems, this`order, if key in elems then {elems[key]} else {}
      ensures Linked(elems, order) && |order| <= maxEntries
      ensures elems.Keys <= old(elems.Keys) + {key}
      ensures Items() == old(Write(maxEntries, Items(), Entry(key, response, expiresAt)))
    {
      hide Linked, Remove, Without;
      ghost var i := Locate(elems, order, key);
      LinkedNoAlias(elems, order);
      if key in elems {
        Replace(key, response, expiresAt);
        return;
      }
      MakeRoom();
      Append(key, response, expiresAt);
    }

    method Replace(key: string, response: Response, expiresAt: int)
      requires Linked(elems, order) && key in elems
      modifies this`order, elems[key]
      ensures Linked(elems, order) && |order| == old(|order|)
      ensures Items() == old(Without(Items(), key) + [Entry(key, response, expiresAt)])
    {
      hide Linked, Remove, Without;
      var e := elems[key];
      ghost var i := Locate(elems, order, key);
      UnlinkLinked(elems, order, key);
      NotRemoved(elems, order, key);
      ghost var rest, view := Remove(order, e), View(Remove(order, e));
      e.value, e.expiresAt := response, expiresAt;
      assert View(rest) == view;
      order := Remove(order, e) + [e];
    }

    /** The eviction loop stops with one place free and has dropped only the oldest entries. */
    method MakeRoom()
      requires maxEntries > 0 && Linked(elems, order) && |order| <= maxEntries
      modifies this`elems, this`order
      ensures Linked(elems, order) && |order| < maxEntries
      ensures elems.Keys <= old(elems.Keys)
      ensures Items() == old(Newest(Items(), maxEntries - 1))
    {
      hide Linked, View;
      ghost var s := Items();
      ghost var gone := 0;
      LinkedNoAlias(elems, order);
      while |elems| >= maxEntries
        invariant Linked(elems, order) && |elems| == |order| == |s| - gone
        invariant 0 <= gone <= 1 && (gone == 1 ==> |s| == maxEntries)
        invariant Items() == if gone == 0 then s else s[1..]
        invariant elems.Keys <= old(elems.Keys)
        decreases |order|
      {
        if |order| > 0 {
          EvictFront();
          gone := gone + 1;
        } else {
          break;
        }
      }
    }

    method EvictFront()
      requires Linked(elems, order) && |order| > 0
      modifies this`elems, this`order
      ensures Linked(elems, order) && |elems| == |order| == old(|order|) - 1
      ensures elems.Keys <= old(elems.Keys)
      ensures Items() == old(Items()[1..])
    {
      hide Linked, View;
      DropFrontLinked(elems, order);
      var front := order[0];
      order := order[1..];
      elems := elems - {front.key};
      LinkedNoAlias(elems, order);
    }

    method Append(key: string, response: Response, expiresAt: int)
      requires Linked(elems, order) && key !in elems
      modifies this`elems, this`order
      ensures Linked(elems, order) && |order| == old(|order|) + 1
      ensures elems.Keys == old(elems.Keys) + {key}
      ensures Items() == old(Items() + [Entry(key, response, expiresAt)])
    {
      hide Linked;
      var e := new Element(key, response, expiresAt);
      AppendLinked(elems, order, e);
      order := order + [e];
      elems := elems[key := e];
    }

    /** The leader's result: recorded on the flight, stored if cacheable, the reservation dropped, followers woken. */
    method FinishLeader(key: string, fl: Flight, response: Response, expiresAt: int, cache: bool)
      requires Valid() && key in inflight && inflight[key] == fl
      modifies this`elems, this`order, this`inflight, fl
      ensures Valid() && inflight == old(inflight) - {key}
      ensures fl.closed && fl.result == Some(response)
      ensures Items() == old(if cache then Write(maxEntries, Items(), Entry(key, response, expiresAt)) else Items())
    {
      hide Linked, View, Write;
      fl.result := Some(response);
      if cache {
        PutLocked(key, response, expiresAt);
      }
      inflight := inflight - {key};
      fl.Close();
    }

    /** Releases a reservation without a result; after the flight has finished it does nothing. */
    method AbortLeader(key: string, fl: Flight)
      requires Valid()
      modifies this`inflight, fl`closed
      ensures Valid() && Items() == old(Items())
      ensures if key in old(inflight) && old(inflight[key]) == fl
              then inflight == old(inflight) - {key} && fl.closed
              else inflight == old(inflight) && fl.closed == old(fl.closed)
      ensures old(fl.closed) ==> inflight == old(inflight)
    {
      hide Linked, View;
      if key in inflight && inflight[key] == fl {
        inflight := inflight - {key};
        fl.Close();
      }
    }

    /** One pass of the collector, removing while it walks the list: exactly the unexpired entries stay, in order. */
    method Sweep(now: int)
      requires Valid()
      modifies this`elems, this`order
      ensures Valid() && inflight == old(inflight)
      ensures Items() == old(Unexpired(Items(), now))
    {
      hide Linked, View;
      RemoveExpired(now);
    }

    method RemoveExpired(now: int)
      requires Linked(elems, order)
      modifies this`elems, this`order
      ensures Linked(elems, order) && |order| <= old(|order|) && elems.Keys <= old(elems.Keys)
      ensures Items() == old(Unexpired(Items(), now))
    {
      hide Linked, Remove, Without;
      ghost var s := order;
      ghost var done := 0;
      var i := 0;
      while i < |order|
        invariant 0 <= i <= |order| <= |s| && done == |s| - (|order| - i)
        invariant Linked(elems, order) && elems.Keys <= old(elems.Keys)
        invariant order[i..] == s[done..]
        invariant View(order[..i]) == Unexpired(View(s)[..done], now)
        decreases |order| - i
      {
        assert order[i] == order[i..][0];
        assert s[done..][1..] == s[done + 1..];
        assert View(s)[..done + 1][..done] == View(s)[..done];
        if now > order[i].expiresAt {
          RemoveAtPosition(i);
        } else {
          assert View(order[..i + 1]) == View(order[..i]) + [View(s)[done]];
          i := i + 1;
        }
        done := done + 1;
      }
      assert order[..i] == order && View(s)[..done] == View(s);
    }

    method RemoveAtPosition(i: nat)
      requires Linked(elems, order) && i < |order|
      modifies this`elems, this`order
      ensures Linked(elems, order) && elems.Keys <= old(elems.Keys)
      ensures order == old(order[..i] + order[i + 1..])
    {
      hide Linked;
      LinkedNoAlias(elems, order);
      LinkedKeys(elems, order);
      Cut(order, i);
      assert order[i] in order;
      LinkedCut(elems, order, order[i], order[..i] + order[i + 1..]);
      var e := order[i];
      order := order[..i] + order[i + 1..];
      elems := elems - {e.key};
    }

    method Len() returns (n: nat)
      requires Valid()
      ensures n == |Items()|
    {
      n := |elems|;
    }
  }
}
