/**
 A map from keys to list elements and the list that holds them, as the caches and the idempotency
 store keep them side by side, and what keeps the two in step.
 */
module Elements {
  import opened Recency

  /** A list element holding one entry; a write to a known key overwrites it in place. */
  class Element<K, V> {
    const key: K
    var value: V
    var expiresAt: int

    constructor (key: K, value: V, expiresAt: int)
      ensures this.key == key && this.value == value && this.expiresAt == expiresAt
    {
      this.key, this.value, this.expiresAt := key, value, expiresAt;
    }
  }

  /** The list with one element unlinked. */
  function Remove<K, V>(order: seq<Element<K, V>>, el: Element<K, V>): (r: seq<Element<K, V>>) {
    if order == [] then []
    else if order[0] == el then order[1..]
    else [order[0]] + Remove(order[1..], el)
  }

  ghost predicate NoAlias<K(!new), V(!new)>(order: seq<Element<K, V>>) {
    forall i, j :: 0 <= i < j < |order| ==> order[i] != order[j]
  }

  lemma {:induction false} RemoveAt<K(!new), V(!new)>(order: seq<Element<K, V>>, i: nat)
    requires i < |order| && NoAlias(order)
    ensures Remove(order, order[i]) == order[..i] + order[i + 1..]
  {
    if i > 0 {
      assert order[1..][i - 1] == order[i];
      RemoveAt(order[1..], i - 1);
    }
  }

  ghost function View<K(!new), V(!new)>(order: seq<Element<K, V>>): (r: seq<Entry<K, V>>)
    reads order
    ensures |r| == |order|
    ensures forall i :: 0 <= i < |r| ==> r[i] == Entry(order[i].key, order[i].value, order[i].expiresAt)
  {
    seq(|order|, i requires 0 <= i < |order| reads order => Entry(order[i].key, order[i].value, order[i].expiresAt))
  }

  /** The elements whose keys are not in the set, in their order. */
  ghost function Filtered<K(!new), V(!new)>(order: seq<Element<K, V>>, gone: set<K>): (r: seq<Element<K, V>>) {
    if order == [] then []
    else if order[0].key in gone then Filtered(order[1..], gone)
    else [order[0]] + Filtered(order[1..], gone)
  }

  ghost predicate KeysDistinct<K(!new), V(!new)>(order: seq<Element<K, V>>) {
    forall i, j :: 0 <= i < j < |order| ==> order[i].key != order[j].key
  }

  lemma {:induction false} FilteredFrom<K(!new), V(!new)>(order: seq<Element<K, V>>, gone: set<K>)
    ensures forall e :: e in Filtered(order, gone) ==> e in order && e.key !in gone
  {
    if order != [] {
      FilteredFrom(order[1..], gone);
    }
  }

  /** Taking one more key out of a filtered list is filtering it by one more key. */
  lemma {:induction false} FilteredRemove<K(!new), V(!new)>(order: seq<Element<K, V>>, gone: set<K>, el: Element<K, V>)
    requires KeysDistinct(order) && el in Filtered(order, gone)
    ensures Remove(Filtered(order, gone), el) == Filtered(order, gone + {el.key})
  {
    var first, rest := order[0], order[1..];
    var kept := Filtered(rest, gone);
    FilteredFrom(rest, gone);
    if first.key in gone {
      FilteredRemove(rest, gone, el);
    } else {
      assert Filtered(order, gone) == [first] + kept;
      RemoveCons(first, kept, el);
      if first == el {
        FilteredMore(rest, gone, el.key);
      } else {
        FilteredRemove(rest, gone, el);
        var j :| 0 <= j < |rest| && rest[j] == el;
        assert order[j + 1].key == el.key;
      }
    }
  }

  lemma RemoveCons<K(!new), V(!new)>(first: Element<K, V>, rest: seq<Element<K, V>>, el: Element<K, V>)
    ensures Remove([first] + rest, el) == if first == el then rest else [first] + Remove(rest, el)
  {
    assert ([first] + rest)[1..] == rest;
  }

  lemma {:induction false} FilteredMore<K(!new), V(!new)>(order: seq<Element<K, V>>, gone: set<K>, k: K)
    requires forall i :: 0 <= i < |order| ==> order[i].key != k
    ensures Filtered(order, gone + {k}) == Filtered(order, gone)
  {
    if order != [] {
      FilteredMore(order[1..], gone, k);
    }
  }

  lemma {:induction false} FilteredNothing<K(!new), V(!new)>(order: seq<Element<K, V>>)
    ensures Filtered(order, {}) == order
  {
    if order != [] {
      FilteredNothing(order[1..]);
    }
  }

  lemma {:induction false} FilteredDrop<K(!new), V(!new)>(order: seq<Element<K, V>>, gone: set<K>, p: K -> bool)
    requires forall i :: 0 <= i < |order| ==> (order[i].key in gone <==> p(order[i].key))
    ensures View(Filtered(order, gone)) == DropWhere(View(order), p)
  {
    if order != [] {
      FilteredDrop(order[1..], gone, p);
      assert View(order)[1..] == View(order[1..]);
      var rest := Filtered(order[1..], gone);
      assert View([order[0]] + rest) == [View(order)[0]] + View(rest);
    }
  }

  // ---------------------------------------------------------------- the map and the list

  /** The map sends each key to the one list element that carries it. */
  ghost predicate Linked<K(!new), V(!new)>(items: map<K, Element<K, V>>, order: seq<Element<K, V>>) {
    && |items| == |order|
    && NoAlias(order)
    && (forall e :: e in order ==> e.key in items && items[e.key] == e)
    && (forall k :: k in items ==> items[k].key == k && items[k] in order)
  }

  /** Where the map sends a key is where the abstract sequence has it. */
  lemma Locate<K(!new), V(!new)>(items: map<K, Element<K, V>>, order: seq<Element<K, V>>, k: K) returns (i: nat)
    requires Linked(items, order)
    ensures i == Rank(View(order), k) <= |order|
    ensures k in items <==> i < |order|
    ensures i < |order| ==> order[i] == items[k] && Remove(order, items[k]) == order[..i] + order[i + 1..]
    ensures Distinct(View(order))
  {
    i := Rank(View(order), k);
    assert forall j :: 0 <= j < |order| ==> order[j] in order;
    if k in items {
      var j :| 0 <= j < |order| && order[j] == items[k];
      RankOf(View(order), j);
      RemoveAt(order, i);
    }
  }

  lemma UnlinkLinked<K(!new), V(!new)>(items: map<K, Element<K, V>>, order: seq<Element<K, V>>, k: K)
    requires Linked(items, order) && k in items
    ensures Linked(items - {k}, Remove(order, items[k]))
    ensures Linked(items, [items[k]] + Remove(order, items[k]))
    ensures Linked(items, Remove(order, items[k]) + [items[k]])
    ensures View(Remove(order, items[k])) == Without(View(order), k)
    ensures |Remove(order, items[k])| == |order| - 1
    ensures forall e :: e in Remove(order, items[k]) ==> e in order
  {
    hide Rank, Without, Remove, Linked, NoAlias, View;
    var i := Locate(items, order, k);
    ViewCut(order, i, k);
    LinkedNoAlias(items, order);
    Cut(order, i);
    LinkedCut(items, order, order[i], order[..i] + order[i + 1..]);
  }

  lemma NotRemoved<K(!new), V(!new)>(items: map<K, Element<K, V>>, order: seq<Element<K, V>>, k: K)
    requires Linked(items, order) && k in items
    ensures forall j :: 0 <= j < |Remove(order, items[k])| ==> Remove(order, items[k])[j] != items[k]
  {
    var i := Locate(items, order, k);
  }

  lemma LinkedNoAlias<K(!new), V(!new)>(items: map<K, Element<K, V>>, order: seq<Element<K, V>>)
    requires Linked(items, order)
    ensures NoAlias(order) && |items| == |order|
  {
  }

  lemma LinkedKeys<K(!new), V(!new)>(items: map<K, Element<K, V>>, order: seq<Element<K, V>>)
    requires Linked(items, order)
    ensures |items| == |order| && |items.Keys| == |items| && KeysDistinct(order)
    ensures forall i :: 0 <= i < |order| ==> order[i].key in items
    ensures forall k :: k in items ==> items[k] in order && items[k].key == k
  {
    assert forall i :: 0 <= i < |order| ==> order[i] in order;
  }

  lemma ViewCut<K(!new), V(!new)>(order: seq<Element<K, V>>, i: nat, k: K)
    requires i == Rank(View(order), k) < |order|
    ensures View(order[..i] + order[i + 1..]) == Without(View(order), k)
  {
  }

  lemma Cut<K(!new), V(!new)>(order: seq<Element<K, V>>, i: nat)
    requires i < |order| && NoAlias(order)
    ensures var w := order[..i] + order[i + 1..];
            NoAlias(w) && forall e :: e in w <==> e in order && e != order[i]
  {
    var w := order[..i] + order[i + 1..];
    forall e | e in order && e != order[i] ensures e in w {
      var j :| 0 <= j < |order| && order[j] == e;
      assert w[if j < i then j else j - 1] == e;
    }
  }

  lemma LinkedCut<K(!new), V(!new)>(items: map<K, Element<K, V>>, order: seq<Element<K, V>>, el: Element<K, V>,
                                    w: seq<Element<K, V>>)
    requires Linked(items, order) && el in order && NoAlias(w) && |w| == |order| - 1
    requires forall e :: e in w <==> e in order && e != el
    ensures Linked(items - {el.key}, w)
    ensures Linked(items, [el] + w)
    ensures Linked(items, w + [el])
  {
    assert (items - {el.key}).Keys == items.Keys - {el.key};
    assert forall j :: 0 <= j < |w| ==> w[j] in w;
    assert NoAlias([el] + w) && NoAlias(w + [el]);
    assert forall e :: e in [el] + w <==> e in order;
    assert forall e :: e in w + [el] <==> e in order;
  }

  lemma PushLinked<K(!new), V(!new)>(items: map<K, Element<K, V>>, order: seq<Element<K, V>>, el: Element<K, V>)
    requires Linked(items, order) && el.key !in items
    ensures Linked(items[el.key := el], [el] + order)
    ensures View([el] + order) == [Entry(el.key, el.value, el.expiresAt)] + View(order)
  {
    var w := [el] + order;
    assert forall e :: e in w <==> e == el || e in order;
    assert forall j :: 0 <= j < |order| ==> order[j] in order;
  }

  lemma AppendLinked<K(!new), V(!new)>(items: map<K, Element<K, V>>, order: seq<Element<K, V>>, el: Element<K, V>)
    requires Linked(items, order) && el.key !in items
    ensures Linked(items[el.key := el], order + [el])
    ensures View(order + [el]) == View(order) + [Entry(el.key, el.value, el.expiresAt)]
  {
    var w := order + [el];
    assert forall e :: e in w <==> e == el || e in order;
    assert forall j :: 0 <= j < |order| ==> order[j] in order;
  }

  lemma DropFrontLinked<K(!new), V(!new)>(items: map<K, Element<K, V>>, order: seq<Element<K, V>>)
    requires Linked(items, order) && order != []
    ensures order[0].key in items
    ensures Linked(items - {order[0].key}, order[1..]) && View(order[1..]) == View(order)[1..]
  {
    hide Linked, NoAlias, View;
    assert order[..0] + order[1..] == order[1..];
    assert order[0] in order;
    LinkedNoAlias(items, order);
    LinkedKeys(items, order);
    Cut(order, 0);
    LinkedCut(items, order, order[0], order[1..]);
    ViewTail(order);
  }

  lemma ViewTail<K(!new), V(!new)>(order: seq<Element<K, V>>)
    requires order != []
    ensures View(order[1..]) == View(order)[1..]
  {
  }

  lemma EvictLinked<K(!new), V(!new)>(items: map<K, Element<K, V>>, order: seq<Element<K, V>>)
    requires Linked(items, order) && order != []
    ensures var n := |order| - 1;
            Linked(items - {order[n].key}, order[..n]) && View(order[..n]) == View(order)[..n]
  {
    var n := |order| - 1;
    hide Linked, NoAlias;
    assert order[..n] + order[n + 1..] == order[..n];
    LinkedNoAlias(items, order);
    Cut(order, n);
    LinkedCut(items, order, order[n], order[..n]);
  }

  /** What a sweep that has removed the keys in `gone` has left of the map and the list. */
  ghost predicate Swept<K(!new), V(!new)>(items0: map<K, Element<K, V>>, order0: seq<Element<K, V>>, gone: set<K>,
                                          items: map<K, Element<K, V>>, order: seq<Element<K, V>>) {
    && Linked(items0, order0) && Linked(items, order)
    && order == Filtered(order0, gone)
    && items.Keys == items0.Keys - gone
  }

  lemma SweptMore<K(!new), V(!new)>(items0: map<K, Element<K, V>>, order0: seq<Element<K, V>>, gone: set<K>,
                                    items: map<K, Element<K, V>>, order: seq<Element<K, V>>, k: K)
    requires Swept(items0, order0, gone, items, order) && k in items
    ensures Swept(items0, order0, gone + {k}, items - {k}, Remove(order, items[k]))
    ensures |Remove(order, items[k])| == |order| - 1
  {
    hide Linked, Remove, View, Filtered;
    UnlinkLinked(items, order, k);
    LinkedKeys(items0, order0);
    LinkedKeys(items, order);
    FilteredRemove(order0, gone, items[k]);
  }
}
