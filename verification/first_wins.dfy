/** A JavaScript `Map` filled with the "set only if absent" idiom
    (`if (!m.has(k)) m.set(k, v)`), over a sequence of items of which only
    some are offered: the first offered item with a given key wins. Used by
    the rule filter (biblio-patri.js, lines 304-308). */
module FirstWins {
  import opened Wrappers

  /** One key/value pair of the map, in insertion order. */
  datatype Entry<K, V> = Entry(key: K, value: V)

  function Keys<K, V>(entries: seq<Entry<K, V>>): (keys: seq<K>)
    ensures |keys| == |entries|
    ensures forall i :: 0 <= i < |entries| ==> keys[i] == entries[i].key
  {
    seq(|entries|, i requires 0 <= i < |entries| => entries[i].key)
  }

  /** `items[j]` is the first item accepted by `keep` whose key is `k`. */
  predicate FirstKeptAt<R, K(==)>(items: seq<R>, keep: R -> bool, keyOf: R -> K, j: int, k: K) {
    && 0 <= j < |items|
    && keep(items[j])
    && keyOf(items[j]) == k
    && forall j' :: 0 <= j' < j && keep(items[j']) ==> keyOf(items[j']) != k
  }

  /** `if (!m.has(key)) m.set(key, value)`. */
  function Offer<K(==), V>(entries: seq<Entry<K, V>>, key: K, value: V): (r: seq<Entry<K, V>>)
    ensures key in Keys(r)
    ensures key in Keys(entries) ==> r == entries
    ensures key !in Keys(entries) ==> r == entries + [Entry(key, value)]
  {
    if key in Keys(entries) then entries
    else
      assert Keys(entries + [Entry(key, value)])[|entries|] == key;
      entries + [Entry(key, value)]
  }

  /** The position of the entry with that key, or -1. */
  function IndexOfKey<K(==), V>(entries: seq<Entry<K, V>>, key: K): (i: int)
    ensures -1 <= i < |entries|
    ensures i == -1 <==> key !in Keys(entries)
    ensures i >= 0 ==> entries[i].key == key
  {
    if entries == [] then -1
    else if entries[0].key == key then 0
    else
      var i := IndexOfKey(entries[1..], key);
      assert Keys(entries) == [entries[0].key] + Keys(entries[1..]);
      if i == -1 then -1 else i + 1
  }

  /** `m.get(key)`: the value of the entry with that key, if any. */
  function Lookup<K(==), V>(entries: seq<Entry<K, V>>, key: K): (r: Option<V>)
    ensures r.None? <==> key !in Keys(entries)
    ensures r.Some? ==> exists i :: 0 <= i < |entries| && entries[i] == Entry(key, r.value)
  {
    var i := IndexOfKey(entries, key);
    if i == -1 then None else Some(entries[i].value)
  }

  /** With distinct keys, the lookup finds the value stored under the key. */
  lemma LookupFinds<K, V>(entries: seq<Entry<K, V>>, i: nat)
    requires i < |entries|
    requires forall a, b :: 0 <= a < b < |entries| ==> entries[a].key != entries[b].key
    ensures Lookup(entries, entries[i].key) == Some(entries[i].value)
  {
    var r := Lookup(entries, entries[i].key);
    var a :| 0 <= a < |entries| && entries[a] == Entry(entries[i].key, r.value);
  }

  /** The map after visiting `items` in order: each accepted item is offered
      under its key; rejected items change nothing. */
  function KeepFirst<R, K(==), V>(items: seq<R>, keep: R -> bool, keyOf: R -> K, valueOf: R -> V): (entries: seq<Entry<K, V>>)
  {
    if items == [] then []
    else
      var acc := KeepFirst(items[..|items| - 1], keep, keyOf, valueOf);
      var item := items[|items| - 1];
      if keep(item) then Offer(acc, keyOf(item), valueOf(item)) else acc
  }

  /** Keys are distinct, every accepted item's key is present, and each
      entry holds the value of the FIRST accepted item with its key;
      rejected items claim no key. */
  lemma {:induction false} KeepFirstSpec<R, K, V>(items: seq<R>, keep: R -> bool, keyOf: R -> K, valueOf: R -> V)
    ensures var entries := KeepFirst(items, keep, keyOf, valueOf);
      && |entries| <= |items|
      && (forall i, k :: 0 <= i < k < |entries| ==> entries[i].key != entries[k].key)
      && (forall j :: 0 <= j < |items| && keep(items[j]) ==> keyOf(items[j]) in Keys(entries))
      && (forall i :: 0 <= i < |entries| ==>
            exists j :: FirstKeptAt(items, keep, keyOf, j, entries[i].key) && entries[i].value == valueOf(items[j]))
    decreases |items|
  {
    if items != [] {
      var init := items[..|items| - 1];
      var item := items[|items| - 1];
      var acc := KeepFirst(init, keep, keyOf, valueOf);
      KeepFirstSpec(init, keep, keyOf, valueOf);
      var entries := KeepFirst(items, keep, keyOf, valueOf);
      forall i | 0 <= i < |acc|
        ensures exists j :: FirstKeptAt(items, keep, keyOf, j, acc[i].key) && acc[i].value == valueOf(items[j])
      {
        var j :| FirstKeptAt(init, keep, keyOf, j, acc[i].key) && acc[i].value == valueOf(init[j]);
        assert items[j] == init[j];
        assert forall j' :: 0 <= j' < j ==> items[j'] == init[j'];
        assert FirstKeptAt(items, keep, keyOf, j, acc[i].key);
      }
      if !keep(item) || keyOf(item) in Keys(acc) {
        assert entries == acc;
        forall j | 0 <= j < |items| && keep(items[j])
          ensures keyOf(items[j]) in Keys(entries)
        {
          if j < |init| {
            assert items[j] == init[j];
          }
        }
      } else {
        assert entries == acc + [Entry(keyOf(item), valueOf(item))];
        assert Keys(entries) == Keys(acc) + [keyOf(item)];
        forall j' | 0 <= j' < |init| && keep(items[j'])
          ensures keyOf(items[j']) != keyOf(item)
        {
          assert items[j'] == init[j'];
        }
        assert FirstKeptAt(items, keep, keyOf, |items| - 1, keyOf(item));
        forall j | 0 <= j < |items| && keep(items[j])
          ensures keyOf(items[j]) in Keys(entries)
        {
          if j < |init| {
            assert items[j] == init[j];
          }
        }
        forall i | 0 <= i < |entries|
          ensures exists j :: FirstKeptAt(items, keep, keyOf, j, entries[i].key) && entries[i].value == valueOf(items[j])
        {
          if i == |acc| {
            assert FirstKeptAt(items, keep, keyOf, |items| - 1, entries[i].key);
          } else {
            assert entries[i] == acc[i];
          }
        }
      }
    }
  }

  /** Visiting more items never changes the entries already made: the old
      map is a prefix of the new one. */
  lemma {:induction false} KeepFirstPrefix<R, K, V>(items: seq<R>, more: seq<R>, keep: R -> bool, keyOf: R -> K, valueOf: R -> V)
    ensures KeepFirst(items, keep, keyOf, valueOf) <= KeepFirst(items + more, keep, keyOf, valueOf)
    decreases |more|
  {
    if more == [] {
      assert items + more == items;
    } else {
      var init := more[..|more| - 1];
      KeepFirstPrefix(items, init, keep, keyOf, valueOf);
      assert (items + more)[..|items + more| - 1] == items + init;
    }
  }

  /** The first accepted index of a key is unique. */
  lemma FirstKeptAtUnique<R, K>(items: seq<R>, keep: R -> bool, keyOf: R -> K, j1: int, j2: int, k: K)
    requires FirstKeptAt(items, keep, keyOf, j1, k) && FirstKeptAt(items, keep, keyOf, j2, k)
    ensures j1 == j2
  {
  }

  /** When no item is accepted, the map stays empty. */
  lemma {:induction false} KeepFirstNoneKept<R, K, V>(items: seq<R>, keep: R -> bool, keyOf: R -> K, valueOf: R -> V)
    requires forall j :: 0 <= j < |items| ==> !keep(items[j])
    ensures KeepFirst(items, keep, keyOf, valueOf) == []
    decreases |items|
  {
    if items != [] {
      KeepFirstNoneKept(items[..|items| - 1], keep, keyOf, valueOf);
    }
  }

  /** Entries are in the order in which their keys were first accepted. */
  lemma {:induction false} KeepFirstOrder<R, K, V>(items: seq<R>, keep: R -> bool, keyOf: R -> K, valueOf: R -> V,
                                                  a: nat, b: nat, ja: int, jb: int)
    requires a < b < |KeepFirst(items, keep, keyOf, valueOf)|
    requires FirstKeptAt(items, keep, keyOf, ja, KeepFirst(items, keep, keyOf, valueOf)[a].key)
    requires FirstKeptAt(items, keep, keyOf, jb, KeepFirst(items, keep, keyOf, valueOf)[b].key)
    ensures ja < jb
    decreases |items|
  {
    var init := items[..|items| - 1];
    var acc := KeepFirst(init, keep, keyOf, valueOf);
    var entries := KeepFirst(items, keep, keyOf, valueOf);
    KeepFirstSpec(init, keep, keyOf, valueOf);
    KeepFirstSpec(items, keep, keyOf, valueOf);
    assert a < |acc| && entries[a] == acc[a];
    var ia :| FirstKeptAt(init, keep, keyOf, ia, acc[a].key) && acc[a].value == valueOf(init[ia]);
    assert FirstKeptAt(items, keep, keyOf, ia, acc[a].key) by {
      assert forall j' :: 0 <= j' < ia ==> items[j'] == init[j'];
    }
    FirstKeptAtUnique(items, keep, keyOf, ia, ja, acc[a].key);
    if b < |acc| {
      assert entries[b] == acc[b];
      var ib :| FirstKeptAt(init, keep, keyOf, ib, acc[b].key) && acc[b].value == valueOf(init[ib]);
      assert FirstKeptAt(items, keep, keyOf, ib, acc[b].key) by {
        assert forall j' :: 0 <= j' < ib ==> items[j'] == init[j'];
      }
      FirstKeptAtUnique(items, keep, keyOf, ib, jb, acc[b].key);
      KeepFirstOrder(init, keep, keyOf, valueOf, a, b, ia, ib);
    } else {
      assert entries[b].key == keyOf(items[|items| - 1]);
      assert FirstKeptAt(items, keep, keyOf, |items| - 1, entries[b].key) by {
        forall j' | 0 <= j' < |items| - 1 && keep(items[j'])
          ensures keyOf(items[j']) != entries[b].key
        {
          assert items[j'] == init[j'];
        }
      }
      FirstKeptAtUnique(items, keep, keyOf, |items| - 1, jb, entries[b].key);
    }
  }
}
