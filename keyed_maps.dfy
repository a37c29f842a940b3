/*
 * KeyedMap: a dictionary whose entries are stored under each item's own key
 * (Lcl.EventLog/Utilities/KeyedMap.cs), and BackedMap: a writable front map
 * that shadows a read-only backing map (Lcl.EventLog/Utilities/BackedMap.cs).
 *
 * The key of an item (IHasKey.Key in the source) is the function KeyOf that
 * each map is built with. BackedMap extends KeyedMap in the source; here it
 * owns its front store as a KeyedMap object, whose entries are what the
 * inherited Items enumerates.
 */
module KeyedMaps {
  import opened Common

  /** Every entry is stored under its own key. */
  ghost predicate KeyConsistent<K, T>(m: map<K, T>, keyOf: T -> K)
  {
    forall k :: k in m ==> keyOf(m[k]) == k
  }

  /** The map left behind by putting the items one after the other, each under its own key. */
  function PutAll<K, T>(m: map<K, T>, keyOf: T -> K, items: seq<T>): map<K, T>
  {
    if items == [] then m
    else
      var last := items[|items| - 1];
      PutAll(m, keyOf, items[..|items| - 1])[keyOf(last) := last]
  }

  /** Putting one more item of a list extends the map left by its prefix. */
  lemma PutAllStep<K, T>(m: map<K, T>, keyOf: T -> K, items: seq<T>, i: int)
    requires 0 <= i < |items|
    ensures PutAll(m, keyOf, items[..i + 1]) == PutAll(m, keyOf, items[..i])[keyOf(items[i]) := items[i]]
  {
    assert items[..i + 1][..i] == items[..i];
  }

  /** Sequential Put adds exactly the keys of the items. */
  lemma {:induction false} PutAllKeys<K, T>(m: map<K, T>, keyOf: T -> K, items: seq<T>)
    ensures PutAll(m, keyOf, items).Keys == m.Keys + set i | 0 <= i < |items| :: keyOf(items[i])
  {
    if items != [] {
      var n := |items| - 1;
      PutAllKeys(m, keyOf, items[..n]);
      var before := set i | 0 <= i < n :: keyOf(items[..n][i]);
      var after := set i | 0 <= i < |items| :: keyOf(items[i]);
      assert before == set i | 0 <= i < n :: keyOf(items[i]);
      assert after == before + {keyOf(items[n])};
    }
  }

  /** Of several items with the same key, the last one put is the one stored. */
  lemma {:induction false} PutAllLastWins<K, T>(m: map<K, T>, keyOf: T -> K, items: seq<T>, i: nat)
    requires i < |items|
    requires forall j :: i < j < |items| ==> keyOf(items[j]) != keyOf(items[i])
    ensures keyOf(items[i]) in PutAll(m, keyOf, items)
    ensures PutAll(m, keyOf, items)[keyOf(items[i])] == items[i]
  {
    var n := |items| - 1;
    if i < n {
      PutAllLastWins(m, keyOf, items[..n], i);
    }
  }

  /** A key that none of the items carries keeps its entry (or its absence). */
  lemma {:induction false} PutAllOtherKeys<K, T>(m: map<K, T>, keyOf: T -> K, items: seq<T>, k: K)
    requires forall j :: 0 <= j < |items| ==> keyOf(items[j]) != k
    ensures k in PutAll(m, keyOf, items) <==> k in m
    ensures k in m ==> PutAll(m, keyOf, items)[k] == m[k]
  {
    if items != [] {
      PutAllOtherKeys(m, keyOf, items[..|items| - 1], k);
    }
  }

  lemma {:induction false} PutAllKeyConsistent<K, T>(m: map<K, T>, keyOf: T -> K, items: seq<T>)
    requires KeyConsistent(m, keyOf)
    ensures KeyConsistent(PutAll(m, keyOf, items), keyOf)
  {
    if items != [] {
      PutAllKeyConsistent(m, keyOf, items[..|items| - 1]);
    }
  }

  /** Putting items over a map is putting them over an empty one and letting the result win. */
  lemma {:induction false} PutAllOver<K, T>(m: map<K, T>, keyOf: T -> K, items: seq<T>)
    ensures PutAll(m, keyOf, items) == m + PutAll(map[], keyOf, items)
  {
    if items != [] {
      PutAllOver(m, keyOf, items[..|items| - 1]);
    }
  }

  /**
   * The rows of a keyed table in some order, as a query over the whole table
   * hands them out: putting them one after the other rebuilds the table.
   */
  method Listing<K, T>(m: map<K, T>, keyOf: T -> K) returns (items: seq<T>)
    requires KeyConsistent(m, keyOf)
    ensures PutAll(map[], keyOf, items) == m
    ensures forall i :: 0 <= i < |items| ==> keyOf(items[i]) in m && m[keyOf(items[i])] == items[i]
    ensures forall i, j :: 0 <= i < j < |items| ==> keyOf(items[i]) != keyOf(items[j])
  {
    items := [];
    var done: map<K, T> := map[];
    var rest := m.Keys;
    while rest != {}
      invariant rest <= m.Keys && done.Keys == m.Keys - rest
      invariant forall k :: k in done ==> done[k] == m[k]
      invariant PutAll(map[], keyOf, items) == done
      invariant Lists(items, done, keyOf)
      decreases |rest|
    {
      var k :| k in rest;
      ListingStep(keyOf, items, m[k]);
      ListsStep(items, done, keyOf, m[k]);
      items := items + [m[k]];
      done := done[k := m[k]];
      rest := rest - {k};
    }
    assert done.Keys == m.Keys;
  }

  /** The items are entries of the map, each under its own key, no key twice. */
  ghost predicate Lists<K, T>(items: seq<T>, m: map<K, T>, keyOf: T -> K)
  {
    (forall i :: 0 <= i < |items| ==> keyOf(items[i]) in m && m[keyOf(items[i])] == items[i])
    && (forall i, j :: 0 <= i < j < |items| ==> keyOf(items[i]) != keyOf(items[j]))
  }

  lemma ListsStep<K, T>(items: seq<T>, m: map<K, T>, keyOf: T -> K, item: T)
    requires Lists(items, m, keyOf) && keyOf(item) !in m
    ensures Lists(items + [item], m[keyOf(item) := item], keyOf)
  {
  }

  lemma ListingStep<K, T>(keyOf: T -> K, items: seq<T>, item: T)
    ensures PutAll(map[], keyOf, items + [item]) == PutAll(map[], keyOf, items)[keyOf(item) := item]
  {
    assert (items + [item])[..|items|] == items;
  }

  class KeyedMap<K(==,!new), T> {
    const KeyOf: T -> K
    var items: map<K, T>

    ghost predicate Valid()
      reads this
    {
      KeyConsistent(items, KeyOf)
    }

    /** A map holding the given items, put one after the other. */
    constructor (keyOf: T -> K, initial: seq<T>)
      ensures Valid() && KeyOf == keyOf
      ensures items == PutAll(map[], keyOf, initial)
    {
      KeyOf := keyOf;
      items := map[];
      new;
      PutRange(initial);
    }

    /** The item stored under key, or None: an item found is always one whose own key is key. */
    function Find(key: K): (r: Option<T>)
      reads this
      ensures r.None? <==> key !in items
      ensures r.Some? ==> r.value == items[key]
      ensures Valid() && r.Some? ==> KeyOf(r.value) == key
    {
      if key in items then Some(items[key]) else None
    }

    /** Lookup by the key of a sample item (the item indexer). */
    function FindLike(keyItem: T): (r: Option<T>)
      reads this
      ensures r.None? <==> KeyOf(keyItem) !in items
      ensures Valid() && r.Some? ==> KeyOf(r.value) == KeyOf(keyItem)
    {
      Find(KeyOf(keyItem))
    }

    method Put(item: T)
      requires Valid()
      modifies this
      ensures Valid()
      ensures items == old(items)[KeyOf(item) := item]
      ensures Find(KeyOf(item)) == Some(item)
      ensures forall k :: k != KeyOf(item) ==> Find(k) == old(Find(k))
    {
      items := items[KeyOf(item) := item];
    }

    method Remove(key: K)
      requires Valid()
      modifies this
      ensures Valid()
      ensures items == old(items) - {key}
      ensures Find(key) == None
      ensures forall k :: k != key ==> Find(k) == old(Find(k))
      ensures key !in old(items) ==> items == old(items)
    {
      items := items - {key};
    }

    method PutRange(xs: seq<T>)
      requires Valid()
      modifies this
      ensures Valid()
      ensures items == PutAll(old(items), KeyOf, xs)
    {
      var i := 0;
      while i < |xs|
        invariant 0 <= i <= |xs|
        invariant Valid()
        invariant items == PutAll(old(items), KeyOf, xs[..i])
      {
        assert xs[..i + 1][..i] == xs[..i];
        Put(xs[i]);
        i := i + 1;
      }
      assert xs[..i] == xs;
    }
  }

  class BackedMap<K(==,!new), T> {
    const KeyOf: T -> K
    /** The writable front store: the entries that Items enumerates. */
    const Front: KeyedMap<K, T>
    /** The shadowed map; BackedMap never writes to it. */
    const Backing: KeyedMap?<K, T>

    ghost predicate Valid()
      reads Front, Backing
    {
      Front.Valid() && Front.KeyOf == KeyOf && Front != Backing
      && (Backing != null ==> Backing.Valid() && Backing.KeyOf == KeyOf)
    }

    function BackingFind(key: K): (r: Option<T>)
      reads Backing
      ensures Backing == null ==> r.None?
      ensures Backing != null ==> r == Backing.Find(key)
    {
      if Backing == null then None else Backing.Find(key)
    }

    /** The front entries alone: items of the backing map never appear unless put again. */
    function Items(): map<K, T>
      reads Front
    {
      Front.items
    }

    /** Items given to the constructor go to the front store. */
    constructor (keyOf: T -> K, backing: KeyedMap?<K, T>, initial: seq<T>)
      requires backing != null ==> backing.Valid() && backing.KeyOf == keyOf
      ensures Valid() && fresh(Front)
      ensures Backing == backing && KeyOf == keyOf
      ensures Items() == PutAll(map[], keyOf, initial)
    {
      KeyOf := keyOf;
      Backing := backing;
      Front := new KeyedMap(keyOf, initial);
    }

    /** The front entry if there is one, else the backing entry, else None. */
    function Find(key: K): (r: Option<T>)
      reads Front, Backing
      ensures key in Items() ==> r == Some(Items()[key])
      ensures key !in Items() ==> r == BackingFind(key)
      ensures Valid() && r.Some? ==> KeyOf(r.value) == key
    {
      match Front.Find(key)
      case Some(item) => Some(item)
      case None => BackingFind(key)
    }

    /** Put(item): store unconditionally in the front, shadowing the backing entry. */
    method Put(item: T)
      requires Valid()
      modifies Front
      ensures Valid()
      ensures Items() == old(Items())[KeyOf(item) := item]
      ensures Find(KeyOf(item)) == Some(item)
      ensures forall k :: k != KeyOf(item) ==> Find(k) == old(Find(k))
    {
      var _ := TryPut(item, false);
    }

    /**
     * Put(item, onlyIfMissing): with onlyIfMissing, store only when the BACKING map lacks the key
     * (the front is not consulted); without it, store unconditionally. Answers whether it stored.
     */
    method TryPut(item: T, onlyIfMissing: bool) returns (stored: bool)
      requires Valid()
      modifies Front
      ensures Valid()
      ensures stored <==> !onlyIfMissing || BackingFind(KeyOf(item)).None?
      ensures Items() == if stored then old(Items())[KeyOf(item) := item] else old(Items())
      ensures stored ==> Find(KeyOf(item)) == Some(item)
      ensures forall k :: k != KeyOf(item) ==> Find(k) == old(Find(k))
    {
      if onlyIfMissing {
        var old_ := BackingFind(KeyOf(item));
        if old_.None? {
          Front.Put(item);
          stored := true;
        } else {
          stored := false;
        }
      } else {
        Front.Put(item);
        stored := true;
      }
    }
  }
}
