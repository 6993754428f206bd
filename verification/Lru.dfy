/** A least-recently-used cache: a map whose items are threaded on a circular doubly linked list. */
module Lru {
  import opened Wrappers

  // ---------- The circular list ----------

  class Elem<K> {
    var next: Elem?<K>
    var prev: Elem?<K>
    var v: K

    constructor (v: K)
      ensures this.v == v
    {
      this.v := v;
      next, prev := null, null;
    }
  }

  /** A sequence without element i, and with element i moved to the front. */
  ghost function Removed<T>(s: seq<T>, i: nat): seq<T>
    requires i < |s|
  {
    s[..i] + s[i + 1..]
  }

  ghost function Moved<T>(s: seq<T>, i: nat): seq<T>
    requires i < |s|
  {
    [s[i]] + Removed(s, i)
  }

  lemma RemovedFacts<T>(s: seq<T>, i: nat)
    requires i < |s|
    ensures |Removed(s, i)| == |s| - 1
    ensures forall j :: 0 <= j < |s| - 1 ==> Removed(s, i)[j] == s[if j < i then j else j + 1]
    ensures forall x :: x in s <==> x == s[i] || x in Removed(s, i)
  {
    assert s == s[..i] + [s[i]] + s[i + 1..];
  }

  lemma MovedFacts<T>(s: seq<T>, i: nat)
    requires i < |s|
    ensures |Moved(s, i)| == |s|
    ensures forall j :: 0 <= j < |s| ==> Moved(s, i)[j] == s[From(i, j)]
    ensures forall x :: x in s <==> x in Moved(s, i)
  {
    RemovedFacts(s, i);
  }

  /** Where element j of the sequence was before element i moved to the front. */
  ghost function From(i: nat, j: nat): nat {
    if j == 0 then i else if j <= i then j - 1 else j
  }

  /** The elements point to each other in the order of the sequence, round and round. */
  ghost predicate Linked<K>(ring: seq<Elem<K>>)
    reads ring
  {
    && |ring| >= 1
    && (forall i, j :: 0 <= i < j < |ring| ==> ring[i] != ring[j])
    && (forall i {:trigger ring[i].next} :: 0 <= i < |ring| - 1 ==> ring[i].next == ring[i + 1])
    && (forall i {:trigger ring[i].prev} :: 1 <= i < |ring| ==> ring[i].prev == ring[i - 1])
    && ring[|ring| - 1].next == ring[0]
    && ring[0].prev == ring[|ring| - 1]
  }

  /** A ring stays linked without element k when its neighbours point to each other. */
  lemma Spliced<K>(ring: seq<Elem<K>>, k: nat, ring': seq<Elem<K>>)
    requires 1 <= k < |ring| && ring' == ring[..k] + ring[k + 1..]
    requires forall i, j :: 0 <= i < j < |ring| ==> ring[i] != ring[j]
    requires forall i {:trigger ring[i].next} :: 0 <= i < |ring| - 1 && i != k - 1 && i != k ==>
               ring[i].next == ring[i + 1]
    requires forall i {:trigger ring[i].prev} :: 1 <= i < |ring| && i != k && i != k + 1 ==>
               ring[i].prev == ring[i - 1]
    requires k + 1 < |ring| ==> ring[|ring| - 1].next == ring[0] && ring[0].prev == ring[|ring| - 1]
    requires k + 1 < |ring| ==> ring[k - 1].next == ring[k + 1] && ring[k + 1].prev == ring[k - 1]
    requires k + 1 == |ring| ==> ring[k - 1].next == ring[0] && ring[0].prev == ring[k - 1]
    ensures Linked(ring') && ring[k] !in ring'
  {
    forall i | 0 <= i < |ring'| ensures ring'[i] == ring[if i < k then i else i + 1] {
    }
  }

  class LinkedList<K(0)> {
    const root: Elem<K>

    /** The elements from the front to the back. */
    ghost var nodes: seq<Elem<K>>

    ghost function Ring(): seq<Elem<K>>
      reads this
    {
      [root] + nodes
    }

    ghost predicate Valid()
      reads this, root, nodes
    {
      Linked(Ring())
    }

    constructor (zero: K)
      ensures Valid() && nodes == [] && fresh(root)
    {
      root := new Elem(zero);
      nodes := [];
      new;
      root.next := root;
      root.prev := root;
    }

    /** Makes the list empty again. */
    method Init()
      modifies this`nodes, root`next, root`prev
      ensures Valid() && nodes == []
    {
      root.next := root;
      root.prev := root;
      nodes := [];
    }

    /** The values from the front to the back. */
    ghost function Values(): (vs: seq<K>)
      reads this, nodes
      ensures |vs| == |nodes|
      ensures forall i :: 0 <= i < |vs| ==> vs[i] == nodes[i].v
    {
      seq(|nodes|, i requires 0 <= i < |nodes| reads this, nodes => nodes[i].v)
    }

    /** Puts an element that is in no list in front. */
    method PushElem(e: Elem<K>)
      requires Valid() && e !in Ring()
      modifies this`nodes, root`next, root`prev, nodes`next, nodes`prev, e`next, e`prev
      ensures Valid() && nodes == [e] + old(nodes)
    {
      ghost var ring := Ring();
      e.prev := root;
      assert root.next == ring[if |ring| == 1 then 0 else 1];
      e.next := root.next;
      root.next := e;
      e.next.prev := e;
      nodes := [e] + nodes;
      assert Ring() == [root, e] + ring[1..];
    }

    /** Takes the links of element k out of the ring; the element keeps its own. */
    method Unlink(e: Elem<K>, ghost k: nat)
      requires Valid() && k < |nodes| && nodes[k] == e
      modifies this`nodes, root`next, root`prev, nodes`next, nodes`prev
      ensures Valid() && nodes == Removed(old(nodes), k)
      ensures e !in Ring() && forall x :: x in nodes ==> x in old(nodes)
    {
      ghost var ring := Ring();
      assert ring[k + 1] == e;
      assert e.prev == ring[k] && e.next == ring[if k + 2 < |ring| then k + 2 else 0];
      e.prev.next := e.next;
      e.next.prev := e.prev;
      nodes := nodes[..k] + nodes[k + 1..];
      assert Ring() == ring[..k + 1] + ring[k + 2..];
      Spliced(ring, k + 1, Ring());
    }

    method MoveToFront(e: Elem<K>, ghost k: nat)
      requires Valid() && k < |nodes| && nodes[k] == e
      modifies this`nodes, root`next, root`prev, nodes`next, nodes`prev
      ensures Valid() && nodes == Moved(old(nodes), k)
    {
      hide Linked;
      Unlink(e, k);
      PushElem(e);
    }

    method Remove(e: Elem<K>, ghost k: nat)
      requires Valid() && k < |nodes| && nodes[k] == e
      modifies this`nodes, root`next, root`prev, nodes`next, nodes`prev
      ensures Valid() && nodes == Removed(old(nodes), k)
      ensures e !in Ring() && forall x :: x in nodes ==> x in old(nodes)
    {
      Unlink(e, k);
      e.next, e.prev := null, null;
    }

    /** The last element, or null when the list is empty. */
    method Last() returns (e: Elem?<K>)
      requires Valid()
      ensures nodes == [] ==> e == null
      ensures nodes != [] ==> e == nodes[|nodes| - 1]
    {
      ghost var ring := Ring();
      assert root.prev == ring[|ring| - 1] && ring[0] == root;
      e := root.prev;
      if e == root {
        e := null;
      }
    }

    /** Appends the values from the back to the front. */
    method AppendTo(s: seq<K>) returns (r: seq<K>)
      requires Valid()
      ensures r == s + Backwards(Values())
    {
      ghost var ring, vs := Ring(), Values();
      ghost var k := |nodes|;
      assert root.prev == ring[|ring| - 1] && ring[0] == root;
      r := s;
      var e := root.prev;
      while e != root
        invariant 0 <= k <= |nodes| && e == ring[k]
        invariant r == s + Backwards(vs[k..])
        decreases k
      {
        assert e == nodes[k - 1] && e.prev == ring[k - 1];
        r := r + [e.v];
        e := e.prev;
        k := k - 1;
        assert Backwards(vs[k..]) == Backwards(vs[k + 1..]) + [vs[k]];
      }
      assert vs[0..] == vs;
    }
  }

  /** The elements from last to first. */
  ghost function Backwards<T>(s: seq<T>): (r: seq<T>)
    ensures |r| == |s| && forall i :: 0 <= i < |s| ==> r[i] == s[|s| - 1 - i]
  {
    seq(|s|, i requires 0 <= i < |s| => s[|s| - 1 - i])
  }

  // ---------- The cache ----------

  datatype CacheItem<K, V> = CacheItem(elem: Elem<K>, value: V)

  /** The keys and values of a cache, the most recently used first. */
  type Entries<K, V> = seq<(K, V)>

  ghost predicate HasKey<K, V>(c: Entries<K, V>, k: K) {
    exists i :: 0 <= i < |c| && c[i].0 == k
  }

  /** No key is there twice. */
  ghost predicate Unique<K, V>(c: Entries<K, V>) {
    forall i, j :: 0 <= i < j < |c| ==> c[i].0 != c[j].0
  }

  /** The entries without key k. */
  ghost function Without<K, V>(c: Entries<K, V>, k: K): Entries<K, V> {
    if c == [] then [] else (if c[0].0 == k then [] else [c[0]]) + Without(c[1..], k)
  }

  /** Adding: the entry comes to the front; a new key drops the last entry when the cache is full. */
  ghost function Added<K, V>(c: Entries<K, V>, cap: nat, k: K, v: V): Entries<K, V> {
    if HasKey(c, k) then [(k, v)] + Without(c, k)
    else if |c| >= cap && c != [] then [(k, v)] + c[..|c| - 1]
    else [(k, v)] + c
  }

  lemma {:induction false} WithoutAt<K, V>(c: Entries<K, V>, i: nat)
    requires Unique(c) && i < |c|
    ensures Without(c, c[i].0) == Removed(c, i)
  {
    if i == 0 {
      WithoutNone(c[1..], c[0].0);
      assert c[..0] + c[1..] == c[1..];
    } else {
      WithoutAt(c[1..], i - 1);
      assert c[0].0 != c[i].0;
      assert [c[0]] + (c[1..][..i - 1] + c[1..][i..]) == c[..i] + c[i + 1..];
    }
  }

  lemma {:induction false} WithoutNone<K, V>(c: Entries<K, V>, k: K)
    requires !HasKey(c, k)
    ensures Without(c, k) == c
  {
    if c != [] {
      assert c[0].0 != k;
      forall i | 0 <= i < |c[1..]| ensures c[1..][i].0 != k {
        assert c[1..][i] == c[i + 1];
      }
      WithoutNone(c[1..], k);
    }
  }

  ghost predicate NoDup<T>(s: seq<T>) {
    forall i, j :: 0 <= i < j < |s| ==> s[i] != s[j]
  }

  lemma NoDupRemoved<T>(s: seq<T>, i: nat)
    requires NoDup(s) && i < |s|
    ensures NoDup(Removed(s, i)) && s[i] !in Removed(s, i)
  {
    hide Removed;
    RemovedFacts(s, i);
  }

  lemma NoDupMoved<T>(s: seq<T>, i: nat)
    requires NoDup(s) && i < |s|
    ensures NoDup(Moved(s, i))
  {
    NoDupRemoved(s, i);
  }

  lemma DropKey<K, W>(m: map<K, W>, k: K)
    requires k in m
    ensures |m - {k}| == |m| - 1
  {
    assert m.Keys == (m - {k}).Keys + {k};
  }

  /** The map has exactly the values of the list as keys, each with its list element. */
  ghost predicate Aligned<K, V>(nodes: seq<Elem<K>>, vs: seq<K>, items: map<K, CacheItem<K, V>>) {
    && |nodes| == |vs| == |items|
    && NoDup(vs)
    && (forall i :: 0 <= i < |vs| ==> vs[i] in items && items[vs[i]].elem == nodes[i])
    && (forall k :: k in items ==> k in vs)
  }

  ghost function PairUp<K, V>(vs: seq<K>, items: map<K, CacheItem<K, V>>): (c: Entries<K, V>)
    requires forall i :: 0 <= i < |vs| ==> vs[i] in items
    ensures |c| == |vs|
    ensures forall i :: 0 <= i < |vs| ==> c[i] == (vs[i], items[vs[i]].value)
  {
    seq(|vs|, i requires 0 <= i < |vs| => (vs[i], items[vs[i]].value))
  }

  lemma AlignedKeys<K, V>(nodes: seq<Elem<K>>, vs: seq<K>, items: map<K, CacheItem<K, V>>)
    requires Aligned(nodes, vs, items)
    ensures Unique(PairUp(vs, items))
    ensures forall k :: HasKey(PairUp(vs, items), k) <==> k in items
  {
    var c := PairUp(vs, items);
    forall k ensures HasKey(c, k) <==> k in items {
      if k in items {
        var i :| 0 <= i < |vs| && vs[i] == k;
        assert c[i].0 == k;
      }
    }
  }

  /** Moving one element to the front, and giving it a new value. */
  lemma AlignedMoved<K, V>(nodes: seq<Elem<K>>, vs: seq<K>, items: map<K, CacheItem<K, V>>, i: nat, v: V)
    requires Aligned(nodes, vs, items) && i < |vs|
    ensures Aligned(Moved(nodes, i), Moved(vs, i), items[vs[i] := items[vs[i]].(value := v)])
  {
    hide Moved, NoDup;
    var items' := items[vs[i] := items[vs[i]].(value := v)];
    NoDupMoved(vs, i);
    MovedFacts(nodes, i);
    MovedFacts(vs, i);
    assert items'.Keys == items.Keys && |items'| == |items|;
  }

  lemma PairsMoved<K, V>(nodes: seq<Elem<K>>, vs: seq<K>, items: map<K, CacheItem<K, V>>, i: nat, v: V)
    requires Aligned(nodes, vs, items) && i < |vs|
    ensures var items' := items[vs[i] := items[vs[i]].(value := v)];
            && (forall j :: 0 <= j < |Moved(vs, i)| ==> Moved(vs, i)[j] in items')
            && PairUp(Moved(vs, i), items') == [(vs[i], v)] + Without(PairUp(vs, items), vs[i])
  {
    hide Removed, Without, NoDup, PairUp;
    var items' := items[vs[i] := items[vs[i]].(value := v)];
    AlignedKeys(nodes, vs, items);
    NoDupRemoved(vs, i);
    WithoutAt(PairUp(vs, items), i);
    PairUpRemoved(vs, items, i);
    var rest := Removed(vs, i);
    forall j | 0 <= j < |rest| ensures rest[j] in items && rest[j] != vs[i] {
      assert rest[j] in rest;
    }
    PairUpCons(vs[i], rest, items, items');
  }

  lemma PairUpCons<K, V>(k: K, vs: seq<K>, items: map<K, CacheItem<K, V>>, items': map<K, CacheItem<K, V>>)
    requires k in items'
    requires forall j :: 0 <= j < |vs| ==> vs[j] in items && vs[j] in items' && items'[vs[j]] == items[vs[j]]
    ensures forall j :: 0 <= j < |[k] + vs| ==> ([k] + vs)[j] in items'
    ensures PairUp([k] + vs, items') == [(k, items'[k].value)] + PairUp(vs, items)
  {
    hide PairUp;
    var c' := PairUp([k] + vs, items');
    forall j | 0 <= j < |vs| ensures c'[j + 1] == PairUp(vs, items)[j] {
      assert ([k] + vs)[j + 1] == vs[j];
    }
    assert c'[0] == (k, items'[k].value);
  }

  lemma PairUpRemoved<K, V>(vs: seq<K>, items: map<K, CacheItem<K, V>>, i: nat)
    requires i < |vs|
    requires forall j :: 0 <= j < |vs| ==> vs[j] in items
    ensures forall j :: 0 <= j < |Removed(vs, i)| ==> Removed(vs, i)[j] in items
    ensures PairUp(Removed(vs, i), items) == Removed(PairUp(vs, items), i)
  {
    hide Removed, PairUp;
    RemovedFacts(vs, i);
    RemovedFacts(PairUp(vs, items), i);
  }

  /** Taking one element out. */
  lemma AlignedRemoved<K, V>(nodes: seq<Elem<K>>, vs: seq<K>, items: map<K, CacheItem<K, V>>, i: nat)
    requires Aligned(nodes, vs, items) && i < |vs|
    ensures Aligned(Removed(nodes, i), Removed(vs, i), items - {vs[i]})
  {
    hide Removed, NoDup;
    NoDupRemoved(vs, i);
    DropKey(items, vs[i]);
    RemovedFacts(nodes, i);
    RemovedFacts(vs, i);
    var rest := Removed(vs, i);
    forall j | 0 <= j < |rest| ensures rest[j] in items - {vs[i]} {
      assert rest[j] in rest;
    }
  }

  lemma PairsRemoved<K, V>(nodes: seq<Elem<K>>, vs: seq<K>, items: map<K, CacheItem<K, V>>, i: nat)
    requires Aligned(nodes, vs, items) && i < |vs|
    ensures var items' := items - {vs[i]};
            && (forall j :: 0 <= j < |Removed(vs, i)| ==> Removed(vs, i)[j] in items')
            && PairUp(Removed(vs, i), items') == Without(PairUp(vs, items), vs[i]) == Removed(PairUp(vs, items), i)
  {
    hide Removed, Without, NoDup;
    NoDupRemoved(vs, i);
    RemovedFacts(vs, i);
    AlignedKeys(nodes, vs, items);
    var c := PairUp(vs, items);
    WithoutAt(c, i);
    RemovedFacts(c, i);
    assert PairUp(Removed(vs, i), items - {vs[i]}) == Removed(c, i);
  }

  /** Putting a new element in front. */
  lemma AlignedPushed<K, V>(nodes: seq<Elem<K>>, vs: seq<K>, items: map<K, CacheItem<K, V>>, e: Elem<K>, k: K, v: V)
    requires Aligned(nodes, vs, items) && k !in items
    ensures var items' := items[k := CacheItem(e, v)];
            && Aligned([e] + nodes, [k] + vs, items')
            && PairUp([k] + vs, items') == [(k, v)] + PairUp(vs, items)
  {
    hide PairUp, NoDup;
    var items' := items[k := CacheItem(e, v)];
    assert items'.Keys == items.Keys + {k} && |items'.Keys| == |items.Keys| + 1;
    NoDupPushed(vs, k);
    PairUpCons(k, vs, items, items');
    forall j | 0 <= j < |[k] + vs| ensures items'[([k] + vs)[j]].elem == ([e] + nodes)[j] {
      assert j > 0 ==> ([k] + vs)[j] == vs[j - 1];
    }
  }

  lemma NoDupPushed<T>(s: seq<T>, x: T)
    requires NoDup(s) && x !in s
    ensures NoDup([x] + s)
  {
  }

  class BasicLRU<K(0,==), V> {
    const list: LinkedList<K>
    var items: map<K, CacheItem<K, V>>
    const cap: nat

    /** List elements and map keys coincide. */
    ghost predicate Valid()
      reads this, list, list.root, list.nodes
    {
      list.Valid() && 1 <= cap && |items| <= cap && Aligned(list.nodes, list.Values(), items)
    }

    ghost function Contents(): (c: Entries<K, V>)
      requires Valid()
      reads this, list, list.root, list.nodes
    {
      PairUp(list.Values(), items)
    }

    /** A new cache; a capacity below 1 is taken as 1. */
    constructor (capacity: int, zero: K)
      ensures Valid() && Contents() == []
      ensures cap == if capacity <= 0 then 1 else capacity
      ensures fresh(list) && fresh(list.root) && list.nodes == []
    {
      list := new LinkedList(zero);
      items := map[];
      cap := if capacity <= 0 then 1 else capacity;
    }

    lemma KeysListed()
      requires Valid()
      ensures Unique(Contents())
      ensures forall k :: HasKey(Contents(), k) <==> k in items
    {
      AlignedKeys(list.nodes, list.Values(), items);
    }

    /** Where a key of the map is in the list. */
    lemma KeyPlace(k: K) returns (i: nat)
      requires Valid() && k in items
      ensures i < |list.nodes| && list.nodes[i] == items[k].elem && list.Values()[i] == k
    {
      i :| 0 <= i < |list.Values()| && list.Values()[i] == k;
    }

    method Peek(key: K) returns (r: Option<V>)
      requires Valid()
      ensures r.Some? <==> HasKey(Contents(), key)
      ensures r.Some? ==> (key, r.value) in Contents()
    {
      KeysListed();
      if key in items {
        ghost var i := KeyPlace(key);
        assert Contents()[i] == (key, items[key].value);
        r := Some(items[key].value);
      } else {
        r := None;
      }
    }

    /** Looks a key up and makes it the most recently used one. */
    method Get(key: K) returns (r: Option<V>)
      requires Valid()
      modifies list`nodes, list.root`next, list.root`prev, list.nodes`next, list.nodes`prev
      ensures Valid()
      ensures r.Some? <==> HasKey(old(Contents()), key)
      ensures r.None? ==> Contents() == old(Contents())
      ensures r.Some? ==> (key, r.value) in old(Contents())
      ensures r.Some? ==> Contents() == [(key, r.value)] + Without(old(Contents()), key)
      ensures forall k :: 0 <= k < |list.nodes| ==> list.nodes[k] in old(list.nodes)
    {
      hide HasKey, Without, Linked, Unique, Aligned, Moved;
      KeysListed();
      if key !in items {
        return None;
      }
      ghost var i := KeyPlace(key);
      InContents(i, key);
      AlignedMoved(list.nodes, list.Values(), items, i, items[key].value);
      PairsMoved(list.nodes, list.Values(), items, i, items[key].value);
      var item := items[key];
      assert items[key := item] == items;
      ghost var nodes0, vs0 := list.nodes, list.Values();
      list.MoveToFront(item.elem, i);
      ValuesMoved(nodes0, vs0, i);
      MovedFacts(nodes0, i);
      return Some(item.value);
    }

    lemma InContents(i: nat, key: K)
      requires Valid() && i < |list.Values()| && list.Values()[i] == key
      ensures key in items && (key, items[key].value) in Contents()
    {
      assert Contents()[i] == (key, items[key].value);
    }

    lemma ValuesMoved(nodes0: seq<Elem<K>>, vs0: seq<K>, i: nat)
      requires i < |nodes0| == |vs0| && list.nodes == Moved(nodes0, i)
      requires forall j :: 0 <= j < |nodes0| ==> nodes0[j].v == vs0[j]
      ensures list.Values() == Moved(vs0, i)
    {
      hide Moved;
      MovedFacts(nodes0, i);
      MovedFacts(vs0, i);
    }

    lemma ValuesRemoved(nodes0: seq<Elem<K>>, vs0: seq<K>, i: nat)
      requires i < |nodes0| == |vs0| && list.nodes == Removed(nodes0, i)
      requires forall j :: 0 <= j < |nodes0| ==> nodes0[j].v == vs0[j]
      ensures list.Values() == Removed(vs0, i)
    {
      hide Removed;
      RemovedFacts(nodes0, i);
      RemovedFacts(vs0, i);
    }

    lemma ValuesPushed(nodes0: seq<Elem<K>>, vs0: seq<K>, e: Elem<K>)
      requires |nodes0| == |vs0| && list.nodes == [e] + nodes0
      requires forall j :: 0 <= j < |nodes0| ==> nodes0[j].v == vs0[j]
      ensures list.Values() == [e.v] + vs0
    {
    }

    /** Adds a value and makes its key the most recently used one. A new key takes the place of the
        least recently used one when the cache is full, and its list element, too. */
    method Add(key: K, value: V) returns (evicted: bool)
      requires Valid()
      modifies this`items, list`nodes, list.root`next, list.root`prev, list.nodes
      ensures Valid()
      ensures Contents() == Added(old(Contents()), cap, key, value)
      ensures HasKey(old(Contents()), key) ==> Contents() == [(key, value)] + Without(old(Contents()), key)
      ensures !HasKey(old(Contents()), key) && |old(Contents())| < cap ==>
                Contents() == [(key, value)] + old(Contents())
      ensures !HasKey(old(Contents()), key) && |old(Contents())| == cap ==>
                Contents() == [(key, value)] + old(Contents())[..cap - 1]
      ensures forall k :: 0 <= k < |list.nodes| ==> list.nodes[k] in old(list.nodes) || fresh(list.nodes[k])
      ensures evicted <==> !HasKey(old(Contents()), key) && |old(Contents())| == cap
    {
      hide HasKey, Without, Linked, Unique, Aligned, Moved, Removed, PairUp;
      KeysListed();
      if key in items {
        Refresh(key, value);
        return false;
      }
      Sizes();
      evicted := |items| >= cap;
      if evicted {
        Replace(key, value);
      } else {
        var elem := new Elem(key);
        InRing();
        Store(elem, key, value);
      }
    }

    /** A new key takes the place and the list element of the least recently used one. */
    method Replace(key: K, value: V)
      requires Valid() && key !in items && |items| >= cap
      modifies this`items, list`nodes, list.root`next, list.root`prev, list.nodes
      ensures Valid() && |old(Contents())| == cap
      ensures Contents() == [(key, value)] + old(Contents())[..|old(Contents())| - 1]
      ensures forall k :: 0 <= k < |list.nodes| ==> list.nodes[k] in old(list.nodes)
    {
      hide HasKey, Without, Linked, Unique, Aligned, Moved, Removed, PairUp;
      Sizes();
      NotEmpty(items);
      var elem := EvictLast();
      assert forall i :: 0 <= i < |list.nodes| ==> list.nodes[i] == old(list.nodes)[i];
      Store(elem, key, value);
    }

    lemma Sizes()
      requires Valid()
      ensures |Contents()| == |items| == |list.nodes| == |list.Values()|
    {
    }

    /** A key that is there gets a new value and moves to the front. */
    method Refresh(key: K, value: V)
      requires Valid() && key in items
      modifies this`items, list`nodes, list.root`next, list.root`prev, list.nodes`next, list.nodes`prev
      ensures Valid()
      ensures Contents() == [(key, value)] + Without(old(Contents()), key)
      ensures forall k :: 0 <= k < |list.nodes| ==> list.nodes[k] in old(list.nodes)
    {
      hide HasKey, Without, Linked, Unique, Aligned, Moved, PairUp;
      ghost var i := KeyPlace(key);
      AlignedMoved(list.nodes, list.Values(), items, i, value);
      PairsMoved(list.nodes, list.Values(), items, i, value);
      SameSize(items, key, items[key].(value := value));
      ghost var nodes0, vs0 := list.nodes, list.Values();
      var item := items[key].(value := value);
      items := items[key := item];
      list.MoveToFront(item.elem, i);
      ValuesMoved(nodes0, vs0, i);
      MovedFacts(nodes0, i);
    }

    /** Takes the least recently used item out and returns its list element. */
    method EvictLast() returns (elem: Elem<K>)
      requires Valid() && items != map[]
      modifies this`items, list`nodes, list.root`next, list.root`prev, list.nodes`next, list.nodes`prev
      ensures Valid() && |items| == |old(items)| - 1
      ensures Contents() == old(Contents())[..|old(Contents())| - 1]
      ensures elem in old(list.nodes) && elem !in list.Ring()
      ensures list.nodes == old(list.nodes)[..|old(list.nodes)| - 1]
      ensures items == old(items) - {elem.v} && old(list.nodes) != [] && elem == old(list.nodes)[|old(list.nodes)| - 1]
    {
      hide HasKey, Without, Linked, Unique, Aligned, Removed, PairUp;
      Sizes();
      NotEmpty(items);
      var last := list.Last();
      elem := last;
      ghost var i := |list.nodes| - 1;
      ghost var nodes0, vs0, c := list.nodes, list.Values(), Contents();
      AlignedRemoved(nodes0, vs0, items, i);
      PairsRemoved(nodes0, vs0, items, i);
      RemovedLast(c);
      RemovedLast(nodes0);
      AlignedIn(nodes0, vs0, items, i);
      DropKey(items, vs0[i]);
      list.Remove(elem, i);
      items := items - {elem.v};
      ValuesRemoved(nodes0, vs0, i);
    }

    /** Puts a new key in front, on an element that is in no list. */
    method Store(elem: Elem<K>, key: K, value: V)
      requires Valid() && key !in items && |items| < cap && elem !in list.Ring()
      modifies this`items, list`nodes, list.root`next, list.root`prev, list.nodes`next, list.nodes`prev, elem
      ensures Valid() && Contents() == [(key, value)] + old(Contents()) && list.nodes == [elem] + old(list.nodes)
    {
      hide Linked, Aligned, PairUp;
      AlignedPushed(list.nodes, list.Values(), items, elem, key, value);
      NewKey(items, key, CacheItem(elem, value));
      ghost var nodes0, vs0 := list.nodes, list.Values();
      InRing();
      elem.v := key;
      items := items[key := CacheItem(elem, value)];
      assert list.Values() == vs0;
      list.PushElem(elem);
      ValuesPushed(nodes0, vs0, elem);
    }

    lemma InRing()
      ensures forall x :: x in list.Ring() <==> x == list.root || x in list.nodes
    {
    }

    method Contains(key: K) returns (r: bool)
      requires Valid()
      ensures r <==> HasKey(Contents(), key)
    {
      KeysListed();
      r := key in items;
    }

    /** The least recently used key and its value. */
    method GetOldest() returns (r: Option<(K, V)>)
      requires Valid()
      ensures r == if Contents() == [] then None else Some(Contents()[|Contents()| - 1])
    {
      hide Linked;
      var last := list.Last();
      if last == null {
        return None;
      }
      ghost var i := |list.nodes| - 1;
      assert list.Values()[i] == last.v;
      r := Some((last.v, items[last.v].value));
    }

    /** Drops a key. */
    method Remove(key: K) returns (ok: bool)
      requires Valid()
      modifies this`items, list`nodes, list.root`next, list.root`prev, list.nodes`next, list.nodes`prev
      ensures Valid() && Contents() == Without(old(Contents()), key)
      ensures forall k :: 0 <= k < |list.nodes| ==> list.nodes[k] in old(list.nodes)
      ensures ok <==> HasKey(old(Contents()), key)
    {
      hide HasKey, Without, Linked, Unique, Aligned, Removed, PairUp;
      KeysListed();
      ok := key in items;
      if ok {
        var item := items[key];
        ghost var i := KeyPlace(key);
        ghost var nodes0, vs0 := list.nodes, list.Values();
        AlignedRemoved(nodes0, vs0, items, i);
        PairsRemoved(nodes0, vs0, items, i);
        DropKey(items, key);
        items := items - {key};
        list.Remove(item.elem, i);
        ValuesRemoved(nodes0, vs0, i);
      } else {
        WithoutNone(Contents(), key);
      }
    }

    /** Drops the least recently used item. */
    method RemoveOldest() returns (r: Option<(K, V)>)
      requires Valid()
      modifies this`items, list`nodes, list.root`next, list.root`prev, list.nodes`next, list.nodes`prev
      ensures Valid()
      ensures r == if old(Contents()) == [] then None else Some(old(Contents())[|old(Contents())| - 1])
      ensures Contents() == if old(Contents()) == [] then [] else old(Contents())[..|old(Contents())| - 1]
      ensures forall k :: 0 <= k < |list.nodes| ==> list.nodes[k] in old(list.nodes)
    {
      hide HasKey, Without, Linked, Unique, Aligned, PairUp;
      r := GetOldest();
      Sizes();
      if r.Some? {
        NotEmpty(items);
        var _ := EvictLast();
      }
    }

    method Purge()
      requires Valid()
      modifies this`items, list`nodes, list.root`next, list.root`prev
      ensures Valid() && Contents() == [] && list.nodes == []
    {
      list.Init();
      items := map[];
    }

    /** The keys, the least recently used first. */
    method Keys() returns (r: seq<K>)
      requires Valid()
      ensures |r| == |Contents()|
      ensures forall i :: 0 <= i < |r| ==> r[i] == Contents()[|r| - 1 - i].0
    {
      hide Linked;
      Sizes();
      r := list.AppendTo([]);
    }
  }

  lemma SameSize<K, W>(m: map<K, W>, k: K, w: W)
    requires k in m
    ensures |m[k := w]| == |m|
  {
    assert m[k := w].Keys == m.Keys;
  }

  lemma NewKey<K, W>(m: map<K, W>, k: K, w: W)
    requires k !in m
    ensures |m[k := w]| == |m| + 1
  {
    assert m[k := w].Keys == m.Keys + {k};
  }

  lemma NotEmpty<K, W>(m: map<K, W>)
    ensures |m| > 0 <==> m != map[]
  {
  }

  lemma RemovedLast<T>(s: seq<T>)
    requires s != []
    ensures Removed(s, |s| - 1) == s[..|s| - 1]
  {
  }

  lemma AlignedIn<K, V>(nodes: seq<Elem<K>>, vs: seq<K>, items: map<K, CacheItem<K, V>>, i: nat)
    requires Aligned(nodes, vs, items) && i < |vs|
    ensures vs[i] in items
  {
  }

  // ---------- Whole runs of additions ----------

  /** The cache after additions, the oldest first. */
  ghost function AddedAll<K, V>(cap: nat, adds: seq<(K, V)>): Entries<K, V> {
    if adds == [] then [] else
      var last := adds[|adds| - 1];
      Added(AddedAll(cap, adds[..|adds| - 1]), cap, last.0, last.1)
  }

  /** Every key ever added with its last value, the one added last first. */
  ghost function Recency<K, V>(adds: seq<(K, V)>): Entries<K, V> {
    if adds == [] then [] else
      var last := adds[|adds| - 1];
      [last] + Without(Recency(adds[..|adds| - 1]), last.0)
  }

  ghost function Take<T>(s: seq<T>, n: nat): seq<T> {
    if |s| <= n then s else s[..n]
  }

  lemma WithoutUnique<K, V>(c: Entries<K, V>, k: K)
    requires Unique(c)
    ensures Unique(Without(c, k)) && !HasKey(Without(c, k), k)
  {
    hide Without;
    if i :| 0 <= i < |c| && c[i].0 == k {
      WithoutAt(c, i);
      RemovedFacts(c, i);
    } else {
      WithoutNone(c, k);
    }
  }

  lemma {:induction false} RecencyUnique<K, V>(adds: seq<(K, V)>)
    ensures Unique(Recency(adds))
    decreases |adds|
  {
    hide Without;
    if adds != [] {
      var last := adds[|adds| - 1];
      var u := Recency(adds[..|adds| - 1]);
      RecencyUnique(adds[..|adds| - 1]);
      WithoutUnique(u, last.0);
    }
  }

  /** Entry i of the recency list is the last addition of its key, at p, and every key before it was added after
      that. */
  lemma {:induction false} RecencyMeans<K, V>(adds: seq<(K, V)>, i: nat) returns (p: nat)
    requires i < |Recency(adds)|
    ensures p < |adds| && adds[p] == Recency(adds)[i]
    ensures forall q :: p < q < |adds| ==> adds[q].0 != Recency(adds)[i].0
    ensures forall j :: 0 <= j < i ==> exists q :: p < q < |adds| && adds[q].0 == Recency(adds)[j].0
    decreases |adds|
  {
    hide Without;
    var n := |adds| - 1;
    var before, last := adds[..n], adds[n];
    var u := Recency(before);
    RecencyUnique(before);
    if i == 0 {
      p := n;
    } else {
      WithoutUnique(u, last.0);
      var at := WithoutFrom(u, last.0, i - 1);
      p := RecencyMeans(before, at);
      assert Recency(adds)[i] == u[at];
      forall j | 0 <= j < i ensures exists q :: p < q < |adds| && adds[q].0 == Recency(adds)[j].0 {
        if j == 0 {
          assert adds[n].0 == Recency(adds)[0].0;
        } else {
          var at' := WithoutFrom(u, last.0, j - 1);
          WithoutOrder(u, last.0, j - 1, i - 1, at', at);
          var q :| p < q < |before| && before[q].0 == u[at'].0;
          assert adds[q].0 == Recency(adds)[j].0;
        }
      }
    }
  }

  /** Where an entry that is left was. */
  lemma WithoutFrom<K, V>(c: Entries<K, V>, k: K, i: nat) returns (at: nat)
    requires Unique(c) && i < |Without(c, k)|
    ensures at < |c| && c[at] == Without(c, k)[i] && c[at].0 != k
  {
    hide Without;
    WithoutUnique(c, k);
    if p :| 0 <= p < |c| && c[p].0 == k {
      WithoutAt(c, p);
      RemovedFacts(c, p);
      at := if i < p then i else i + 1;
    } else {
      WithoutNone(c, k);
      at := i;
    }
  }

  lemma WithoutOrder<K, V>(c: Entries<K, V>, k: K, j: nat, i: nat, at': nat, at: nat)
    requires Unique(c) && j < i < |Without(c, k)| && at' < |c| && at < |c|
    requires c[at'] == Without(c, k)[j] && c[at] == Without(c, k)[i]
    ensures at' < at
  {
    hide Without;
    if p :| 0 <= p < |c| && c[p].0 == k {
      WithoutAt(c, p);
      RemovedFacts(c, p);
    } else {
      WithoutNone(c, k);
    }
  }

  /** Every key that was added is in the recency list, and no other. */
  lemma {:induction false} RecencyKeys<K, V>(adds: seq<(K, V)>, k: K)
    ensures HasKey(Recency(adds), k) <==> exists p :: 0 <= p < |adds| && adds[p].0 == k
    decreases |adds|
  {
    hide Without;
    if adds != [] {
      var n := |adds| - 1;
      var before, last := adds[..n], adds[n];
      var u := Recency(before);
      RecencyKeys(before, k);
      RecencyUnique(before);
      if last.0 == k {
        assert Recency(adds)[0].0 == k;
      } else {
        WithoutKeeps(u, last.0, k);
        ConsKey(last, Without(u, last.0), k);
        if p :| 0 <= p < |adds| && adds[p].0 == k {
          assert before[p].0 == k;
        }
        if p :| 0 <= p < |before| && before[p].0 == k {
          assert adds[p].0 == k;
        }
      }
    }
  }

  lemma WithoutKeeps<K, V>(c: Entries<K, V>, l: K, k: K)
    requires Unique(c) && l != k
    ensures HasKey(Without(c, l), k) <==> HasKey(c, k)
  {
    hide Without;
    if p :| 0 <= p < |c| && c[p].0 == l {
      WithoutAt(c, p);
      RemovedFacts(c, p);
      if i :| 0 <= i < |c| && c[i].0 == k {
        assert Removed(c, p)[if i < p then i else i - 1] == c[i];
      }
    } else {
      WithoutNone(c, l);
    }
  }

  lemma ConsKey<K, V>(e: (K, V), c: Entries<K, V>, k: K)
    requires e.0 != k
    ensures HasKey([e] + c, k) <==> HasKey(c, k)
  {
    if i :| 0 <= i < |c| && c[i].0 == k {
      assert ([e] + c)[i + 1].0 == k;
    }
  }

  /** One addition to the first cap entries of a recency list. */
  lemma AddedToTake<K, V>(u: Entries<K, V>, cap: nat, k: K, v: V)
    requires Unique(u) && cap >= 1
    ensures Added(Take(u, cap), cap, k, v) == Take([(k, v)] + Without(u, k), cap)
  {
    hide Without, Removed;
    var c := Take(u, cap);
    if i :| 0 <= i < |u| && u[i].0 == k {
      WithoutAt(u, i);
      RemovedFacts(u, i);
      if i < |c| {
        assert c[i].0 == k;
        WithoutAt(c, i);
        RemovedFacts(c, i);
        assert Added(c, cap, k, v) == [(k, v)] + Removed(c, i);
        assert [(k, v)] + Removed(c, i) == Take([(k, v)] + Removed(u, i), cap);
      } else {
        assert !HasKey(c, k);
        assert [(k, v)] + c[..|c| - 1] == Take([(k, v)] + Removed(u, i), cap);
      }
    } else {
      WithoutNone(u, k);
      assert !HasKey(c, k);
    }
  }

  /** After any additions the cache holds the cap keys added most recently, in that order, each with
      the value it was added with last. */
  lemma {:induction false} CacheIsMostRecent<K, V>(cap: nat, adds: seq<(K, V)>)
    requires cap >= 1
    ensures AddedAll(cap, adds) == Take(Recency(adds), cap)
    decreases |adds|
  {
    hide Without, Added, Take;
    if adds != [] {
      var before, last := adds[..|adds| - 1], adds[|adds| - 1];
      CacheIsMostRecent(cap, before);
      RecencyUnique(before);
      AddedToTake(Recency(before), cap, last.0, last.1);
    } else {
      TakeNone<(K, V)>(cap);
    }
  }

  lemma TakeNone<T>(n: nat)
    ensures Take<T>([], n) == []
  {
  }

  // ---------- Whole runs of any operations ----------

  /** One thing a caller does with a cache. */
  datatype Use<K, V> = Put(key: K, value: V) | Look(key: K) | Drop(key: K) | DropOldest | Clear

  ghost function ValueOf<K, V>(c: Entries<K, V>, k: K): (v: V)
    requires HasKey(c, k)
    ensures (k, v) in c
  {
    var i :| 0 <= i < |c| && c[i].0 == k; c[i].1
  }

  ghost function Used<K, V>(c: Entries<K, V>, cap: nat, u: Use<K, V>): Entries<K, V> {
    match u
    case Put(k, v) => Added(c, cap, k, v)
    case Look(k) => if HasKey(c, k) then [(k, ValueOf(c, k))] + Without(c, k) else c
    case Drop(k) => Without(c, k)
    case DropOldest => if c == [] then [] else c[..|c| - 1]
    case Clear => []
  }

  /** The cache after the operations. */
  ghost function UsedAll<K, V>(cap: nat, us: seq<Use<K, V>>): Entries<K, V> {
    if us == [] then [] else Used(UsedAll(cap, us[..|us| - 1]), cap, us[|us| - 1])
  }

  lemma OneValue<K, V>(c: Entries<K, V>, k: K, v: V)
    requires Unique(c) && (k, v) in c
    ensures HasKey(c, k) && ValueOf(c, k) == v
  {
    var i :| 0 <= i < |c| && c[i] == (k, v);
    assert c[i].0 == k;
  }

  /** A cache is after any operations what they leave, applied one after the other. */
  method RunCache<K(==, 0, !new), V>(capacity: int, zero: K, us: seq<Use<K, V>>) returns (c: BasicLRU<K, V>)
    ensures c.Valid() && c.cap == (if capacity <= 0 then 1 else capacity) && c.Contents() == UsedAll(c.cap, us)
  {
    hide Used, Linked, Aligned, PairUp;
    c := new BasicLRU(capacity, zero);
    assert us[..|us|] == us;
    for i := 0 to |us|
      invariant c.Valid() && c.Contents() == UsedAll(c.cap, us[..i])
      invariant forall k :: 0 <= k < |c.list.nodes| ==> fresh(c.list.nodes[k])
    {
      assert us[..i + 1][..i] == us[..i];
      UseCache(c, us[i]);
    }
  }

  method UseCache<K(==, 0, !new), V>(c: BasicLRU<K, V>, u: Use<K, V>)
    requires c.Valid()
    modifies c`items, c.list`nodes, c.list.root`next, c.list.root`prev, c.list.nodes
    ensures c.Valid() && c.Contents() == Used(old(c.Contents()), c.cap, u)
    ensures forall k :: 0 <= k < |c.list.nodes| ==> c.list.nodes[k] in old(c.list.nodes) || fresh(c.list.nodes[k])
  {
    hide Added, Without, Linked, Unique, Aligned, PairUp, HasKey;
    match u {
      case Put(k, v) =>
        var _ := c.Add(k, v);
      case Look(k) =>
        c.KeysListed();
        ghost var before := c.Contents();
        var r := c.Get(k);
        if r.Some? {
          OneValue(before, k, r.value);
        }
      case Drop(k) =>
        var _ := c.Remove(k);
      case DropOldest =>
        var _ := c.RemoveOldest();
      case Clear =>
        c.Purge();
    }
  }

  /** After any additions the cache object holds the cap keys added most recently. */
  method AddAll<K(==, 0, !new), V>(capacity: int, zero: K, adds: seq<(K, V)>) returns (c: BasicLRU<K, V>)
    ensures c.Valid() && c.cap == (if capacity <= 0 then 1 else capacity) && c.Contents() == Take(Recency(adds), c.cap)
  {
    hide Added, Without, Linked, Unique, Aligned, PairUp, Recency, Take;
    c := new BasicLRU(capacity, zero);
    assert adds[..|adds|] == adds;
    for i := 0 to |adds|
      invariant c.Valid() && c.Contents() == AddedAll(c.cap, adds[..i])
      invariant forall k :: 0 <= k < |c.list.nodes| ==> fresh(c.list.nodes[k])
    {
      assert adds[..i + 1][..i] == adds[..i];
      var _ := c.Add(adds[i].0, adds[i].1);
    }
    CacheIsMostRecent(c.cap, adds);
  }

  /** The last operation that put or looked up the key, counted from 1; 0 if there is none. */
  ghost function LastUse<K, V>(us: seq<Use<K, V>>, k: K): nat {
    if us == [] then 0 else
      var u := us[|us| - 1];
      if (u.Put? || u.Look?) && u.key == k then |us| else LastUse(us[..|us| - 1], k)
  }

  /** Key k was last put with value v, and neither it nor everything has been dropped since. */
  ghost predicate Current<K, V>(us: seq<Use<K, V>>, k: K, v: V) {
    us != [] &&
    var u := us[|us| - 1];
    || u == Put(k, v)
    || (!u.Clear? && !(u.Put? && u.key == k) && !(u.Drop? && u.key == k) && Current(us[..|us| - 1], k, v))
  }

  /** The entries are in the order of their last use, the latest first, each with its current value. */
  ghost predicate InOrder<K, V>(c: Entries<K, V>, us: seq<Use<K, V>>) {
    && (forall i :: 0 <= i < |c| ==> Current(us, c[i].0, c[i].1) && LastUse(us, c[i].0) >= 1)
    && (forall i, j :: 0 <= i < j < |c| ==> LastUse(us, c[i].0) > LastUse(us, c[j].0))
  }

  /** After any operations the cache holds at most cap entries, no key twice, each with its current value, in the order
      of last use. So what an addition drops from a full cache is the key that has not been used for longest. */
  lemma {:induction false} CacheInOrder<K, V>(cap: nat, us: seq<Use<K, V>>)
    requires cap >= 1
    ensures |UsedAll(cap, us)| <= cap && Unique(UsedAll(cap, us)) && InOrder(UsedAll(cap, us), us)
    decreases |us|
  {
    if us != [] {
      CacheInOrder(cap, us[..|us| - 1]);
      UseKeepsOrder(UsedAll(cap, us[..|us| - 1]), cap, us);
    }
  }

  /** Entries taken from a cache in order stay in order when the last operation is about another key. */
  lemma StaysInOrder<K, V>(c: Entries<K, V>, us: seq<Use<K, V>>, c': Entries<K, V>, at: seq<nat>)
    requires us != [] && InOrder(c, us[..|us| - 1]) && |at| == |c'|
    requires forall i :: 0 <= i < |c'| ==> at[i] < |c| && c'[i] == c[at[i]]
    requires forall i, j :: 0 <= i < j < |at| ==> at[i] < at[j]
    requires var u := us[|us| - 1];
      !u.Clear? && forall i :: 0 <= i < |c'| ==> !((u.Put? || u.Look? || u.Drop?) && u.key == c'[i].0)
    ensures InOrder(c', us)
  {
    forall i | 0 <= i < |c'| ensures LastUse(us, c'[i].0) == LastUse(us[..|us| - 1], c'[i].0) {
    }
  }

  /** The entries without the key that the last operation is about. */
  lemma RestInOrder<K, V>(c: Entries<K, V>, us: seq<Use<K, V>>, k: K)
    requires us != [] && Unique(c) && InOrder(c, us[..|us| - 1])
    requires var u := us[|us| - 1]; (u.Put? || u.Look? || u.Drop?) && u.key == k
    ensures InOrder(Without(c, k), us) && Unique(Without(c, k)) && !HasKey(Without(c, k), k)
    ensures |Without(c, k)| == if HasKey(c, k) then |c| - 1 else |c|
  {
    hide InOrder, Without;
    WithoutUnique(c, k);
    if i :| 0 <= i < |c| && c[i].0 == k {
      WithoutAt(c, i);
      RemovedFacts(c, i);
      StaysInOrder(c, us, Removed(c, i), seq(|c| - 1, j => if j < i then j else j + 1));
    } else {
      WithoutNone(c, k);
      StaysInOrder(c, us, c, seq(|c|, j => j));
    }
  }

  /** All but the last entry, when the last operation is about a key that is not there, or about none. */
  lemma FirstInOrder<K, V>(c: Entries<K, V>, us: seq<Use<K, V>>, n: nat)
    requires us != [] && Unique(c) && InOrder(c, us[..|us| - 1]) && n <= |c|
    requires var u := us[|us| - 1]; u.DropOldest? || (u.Put? && !HasKey(c, u.key))
    ensures InOrder(c[..n], us) && Unique(c[..n]) && (us[|us| - 1].Put? ==> !HasKey(c[..n], us[|us| - 1].key))
  {
    hide InOrder;
    forall i | 0 <= i < n ensures c[..n][i] == c[i] {
    }
    StaysInOrder(c, us, c[..n], seq(n, j => j));
  }

  lemma {:induction false} LastUseBound<K, V>(us: seq<Use<K, V>>, k: K)
    ensures LastUse(us, k) <= |us|
  {
    if us != [] {
      LastUseBound(us[..|us| - 1], k);
    }
  }

  lemma Fronted<K, V>(us: seq<Use<K, V>>, rest: Entries<K, V>, k: K, v: V)
    requires us != [] && InOrder(rest, us) && Unique(rest) && !HasKey(rest, k) && Current(us, k, v)
    requires var u := us[|us| - 1]; (u.Put? || u.Look?) && u.key == k
    ensures InOrder([(k, v)] + rest, us) && Unique([(k, v)] + rest)
  {
    hide Current;
    forall i | 0 <= i < |rest| ensures LastUse(us, rest[i].0) < |us| && rest[i].0 != k {
      LastUseBound(us[..|us| - 1], rest[i].0);
    }
  }

  lemma UseKeepsOrder<K, V>(c: Entries<K, V>, cap: nat, us: seq<Use<K, V>>)
    requires us != [] && cap >= 1 && |c| <= cap && Unique(c) && InOrder(c, us[..|us| - 1])
    ensures var r := Used(c, cap, us[|us| - 1]); |r| <= cap && Unique(r) && InOrder(r, us)
  {
    hide Without, Unique, HasKey, InOrder;
    var u := us[|us| - 1];
    match u {
      case Put(k, v) =>
        if HasKey(c, k) {
          RestInOrder(c, us, k);
          Fronted(us, Without(c, k), k, v);
        } else {
          var n := if |c| >= cap then |c| - 1 else |c|;
          FirstInOrder(c, us, n);
          assert c[..|c|] == c;
          Fronted(us, c[..n], k, v);
        }
      case Look(k) =>
        RestInOrder(c, us, k);
        if HasKey(c, k) {
          StaysCurrent(c, us, k);
          Fronted(us, Without(c, k), k, ValueOf(c, k));
        } else {
          WithoutNone(c, k);
        }
      case Drop(k) =>
        RestInOrder(c, us, k);
      case DropOldest =>
        FirstInOrder(c, us, if c == [] then 0 else |c| - 1);
      case Clear =>
        NoneInOrder(us);
    }
  }

  lemma StaysCurrent<K, V>(c: Entries<K, V>, us: seq<Use<K, V>>, k: K)
    requires us != [] && InOrder(c, us[..|us| - 1]) && HasKey(c, k) && us[|us| - 1].Look?
    ensures Current(us, k, ValueOf(c, k))
  {
    var i :| 0 <= i < |c| && c[i] == (k, ValueOf(c, k));
  }

  lemma NoneInOrder<K, V>(us: seq<Use<K, V>>)
    ensures InOrder([], us) && Unique<K, V>([])
  {
  }
}
