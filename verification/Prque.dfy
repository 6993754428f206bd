/**
 * The priority queue: a stack kept in blocks of 4096 places, ordered as a heap, that reports to a
 * callback where each value lies.
 */
module Prque {
  import opened Heap
  import opened Wrappers

  const BLOCK_SIZE: nat := 4096

  datatype Item<V> = Item(value: V, priority: real)

  /** How an index is passed on: as it is, or as an index of one of the lazy queue's two stacks. */
  datatype Numbering = Plain | Even | Odd

  function Renumber(n: Numbering, index: int): int {
    match n
    case Plain => index
    case Even => if index == -1 then -1 else index + index
    case Odd => index + index + 1
  }

  /** The last index reported for a value; -1 when it is not in a queue. */
  function At<V>(table: map<V, int>, v: V): int {
    if v in table then table[v] else -1
  }

  /** What the user of the callback has recorded. */
  class Index<V(==)> {
    var table: map<V, int>

    constructor ()
      ensures table == map[]
    {
      table := map[];
    }
  }

  // ---------- Sequences of items ----------

  ghost function Keys<V>(s: seq<Item<V>>): (ks: seq<real>)
    ensures |ks| == |s|
    ensures forall i :: 0 <= i < |s| ==> ks[i] == -s[i].priority
  {
    seq(|s|, i requires 0 <= i < |s| => -s[i].priority)
  }

  ghost predicate Has<V>(s: seq<Item<V>>, v: V) {
    exists i :: 0 <= i < |s| && s[i].value == v
  }

  /** Every value's last reported index is its place. */
  ghost predicate Located<V>(s: seq<Item<V>>, table: map<V, int>, n: Numbering) {
    forall i :: 0 <= i < |s| ==> At(table, s[i].value) == Renumber(n, i)
  }

  ghost predicate SameElsewhere<V(!new)>(s: seq<Item<V>>, a: map<V, int>, b: map<V, int>) {
    forall v :: !Has(s, v) ==> At(a, v) == At(b, v)
  }

  /** The same items in another order, with no other value's index touched. */
  ghost predicate Rearranged<V(!new)>(s: seq<Item<V>>, a: map<V, int>, t: seq<Item<V>>, b: map<V, int>) {
    |s| == |t| && multiset(s) == multiset(t) && SameElsewhere(s, a, b)
  }

  lemma RearrangedTransitive<V(!new)>(s: seq<Item<V>>, a: map<V, int>, t: seq<Item<V>>, b: map<V, int>,
                                      u: seq<Item<V>>, c: map<V, int>)
    requires Rearranged(s, a, t, b) && Rearranged(t, b, u, c)
    ensures Rearranged(s, a, u, c)
  {
    forall v | !Has(s, v) ensures At(a, v) == At(c, v) {
      HasMultiset(s, t, v);
    }
  }

  lemma RearrangedSelf<V(!new)>(s: seq<Item<V>>, a: map<V, int>)
    ensures Rearranged(s, a, s, a)
  {
  }

  lemma RearrangedLength<V(!new)>(s: seq<Item<V>>, a: map<V, int>, t: seq<Item<V>>, b: map<V, int>)
    requires Rearranged(s, a, t, b)
    ensures |s| == |t|
  {
  }

  lemma SwappedRest<V>(s: seq<Item<V>>, i: nat, j: nat, n: nat)
    requires i < n <= |s| && j < n
    ensures Swapped(s, i, j)[n..] == s[n..]
  {
  }

  lemma HasMultiset<V>(s: seq<Item<V>>, t: seq<Item<V>>, v: V)
    requires multiset(s) == multiset(t)
    ensures Has(s, v) == Has(t, v)
  {
    HasMember(s, v);
    HasMember(t, v);
    assert forall x :: x in multiset(s) <==> x in multiset(t);
  }

  lemma HasMember<V>(s: seq<Item<V>>, v: V)
    ensures Has(s, v) <==> exists x :: x in multiset(s) && x.value == v
  {
    if Has(s, v) {
      var i :| 0 <= i < |s| && s[i].value == v;
      assert s[i] in multiset(s);
    }
    if x :| x in multiset(s) && x.value == v {
      assert x in s;
    }
  }

  lemma KeysSwapped<V>(s: seq<Item<V>>, i: nat, j: nat)
    requires i < |s| && j < |s|
    ensures Keys(Swapped(s, i, j)) == Swapped(Keys(s), i, j)
  {
  }

  /** Located values are all different. */
  lemma LocatedDistinct<V>(s: seq<Item<V>>, table: map<V, int>, n: Numbering, i: nat, j: nat)
    requires Located(s, table, n) && i < |s| && j < |s| && s[i].value == s[j].value
    ensures i == j
  {
  }

  lemma LocatedSwapped<V(!new)>(s: seq<Item<V>>, table: map<V, int>, n: Numbering, i: nat, j: nat)
    requires Located(s, table, n) && i < |s| && j < |s|
    ensures var table' := table[s[j].value := Renumber(n, i)][s[i].value := Renumber(n, j)];
            Located(Swapped(s, i, j), table', n) && SameElsewhere(s, table, table')
  {
    var table' := table[s[j].value := Renumber(n, i)][s[i].value := Renumber(n, j)];
    forall k | 0 <= k < |s| ensures At(table', Swapped(s, i, j)[k].value) == Renumber(n, k) {
      if k != i && s[k].value == s[i].value { LocatedDistinct(s, table, n, k, i); }
      if k != j && s[k].value == s[j].value { LocatedDistinct(s, table, n, k, j); }
      if s[i].value == s[j].value { LocatedDistinct(s, table, n, i, j); }
    }
  }

  lemma LocatedPushed<V(!new)>(s: seq<Item<V>>, table: map<V, int>, n: Numbering, it: Item<V>)
    requires Located(s, table, n) && !Has(s, it.value)
    ensures var table' := table[it.value := Renumber(n, |s|)];
            Located(s + [it], table', n) && SameElsewhere(s + [it], table, table')
  {
    var t := s + [it];
    assert t[|s|] == it;
  }

  lemma LocatedPopped<V(!new)>(s: seq<Item<V>>, table: map<V, int>, n: Numbering)
    requires Located(s, table, n) && |s| > 0
    ensures var v := s[|s| - 1].value;
            Located(s[..|s| - 1], table[v := Renumber(n, -1)], n) && Renumber(n, -1) == -1
  {
    assert forall i :: 0 <= i < |s| - 1 ==> s[i].value != s[|s| - 1].value;
  }

  // ---------- The blocked stack ----------

  class SStack<V(==, !new)> {
    const index: Index?<V>
    const numbering: Numbering
    var size: nat
    var capacity: nat
    var offset: int
    var blocks: seq<array<Option<Item<V>>>>
    var active: array<Option<Item<V>>>
    /** The stack as one sequence. */
    ghost var items: seq<Item<V>>

    ghost predicate Valid()
      reads this, blocks
    {
      && Shaped()
      && size == |items|
      && forall i :: 0 <= i < size ==> Place(i) == Some(items[i])
    }

    /** The active block and offset are where the next item goes, or just past a full block. */
    ghost predicate Shaped()
      reads this
    {
      && |blocks| > 0 && capacity == |blocks| * BLOCK_SIZE && size <= capacity
      && (forall i :: 0 <= i < |blocks| ==> blocks[i].Length == BLOCK_SIZE)
      && (forall i, j :: 0 <= i < j < |blocks| ==> blocks[i] != blocks[j])
      && (|| (offset == size % BLOCK_SIZE && size < capacity && active == blocks[size / BLOCK_SIZE])
          || (offset == BLOCK_SIZE && size > 0 && size % BLOCK_SIZE == 0 && active == blocks[size / BLOCK_SIZE - 1]))
    }

    ghost function Place(i: nat): Option<Item<V>>
      requires Shaped() && i < capacity
      reads this, blocks
    {
      blocks[i / BLOCK_SIZE][i % BLOCK_SIZE]
    }

    /** The callback knows where every value is. */
    ghost predicate Tracked()
      reads this, index
    {
      index != null ==> Located(items, index.table, numbering)
    }

    ghost function Table(): map<V, int>
      reads index
    {
      if index == null then map[] else index.table
    }

    ghost predicate Ordered()
      reads this
    {
      IsHeap(Keys(items), |items|)
    }

    constructor (index: Index?<V>, numbering: Numbering)
      ensures Valid() && Tracked() && Ordered() && items == [] && fresh(blocks)
      ensures this.index == index && this.numbering == numbering
    {
      this.index := index;
      this.numbering := numbering;
      active := new Option<Item<V>>[BLOCK_SIZE](_ => None);
      size, offset, capacity, items := 0, 0, BLOCK_SIZE, [];
      new;
      blocks := [active];
    }

    method Report(v: V, i: int)
      modifies index
      ensures index != null ==> index.table == old(index.table)[v := Renumber(numbering, i)]
    {
      if index != null {
        index.table := index.table[v := Renumber(numbering, i)];
      }
    }

    method Push(it: Item<V>)
      requires Valid() && Tracked() && (index != null ==> !Has(items, it.value))
      modifies this, blocks, index
      ensures Valid() && Tracked() && items == old(items) + [it]
      ensures forall i :: 0 <= i < |blocks| ==> blocks[i] in old(blocks) || fresh(blocks[i])
      ensures SameElsewhere(items, old(Table()), Table())
    {
      Grow();
      assert active in blocks;
      Report(it.value, size);
      Put(it);
      if index != null {
        LocatedPushed(old(items), old(index.table), numbering, it);
      }
    }

    method Put(it: Item<V>)
      requires Valid() && size < capacity && offset == size % BLOCK_SIZE
      modifies this, active
      ensures Valid() && items == old(items) + [it] && blocks == old(blocks)
    {
      active[offset] := Some(it);
      offset := offset + 1;
      size := size + 1;
      items := items + [it];
    }

    method Grow()
      requires Valid()
      modifies this
      ensures Valid() && items == old(items) && size < capacity && offset == size % BLOCK_SIZE
      ensures forall i :: 0 <= i < |blocks| ==> blocks[i] in old(blocks) || fresh(blocks[i])
    {
      if size == capacity {
        active := new Option<Item<V>>[BLOCK_SIZE](_ => None);
        blocks := blocks + [active];
        capacity := capacity + BLOCK_SIZE;
        offset := 0;
      } else if offset == BLOCK_SIZE {
        active := blocks[size / BLOCK_SIZE];
        offset := 0;
      }
    }

    method Pop() returns (it: Item<V>)
      requires Valid() && Tracked() && |items| > 0
      modifies this, blocks, index
      ensures Valid() && Tracked() && blocks == old(blocks)
      ensures it == old(items)[|old(items)| - 1] && items == old(items)[..|old(items)| - 1]
      ensures index != null ==> index.table == old(index.table)[it.value := -1]
    {
      it := Take();
      Report(it.value, -1);
      if index != null {
        LocatedPopped(old(items), old(index.table), numbering);
      }
    }

    method Take() returns (it: Item<V>)
      requires Valid() && |items| > 0
      modifies this, blocks
      ensures Valid() && blocks == old(blocks)
      ensures it == old(items)[|old(items)| - 1] && items == old(items)[..|old(items)| - 1]
    {
      assert Place(size - 1) == Some(items[size - 1]);
      size := size - 1;
      offset := offset - 1;
      if offset < 0 {
        offset := BLOCK_SIZE - 1;
        active := blocks[size / BLOCK_SIZE];
      }
      it := active[offset].value;
      active[offset] := None;
      items := items[..size];
    }

    function Get(i: nat): (it: Item<V>)
      requires Valid() && i < |items|
      reads this, blocks
      ensures it == items[i]
    {
      assert Place(i) == Some(items[i]);
      blocks[i / BLOCK_SIZE][i % BLOCK_SIZE].value
    }

    method Set(i: nat, it: Item<V>)
      requires Valid() && i < |items|
      modifies this, blocks
      ensures Valid() && blocks == old(blocks) && items == old(items)[i := it]
    {
      blocks[i / BLOCK_SIZE][i % BLOCK_SIZE] := Some(it);
      items := items[i := it];
    }

    predicate Less(i: nat, j: nat)
      requires Valid() && i < |items| && j < |items|
      reads this, blocks
      ensures Less(i, j) <==> Keys(items)[i] < Keys(items)[j]
    {
      Get(i).priority > Get(j).priority
    }

    method Swap(i: nat, j: nat)
      requires Valid() && Tracked() && i < |items| && j < |items|
      modifies this, blocks, index
      ensures Valid() && Tracked() && blocks == old(blocks) && items == Swapped(old(items), i, j)
      ensures Rearranged(old(items), old(Table()), items, Table())
    {
      hide SStack.Valid, SStack.Get, Located;
      var a := Get(j);
      var b := Get(i);
      Report(a.value, i);
      Report(b.value, j);
      Set(i, a);
      Set(j, b);
      SwappedMultiset(old(items), i, j);
      if index != null {
        LocatedSwapped(old(items), old(index.table), numbering, i, j);
      }
    }
  }

  // ---------- The heap on top of it ----------

  /** Moves the item at j0 up, among the first n, until its parent does not come after it. */
  method Up<V(==, !new)>(s: SStack<V>, j0: nat, ghost n: nat)
    requires s.Valid() && s.Tracked() && j0 < n <= |s.items| && UpOk(Keys(s.items), n, j0)
    modifies s, s.blocks, s.index
    ensures s.Valid() && s.Tracked() && s.blocks == old(s.blocks)
    ensures Rearranged(old(s.items), old(s.Table()), s.items, s.Table())
    ensures IsHeap(Keys(s.items), n) && s.items[n..] == old(s.items)[n..]
  {
    hide SStack.Valid, SStack.Shaped, Located, SameElsewhere, Rearranged, UpOk, Swapped;
    RearrangedSelf(s.items, s.Table());
    var j: nat := j0;
    while true
      invariant s.Valid() && s.Tracked() && s.blocks == old(s.blocks) && j < n <= |s.items|
      invariant Rearranged(old(s.items), old(s.Table()), s.items, s.Table())
      invariant UpOk(Keys(s.items), n, j) && s.items[n..] == old(s.items)[n..]
      decreases j
    {
      if j == 0 { break; }
      var i: nat := (j - 1) / 2;
      if !s.Less(j, i) { break; }
      ghost var items, table := s.items, s.Table();
      UpStep(Keys(items), n, j);
      KeysSwapped(items, i, j);
      s.Swap(i, j);
      RearrangedTransitive(old(s.items), old(s.Table()), items, table, s.items, s.Table());
      SwappedRest(items, i, j, n);
      j := i;
    }
    UpDone(Keys(s.items), n, j);
  }

  /** Moves the item at i0 down, among the first n, until no child comes before it. */
  method Down<V(==, !new)>(s: SStack<V>, i0: nat, n: nat) returns (moved: bool)
    requires s.Valid() && s.Tracked() && i0 <= n <= |s.items| && Hole(Keys(s.items), n, i0)
    modifies s, s.blocks, s.index
    ensures s.Valid() && s.Tracked() && s.blocks == old(s.blocks)
    ensures Rearranged(old(s.items), old(s.Table()), s.items, s.Table()) && s.items[n..] == old(s.items)[n..]
    ensures moved ==> IsHeap(Keys(s.items), n)
    ensures !moved ==> s.items == old(s.items) && UpOk(Keys(s.items), n, i0)
  {
    hide SStack.Valid, SStack.Shaped, Located, SameElsewhere, Rearranged, Hole, UpOk, SmallerChild, Swapped;
    RearrangedSelf(s.items, s.Table());
    var i: nat := i0;
    while 2 * i + 1 < n
      invariant s.Valid() && s.Tracked() && s.blocks == old(s.blocks) && i0 <= i <= n <= |s.items|
      invariant Rearranged(old(s.items), old(s.Table()), s.items, s.Table()) && s.items[n..] == old(s.items)[n..]
      invariant Hole(Keys(s.items), n, i) && (i == i0 ==> s.items == old(s.items))
      invariant i0 < i < n ==> Keys(s.items)[Parent(i)] <= Keys(s.items)[i]
      decreases n - i
    {
      var j := SmallestChild(s, i, n);
      if !s.Less(j, i) { break; }
      ghost var items, table := s.items, s.Table();
      DownStep(Keys(items), n, i, j);
      KeysSwapped(items, i, j);
      s.Swap(i, j);
      RearrangedTransitive(old(s.items), old(s.Table()), items, table, s.items, s.Table());
      SwappedRest(items, i, j, n);
      i := j;
    }
    DownDone(Keys(s.items), n, i);
    moved := i > i0;
    if moved { UpDone(Keys(s.items), n, i); }
  }

  method SmallestChild<V(==, !new)>(s: SStack<V>, i: nat, n: nat) returns (j: nat)
    requires s.Valid() && 2 * i + 1 < n <= |s.items|
    ensures SmallerChild(Keys(s.items), n, i, j)
  {
    j := 2 * i + 1;
    if j + 1 < n && !s.Less(j, j + 1) {
      j := j + 1;
    }
  }

  /** No item of s comes before it. */
  ghost predicate Greatest<V>(s: seq<Item<V>>, it: Item<V>) {
    forall i :: 0 <= i < |s| ==> s[i].priority <= it.priority
  }

  lemma RootIsGreatest<V>(s: seq<Item<V>>)
    requires |s| > 0 && IsHeap(Keys(s), |s|)
    ensures Greatest(s, s[0])
  {
    forall i | 0 <= i < |s| ensures s[i].priority <= s[0].priority {
      RootIsLeast(Keys(s), |s|, i);
    }
  }

  /** t is s with one more item. */
  ghost predicate OneMore<V>(s: seq<Item<V>>, it: Item<V>, t: seq<Item<V>>) {
    multiset(t) == multiset(s) + multiset{it}
  }

  lemma PushedFrame<V(!new)
    >(s: seq<Item<V>>, a: map<V, int>, it: Item<V>, b: map<V, int>, t: seq<Item<V>>, c: map<V, int>)
    requires SameElsewhere(s + [it], a, b) && Rearranged(s + [it], b, t, c)
    ensures OneMore(s, it, t) && SameElsewhere(t, a, c) && |t| == |s| + 1
  {
    forall v | !Has(t, v) ensures At(a, v) == At(c, v) {
      HasMultiset(s + [it], t, v);
    }
  }

  lemma PoppedFrame<V(!new)>(s: seq<Item<V>>, a: map<V, int>, t: seq<Item<V>>, b: map<V, int>, n: nat)
    requires |s| == n + 1 && Rearranged(s, a, t, b)
    ensures OneMore(t[..n], t[n], s) && SameElsewhere(s, a, b) && SameElsewhere(s, a, b[t[n].value := -1])
  {
    assert t == t[..n] + [t[n]];
    assert Has(t, t[n].value);
    HasMultiset(s, t, t[n].value);
  }

  method HeapPush<V(==, !new)>(s: SStack<V>, it: Item<V>)
    requires s.Valid() && s.Tracked() && s.Ordered() && (s.index != null ==> !Has(s.items, it.value))
    modifies s, s.blocks, s.index
    ensures s.Valid() && s.Tracked() && s.Ordered()
    ensures forall i :: 0 <= i < |s.blocks| ==> s.blocks[i] in old(s.blocks) || fresh(s.blocks[i])
    ensures OneMore(old(s.items), it, s.items) && |s.items| == |old(s.items)| + 1
    ensures SameElsewhere(s.items, old(s.Table()), s.Table())
  {
    hide SStack.Valid, SStack.Shaped, Located, SameElsewhere, Rearranged, UpOk, Has, OneMore;
    HeapPrefix(Keys(s.items), |s.items|, |s.items|);
    s.Push(it);
    assert Keys(s.items)[..|s.items| - 1] == Keys(old(s.items));
    UpStart(Keys(s.items), |s.items|);
    ghost var table := s.Table();
    Up(s, s.size - 1, |s.items|);
    PushedFrame(old(s.items), old(s.Table()), it, table, s.items, s.Table());
  }

  /** Exchanges item i with the last one and moves the latter down from there. */
  method SwapOut<V(==, !new)>(s: SStack<V>, i: nat, n: nat) returns (moved: bool)
    requires s.Valid() && s.Tracked() && s.Ordered() && i <= n && |s.items| == n + 1
    modifies s, s.blocks, s.index
    ensures s.Valid() && s.Tracked() && s.blocks == old(s.blocks)
    ensures Rearranged(old(s.items), old(s.Table()), s.items, s.Table())
    ensures |s.items| == n + 1 && s.items[n] == old(s.items)[i]
    ensures moved ==> IsHeap(Keys(s.items), n)
    ensures !moved ==> UpOk(Keys(s.items), n, i)
  {
    hide SStack.Valid, SStack.Shaped, Located, SameElsewhere, Rearranged, UpOk, Hole;
    HoleSwapped(Keys(s.items), i, n);
    KeysSwapped(s.items, i, n);
    s.Swap(i, n);
    ghost var items, table := s.items, s.Table();
    moved := Down(s, i, n);
    RearrangedTransitive(old(s.items), old(s.Table()), items, table, s.items, s.Table());
    RearrangedLength(items, table, s.items, s.Table());
    assert s.items[n] == s.items[n..][0] == items[n..][0] == items[n];
  }

  /** Takes off the last item, which the rest in front of it does not need. */
  method Finish<V(==, !new)>(s: SStack<V>, ghost items: seq<Item<V>>, ghost table: map<V, int>) returns (it: Item<V>)
    requires s.Valid() && s.Tracked() && |s.items| > 0 && IsHeap(Keys(s.items), |s.items| - 1)
    requires Rearranged(items, table, s.items, s.Table())
    modifies s, s.blocks, s.index
    ensures s.Valid() && s.Tracked() && s.Ordered() && s.blocks == old(s.blocks)
    ensures it == old(s.items)[|old(s.items)| - 1]
    ensures OneMore(s.items, it, items) && |s.items| == |items| - 1
    ensures SameElsewhere(items, table, s.Table())
    ensures s.index != null ==> At(s.Table(), it.value) == -1
  {
    hide SStack.Valid, SStack.Shaped, Located, SameElsewhere, Rearranged, OneMore;
    RearrangedLength(items, table, s.items, s.Table());
    PoppedFrame(items, table, s.items, s.Table(), |s.items| - 1);
    HeapPrefix(Keys(s.items), |s.items| - 1, |s.items| - 1);
    it := s.Pop();
    assert Keys(s.items) == Keys(old(s.items))[..|s.items|];
  }

  method HeapPop<V(==, !new)>(s: SStack<V>) returns (it: Item<V>)
    requires s.Valid() && s.Tracked() && s.Ordered() && |s.items| > 0
    modifies s, s.blocks, s.index
    ensures s.Valid() && s.Tracked() && s.Ordered() && s.blocks == old(s.blocks)
    ensures it == old(s.items)[0] && Greatest(old(s.items), it)
    ensures OneMore(s.items, it, old(s.items)) && |s.items| == |old(s.items)| - 1
    ensures SameElsewhere(old(s.items), old(s.Table()), s.Table())
    ensures s.index != null ==> At(s.Table(), it.value) == -1
  {
    hide SStack.Shaped, Located, SameElsewhere, Rearranged, OneMore, Greatest, UpOk;
    RootIsGreatest(s.items);
    var n := s.size - 1;
    var moved := SwapOut(s, 0, n);
    if !moved {
      UpDone(Keys(s.items), n, 0);
    }
    it := Finish(s, old(s.items), old(s.Table()));
  }

  method HeapRemove<V(==, !new)>(s: SStack<V>, i: nat) returns (it: Item<V>)
    requires s.Valid() && s.Tracked() && s.Ordered() && i < |s.items|
    modifies s, s.blocks, s.index
    ensures s.Valid() && s.Tracked() && s.Ordered() && s.blocks == old(s.blocks)
    ensures it == old(s.items)[i]
    ensures OneMore(s.items, it, old(s.items)) && |s.items| == |old(s.items)| - 1
    ensures SameElsewhere(old(s.items), old(s.Table()), s.Table())
    ensures s.index != null ==> At(s.Table(), it.value) == -1
  {
    hide SStack.Shaped, Located, SameElsewhere, Rearranged, OneMore, UpOk;
    RearrangedSelf(s.items, s.Table());
    HeapPrefix(Keys(s.items), |s.items|, |s.items| - 1);
    var n := s.size - 1;
    if n != i {
      RemoveInner(s, i, n);
    }
    it := Finish(s, old(s.items), old(s.Table()));
  }

  /** Brings item i to the end and mends the heap in front of it, downwards or else upwards. */
  method RemoveInner<V(==, !new)>(s: SStack<V>, i: nat, n: nat)
    requires s.Valid() && s.Tracked() && s.Ordered() && i < n && |s.items| == n + 1
    modifies s, s.blocks, s.index
    ensures s.Valid() && s.Tracked() && s.blocks == old(s.blocks)
    ensures Rearranged(old(s.items), old(s.Table()), s.items, s.Table())
    ensures |s.items| == n + 1 && s.items[n] == old(s.items)[i] && IsHeap(Keys(s.items), n)
  {
    hide SStack.Valid, SStack.Shaped, Located, SameElsewhere, Rearranged, UpOk;
    var moved := SwapOut(s, i, n);
    if !moved {
      ghost var items, table := s.items, s.Table();
      Up(s, i, n);
      RearrangedTransitive(old(s.items), old(s.Table()), items, table, s.items, s.Table());
      RearrangedLength(items, table, s.items, s.Table());
      assert s.items[n] == s.items[n..][0] == items[n..][0] == items[n];
    }
  }

  // ---------- The priority queue ----------

  class Queue<V(==, !new)> {
    const cont: SStack<V>

    ghost predicate Valid()
      reads cont, cont.blocks, cont.index
    {
      cont.Valid() && cont.Tracked() && cont.Ordered()
    }

    ghost function Contents(): multiset<Item<V>>
      reads cont
    {
      multiset(cont.items)
    }

    constructor (index: Index?<V>)
      ensures Valid() && Contents() == multiset{} && cont.index == index && cont.numbering == Plain
      ensures fresh(cont) && fresh(cont.blocks)
    {
      cont := new SStack(index, Plain);
    }

    method Push(v: V, priority: real)
      requires Valid() && (cont.index != null ==> !Has(cont.items, v))
      modifies cont, cont.blocks, cont.index
      ensures Valid() && Contents() == old(Contents()) + multiset{Item(v, priority)}
      ensures SameElsewhere(cont.items, old(cont.Table()), cont.Table())
      ensures forall i :: 0 <= i < |cont.blocks| ==> cont.blocks[i] in old(cont.blocks) || fresh(cont.blocks[i])
    {
      HeapPush(cont, Item(v, priority));
    }

    function Peek(): (it: Item<V>)
      requires Valid() && Contents() != multiset{}
      reads cont, cont.blocks, cont.index
      ensures it in Contents() && forall x :: x in Contents() ==> x.priority <= it.priority
    {
      GreatestMember(cont.items);
      cont.Get(0)
    }

    method Pop() returns (it: Item<V>)
      requires Valid() && Contents() != multiset{}
      modifies cont, cont.blocks, cont.index
      ensures Valid() && old(Contents()) == Contents() + multiset{it} && cont.blocks == old(cont.blocks)
      ensures forall x :: x in old(Contents()) ==> x.priority <= it.priority
      ensures cont.index != null ==> At(cont.Table(), it.value) == -1
      ensures SameElsewhere(old(cont.items), old(cont.Table()), cont.Table())
    {
      GreatestMember(cont.items);
      it := HeapPop(cont);
    }

    /** Takes out the very value whose last reported index is i. */
    method Remove(i: nat) returns (v: V)
      requires Valid() && cont.numbering == Plain && i < |cont.items|
      modifies cont, cont.blocks, cont.index
      ensures Valid() && cont.blocks == old(cont.blocks)
      ensures v == old(cont.items)[i].value && old(Contents()) == Contents() + multiset{old(cont.items)[i]}
      ensures cont.index != null ==> At(old(cont.Table()), v) == i && At(cont.Table(), v) == -1
      ensures SameElsewhere(old(cont.items), old(cont.Table()), cont.Table())
    {
      var it := HeapRemove(cont, i);
      v := it.value;
    }

    predicate Empty()
      requires Valid()
      reads cont, cont.blocks, cont.index
      ensures Empty() <==> Contents() == multiset{}
    {
      assert cont.size > 0 ==> cont.items[0] in Contents();
      cont.size == 0
    }
  }

  lemma GreatestMember<V>(s: seq<Item<V>>)
    requires IsHeap(Keys(s), |s|) && multiset(s) != multiset{}
    ensures |s| > 0 && s[0] in multiset(s) && forall x :: x in multiset(s) ==> x.priority <= s[0].priority
  {
    RootIsGreatest(s);
    forall x | x in multiset(s) ensures x.priority <= s[0].priority {
      assert x in s;
    }
  }
}
