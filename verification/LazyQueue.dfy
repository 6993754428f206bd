/**
 * The lazy priority queue: items wait in two heaps ordered by estimates of their priority, which are
 * replaced by actual priorities only when items are taken out.
 */
module LazyQueue {
  import Heap
  import opened Prque
  import opened Wrappers

  // ---------- Values, whatever their priorities ----------

  ghost function Values<V>(s: seq<Item<V>>): multiset<V> {
    if s == [] then multiset{} else Values(s[..|s| - 1]) + multiset{s[|s| - 1].value}
  }

  lemma ValuesAppend<V>(s: seq<Item<V>>, it: Item<V>)
    ensures Values(s + [it]) == Values(s) + multiset{it.value}
  {
    assert (s + [it])[..|s|] == s;
  }

  lemma {:induction false} ValuesInsert<V>(s: seq<Item<V>>, it: Item<V>, t: seq<Item<V>>)
    ensures Values(s + [it] + t) == Values(s + t) + multiset{it.value}
    decreases |t|
  {
    hide Values;
    if t == [] {
      assert s + [it] + t == s + [it] && s + t == s;
      ValuesAppend(s, it);
    } else {
      var n := |t| - 1;
      ValuesInsert(s, it, t[..n]);
      assert s + [it] + t == (s + [it] + t[..n]) + [t[n]];
      ValuesAppend(s + [it] + t[..n], t[n]);
      assert s + t == (s + t[..n]) + [t[n]];
      ValuesAppend(s + t[..n], t[n]);
    }
  }

  lemma Regrouped<T>(a: multiset<T>, b: multiset<T>, c: multiset<T>)
    ensures a + b + c == (a + c) + b && a + b + c == (b + c) + a && a + b + c == a + (b + c)
  {
  }

  lemma {:induction false} ValuesPermuted<V>(s: seq<Item<V>>, t: seq<Item<V>>)
    requires multiset(s) == multiset(t)
    ensures Values(s) == Values(t)
    decreases |s|
  {
    hide Values;
    if s == [] {
      assert |multiset(t)| == 0;
    } else {
      var n := |s| - 1;
      var k := Heap.WithoutLast(s, t);
      ValuesPermuted(s[..n], t[..k] + t[k + 1..]);
      Heap.SplitLast(s);
      ValuesAppend(s[..n], s[n]);
      Heap.SplitAt(t, k);
      ValuesInsert(t[..k], t[k], t[k + 1..]);
    }
  }

  lemma ValuesOneMore<V>(s: seq<Item<V>>, it: Item<V>, t: seq<Item<V>>)
    requires OneMore(s, it, t)
    ensures Values(t) == Values(s) + multiset{it.value}
  {
    hide Values;
    ValuesPermuted(t, s + [it]);
    ValuesAppend(s, it);
  }

  lemma {:induction false} HasValues<V>(s: seq<Item<V>>, v: V)
    ensures Has(s, v) <==> v in Values(s)
  {
    if s != [] {
      HasValues(s[..|s| - 1], v);
      if Has(s, v) && s[|s| - 1].value != v {
        var i :| 0 <= i < |s| && s[i].value == v;
        assert s[..|s| - 1][i].value == v;
      }
    }
  }

  lemma {:induction false} LocatedOnce<V>(s: seq<Item<V>>, table: map<V, int>, n: Numbering, v: V)
    requires Located(s, table, n)
    ensures Values(s)[v] <= 1
  {
    if s != [] {
      var m := |s| - 1;
      LocatedOnce(s[..m], table, n, v);
      HasValues(s[..m], v);
      assert forall i :: 0 <= i < m ==> s[i].value != s[m].value;
    }
  }

  // ---------- Two stacks that report to one callback ----------

  ghost predicate Apart<V(!new)>(s: seq<Item<V>>, t: seq<Item<V>>) {
    forall v :: Has(s, v) ==> !Has(t, v)
  }

  lemma LocatedApart<V(!new)>(s: seq<Item<V>>, t: seq<Item<V>>, table: map<V, int>)
    requires Located(s, table, Even) && Located(t, table, Odd)
    ensures Apart(s, t) && Apart(t, s)
  {
    forall i, j | 0 <= i < |s| && 0 <= j < |t| ensures s[i].value != t[j].value {
    }
  }

  lemma LocatedElsewhere<V(!new)>(s: seq<Item<V>>, t: seq<Item<V>>, a: map<V, int>, b: map<V, int>, n: Numbering)
    requires Located(t, a, n) && SameElsewhere(s, a, b) && Apart(s, t)
    ensures Located(t, b, n)
  {
    forall i | 0 <= i < |t| ensures At(b, t[i].value) == Renumber(n, i) {
      assert Has(t, t[i].value);
    }
  }

  lemma TookOne<V>(s: seq<Item<V>>, it: Item<V>, t: seq<Item<V>>, u: seq<Item<V>>)
    requires OneMore(s, it, t)
    ensures multiset(t) + multiset(u) == multiset(s) + multiset(u) + multiset{it}
    ensures multiset(u) + multiset(t) == multiset(u) + multiset(s) + multiset{it}
  {
  }

  lemma ApartOneMore<V(!new)>(s: seq<Item<V>>, it: Item<V>, t: seq<Item<V>>, u: seq<Item<V>>)
    requires Apart(s, u) && OneMore(s, it, t) && !Has(u, it.value)
    ensures Apart(t, u)
  {
    forall v | Has(t, v) ensures !Has(u, v) {
      ValuesOneMore(s, it, t);
      HasValues(s, v);
      HasValues(t, v);
    }
  }

  lemma LocatedHome<V>(s: seq<Item<V>>, table: map<V, int>, n: Numbering, v: V)
    requires Located(s, table, n) && n != Plain && Has(s, v)
    ensures var i := At(table, v); i >= 0 && i / 2 < |s| && s[i / 2].value == v && (i % 2 == 0 <==> n == Even)
  {
    var k :| 0 <= k < |s| && s[k].value == v;
    assert At(table, v) == Renumber(n, k);
  }

  lemma NotLocated<V>(s: seq<Item<V>>, table: map<V, int>, n: Numbering, v: V)
    requires Located(s, table, n) && At(table, v) == -1
    ensures !Has(s, v)
  {
  }

  /** Every item was there before or carries the estimate for time u. */
  ghost predicate Estimated<V>(s: seq<Item<V>>, before: seq<Item<V>>, maxPriority: (V, int) -> real, u: int) {
    forall i :: 0 <= i < |s| ==> s[i] in before || s[i].priority == maxPriority(s[i].value, u)
  }

  lemma EstimatedOneMore<V>(s: seq<Item<V>>, v: V, t: seq<Item<V>>, before: seq<Item<V>>,
      maxPriority: (V, int) -> real, u: int)
    requires Estimated(s, before, maxPriority, u) && OneMore(s, Item(v, maxPriority(v, u)), t)
    ensures Estimated(t, before, maxPriority, u)
  {
    forall i | 0 <= i < |t| ensures t[i] in before || t[i].priority == maxPriority(t[i].value, u) {
      assert t[i] in multiset(t);
      if t[i] != Item(v, maxPriority(v, u)) {
        assert t[i] in multiset(s);
        assert t[i] in s;
      }
    }
  }

  /** Every priority is the estimate for time u. */
  ghost predicate Dated<V>(s: seq<Item<V>>, maxPriority: (V, int) -> real, u: int) {
    forall i :: 0 <= i < |s| ==> s[i].priority == maxPriority(s[i].value, u)
  }

  lemma DatedFewer<V>(s: seq<Item<V>>, it: Item<V>, t: seq<Item<V>>, maxPriority: (V, int) -> real, u: int)
    requires Dated(t, maxPriority, u) && OneMore(s, it, t)
    ensures Dated(s, maxPriority, u)
  {
    forall i | 0 <= i < |s| ensures s[i].priority == maxPriority(s[i].value, u) {
      assert s[i] in multiset(t);
      assert s[i] in t;
    }
  }

  lemma DatedOneMore<V>(s: seq<Item<V>>, v: V, t: seq<Item<V>>, maxPriority: (V, int) -> real, u: int)
    requires Dated(s, maxPriority, u) && OneMore(s, Item(v, maxPriority(v, u)), t)
    ensures Dated(t, maxPriority, u)
  {
    forall i | 0 <= i < |t| ensures t[i].priority == maxPriority(t[i].value, u) {
      assert t[i] in multiset(t);
      if t[i] != Item(v, maxPriority(v, u)) {
        assert t[i] in multiset(s);
        assert t[i] in s;
      }
    }
  }

  lemma EstimatedDated<V>(s: seq<Item<V>>, maxPriority: (V, int) -> real, u: int)
    requires Estimated(s, [], maxPriority, u)
    ensures Dated(s, maxPriority, u)
  {
  }

  /** Estimates for time u are upper bounds exactly where those values' priorities stay within them. */
  lemma DatedBounded<V>(s: seq<Item<V>>, maxPriority: (V, int) -> real, u: int, pri: V -> real)
    requires Dated(s, maxPriority, u)
    ensures Bounded(s, pri) <==> forall v :: v in Values(s) ==> pri(v) <= maxPriority(v, u)
  {
    if Bounded(s, pri) {
      forall v | v in Values(s) ensures pri(v) <= maxPriority(v, u) {
        HasValues(s, v);
      }
    }
    forall i | 0 <= i < |s| ensures s[i].value in Values(s) {
      HasValues(s, s[i].value);
    }
  }

  // ---------- Estimates and actual priorities ----------

  /** Every priority in s is at least the value's actual one. */
  ghost predicate Bounded<V>(s: seq<Item<V>>, pri: V -> real) {
    forall i :: 0 <= i < |s| ==> pri(s[i].value) <= s[i].priority
  }

  ghost predicate Actual<V>(s: seq<Item<V>>, pri: V -> real) {
    forall i :: 0 <= i < |s| ==> s[i].priority == pri(s[i].value)
  }

  ghost predicate Below<V>(vs: multiset<V>, pri: V -> real, x: real) {
    forall v :: v in vs ==> pri(v) <= x
  }

  ghost predicate Descending<V>(s: seq<Item<V>>) {
    forall i, j :: 0 <= i < j < |s| ==> s[i].priority >= s[j].priority
  }

  /** Nothing in vs has a higher actual priority than anything in s. */
  ghost predicate AllBelow<V>(vs: multiset<V>, pri: V -> real, s: seq<Item<V>>) {
    forall i :: 0 <= i < |s| ==> Below(vs, pri, s[i].priority)
  }

  lemma BoundedBelow<V>(s: seq<Item<V>>, pri: V -> real, it: Item<V>)
    requires Bounded(s, pri) && Greatest(s, it)
    ensures Below(Values(s), pri, it.priority)
  {
    forall v | v in Values(s) ensures pri(v) <= it.priority {
      HasValues(s, v);
    }
  }

  lemma BoundedFewer<V>(s: seq<Item<V>>, it: Item<V>, t: seq<Item<V>>, pri: V -> real)
    requires Bounded(t, pri) && OneMore(s, it, t)
    ensures Bounded(s, pri)
  {
    forall i | 0 <= i < |s| ensures pri(s[i].value) <= s[i].priority {
      assert s[i] in multiset(t);
      assert s[i] in t;
    }
  }

  lemma ActualFewer<V>(s: seq<Item<V>>, it: Item<V>, t: seq<Item<V>>, pri: V -> real)
    requires Actual(t, pri) && OneMore(s, it, t)
    ensures Actual(s, pri) && it.priority == pri(it.value)
  {
    assert it in multiset(t);
    assert it in t;
    forall i | 0 <= i < |s| ensures s[i].priority == pri(s[i].value) {
      assert s[i] in multiset(t);
      assert s[i] in t;
    }
  }

  lemma ActualOneMore<V>(s: seq<Item<V>>, it: Item<V>, t: seq<Item<V>>, pri: V -> real)
    requires Actual(s, pri) && it.priority == pri(it.value) && OneMore(s, it, t)
    ensures Actual(t, pri)
  {
    forall i | 0 <= i < |t| ensures t[i].priority == pri(t[i].value) {
      assert t[i] in multiset(t);
      if t[i] != it {
        assert t[i] in multiset(s);
        assert t[i] in s;
      }
    }
  }

  lemma ActualAppend<V>(s: seq<Item<V>>, it: Item<V>, pri: V -> real)
    requires Actual(s, pri) && it.priority == pri(it.value)
    ensures Actual(s + [it], pri)
  {
  }

  /** One more item is handed out: the order and the bound on what is left go on to hold. */
  lemma Handed<V>(popped: seq<Item<V>>, it: Item<V>, left: multiset<V>, pri: V -> real)
    requires it.priority == pri(it.value) && Actual(popped, pri) && Descending(popped)
    requires AllBelow(left + multiset{it.value}, pri, popped) && Below(left, pri, it.priority)
    ensures Descending(popped + [it]) && AllBelow(left, pri, popped + [it])
  {
    forall i | 0 <= i < |popped| ensures popped[i].priority >= it.priority {
      assert it.value in left + multiset{it.value};
    }
    forall i | 0 <= i < |popped| ensures Below(left, pri, popped[i].priority) {
      forall v | v in left ensures pri(v) <= popped[i].priority {
        assert v in left + multiset{it.value};
      }
    }
  }

  // ---------- The queue ----------

  /** The stack's blocks are those it had or new ones. */
  twostate predicate Grown<V(!new)>(s: SStack<V>)
    reads s
  {
    forall i :: 0 <= i < |s.blocks| ==> s.blocks[i] in old(s.blocks) || fresh(s.blocks[i])
  }

  twostate predicate Within<V(!new)>(new s: SStack<V>, a: SStack<V>, b: SStack<V>)
    reads s
  {
    forall i :: 0 <= i < |s.blocks| ==>
      s.blocks[i] in old(a.blocks) || s.blocks[i] in old(b.blocks) || fresh(s.blocks[i])
  }

  ghost predicate Disjoint<V(!new)>(a: SStack<V>, b: SStack<V>)
    reads a, b
  {
    a != b && forall i, j :: 0 <= i < |a.blocks| && 0 <= j < |b.blocks| ==> a.blocks[i] != b.blocks[j]
  }

  ghost predicate Good<V(!new)>(s: SStack<V>)
    reads s, s.blocks, s.index
  {
    s.Valid() && s.Tracked() && s.Ordered()
  }

  lemma DisjointSymmetric<V(!new)>(a: SStack<V>, b: SStack<V>)
    requires Disjoint(a, b)
    ensures Disjoint(b, a) && a != b
  {
  }

  lemma Sized<V(!new)>(s: SStack<V>)
    requires Good(s)
    ensures s.size == |s.items|
  {
  }

  class LazyQueue<V(==, !new)> {
    const index: Index<V>
    const maxPriority: (V, int) -> real
    const period: int
    const popQueue: SStack<V>
    var queue0: SStack<V>
    var queue1: SStack<V>
    var maxUntil: int
    var indexOffset: int
    var lastRefresh1: int
    var lastRefresh2: int
    /** When the last refresh was, and whether it has been completed. */
    ghost var refreshed: int
    ghost var complete: bool

    /** All that holds at every moment, also after a reset. */
    ghost predicate Sound()
      reads this, index, queue0, queue0.blocks, queue1, queue1.blocks, popQueue, popQueue.blocks
    {
      && queue0.index == index && queue1.index == index && popQueue.index == null
      && queue0.numbering != Plain && queue1.numbering != Plain && queue0.numbering != queue1.numbering
      && Disjoint(queue0, queue1) && Disjoint(queue0, popQueue) && Disjoint(queue1, popQueue)
      && Good(queue0) && Good(queue1) && Good(popQueue)
      && (indexOffset == 0 || indexOffset == 1)
      && (complete ==> OnTime())
    }

    /** The older stack's estimates are for one period after the last refresh, the newer one's for two. */
    ghost predicate OnTime()
      reads this, queue0, queue1
    {
      && maxUntil == refreshed + period + period
      && Dated(queue0.items, maxPriority, refreshed + period)
      && Dated(queue1.items, maxPriority, refreshed + period + period)
    }

    /** The reading of the clock that stands for the first of the last two refreshes is not after the other. */
    ghost predicate Paired()
      reads this
    {
      lastRefresh1 <= lastRefresh2
    }

    /** The stack an index's low bit leads to is the one that reports such indices. */
    ghost predicate Aligned()
      reads this
    {
      queue0.numbering == if indexOffset == 0 then Even else Odd
    }

    ghost function Contents(): multiset<V>
      reads this, queue0, queue1
    {
      Values(queue0.items) + Values(queue1.items)
    }

    /** Every item with its estimate. */
    ghost function Stored(): multiset<Item<V>>
      reads this, queue0, queue1
    {
      multiset(queue0.items) + multiset(queue1.items)
    }

    ghost predicate Contains(v: V)
      reads this, queue0, queue1
    {
      Has(queue0.items, v) || Has(queue1.items, v)
    }

    ghost predicate Settled()
      reads popQueue
    {
      popQueue.items == []
    }

    /** Three readings of the clock set the times of the last refreshes and make the first one. */
    constructor (index: Index<V>, maxPriority: (V, int) -> real, period: int, now1: int, now2: int, now3: int)
      requires now1 <= now2 <= now3
      modifies index
      ensures Sound() && Aligned() && indexOffset == 1 && Settled() && queue0.items == [] && queue1.items == []
      ensures this.index == index && this.maxPriority == maxPriority && this.period == period
      ensures lastRefresh1 == now1 && lastRefresh2 == now2 && Paired() && complete && refreshed == now3
      ensures fresh(queue0) && fresh(queue1) && fresh(popQueue)
      ensures forall i :: 0 <= i < |queue0.blocks| ==> fresh(queue0.blocks[i])
      ensures forall i :: 0 <= i < |queue1.blocks| ==> fresh(queue1.blocks[i])
      ensures forall i :: 0 <= i < |popQueue.blocks| ==> fresh(popQueue.blocks[i])
    {
      hide SStack.Valid, SStack.Tracked, SStack.Ordered, Estimated;
      this.index, this.maxPriority, this.period := index, maxPriority, period;
      popQueue := new SStack(null, Plain);
      queue0 := new SStack(index, Even);
      queue1 := new SStack(index, Odd);
      indexOffset, maxUntil, lastRefresh1, lastRefresh2 := 0, 0, now1, now2;
      refreshed, complete := 0, false;
      new;
      RefreshAt(now3);
      EstimatedDated(queue0.items, maxPriority, now3 + period);
      Settle(now3);
    }

    /** A refresh is complete. */
    ghost method Settle(now: int)
      requires Sound() && queue1.items == [] && maxUntil == now + period + period
      requires Dated(queue0.items, maxPriority, now + period)
      modifies this`refreshed, this`complete
      ensures Sound() && complete && refreshed == now
    {
      hide Good, Disjoint;
      refreshed, complete := now, true;
    }

    /** Clears the queue; what it does not touch is indexOffset. */
    method Reset()
      requires Sound() && Settled()
      modifies this
      ensures Sound() && Settled() && queue0.items == [] && queue1.items == []
      ensures queue0.numbering == Even && queue1.numbering == Odd
      ensures Aligned() <==> old(indexOffset) == 0
      ensures fresh(queue0) && fresh(queue1) && fresh(queue0.blocks) && fresh(queue1.blocks)
      ensures indexOffset == old(indexOffset) && (Paired() <==> old(Paired()))
      ensures complete == old(complete) && refreshed == old(refreshed)
    {
      hide SStack.Valid, SStack.Tracked, SStack.Ordered;
      queue0 := new SStack(index, Even);
      queue1 := new SStack(index, Odd);
    }

    /**
     * Re-estimates everything, in two rounds, when it is due. The new estimates are for one period
     * from now, while the next time it is due is two periods from now.
     */
    method Refresh(now: int)
      requires Sound() && Paired() && (period > 0 || now - lastRefresh2 < period * 2) // else it does not end
      modifies this, index, queue0, queue0.blocks, queue1, queue1.blocks
      ensures Sound() && popQueue.items == old(popQueue.items) && Contents() == old(Contents())
      ensures (Aligned() <==> old(Aligned())) && Paired() && now - lastRefresh2 < period * 2
      ensures now - old(lastRefresh2) < period * 2 ==>
                unchanged(this) && queue0.items == old(queue0.items) && queue1.items == old(queue1.items)
      ensures now - old(lastRefresh2) >= period * 2 ==>
                lastRefresh1 == lastRefresh2 == now && complete && refreshed == now && queue1.items == []
      ensures (queue0 == old(queue0) && queue1 == old(queue1)) || (queue0 == old(queue1) && queue1 == old(queue0))
      ensures Within(queue0, old(queue0), old(queue1)) && Within(queue1, old(queue0), old(queue1))
    {
      hide Sound, Values, Estimated, Dated;
      ghost var rounds := 0;
      while now - lastRefresh2 >= period * 2
        invariant Sound() && popQueue.items == old(popQueue.items) && Contents() == old(Contents())
        invariant Aligned() <==> old(Aligned())
        invariant rounds == 0 ==> unchanged(this)
        invariant rounds == 0 ==> queue0.items == old(queue0.items) && queue1.items == old(queue1.items)
        invariant rounds == 1 ==> lastRefresh1 == now && lastRefresh2 == old(lastRefresh1) && queue1.items == []
        invariant rounds == 2 ==> lastRefresh1 == lastRefresh2 == now
        invariant rounds == 2 ==> queue1.items == [] && maxUntil == now + period + period
        invariant rounds == 2 ==> Estimated(queue0.items, [], maxPriority, now + period)
        invariant 0 <= rounds <= 2 && (rounds > 0 ==> now - old(lastRefresh2) >= period * 2)
        invariant (queue0 == old(queue0) && queue1 == old(queue1)) || (queue0 == old(queue1) && queue1 == old(queue0))
        invariant Within(queue0, old(queue0), old(queue1)) && Within(queue1, old(queue0), old(queue1))
        decreases 2 - rounds
      {
        Round(now);
        rounds := rounds + 1;
      }
      if rounds == 2 {
        EstimatedDated(queue0.items, maxPriority, now + period);
        Settle(now);
      }
    }

    method Round(now: int)
      requires Sound()
      modifies this, index, queue0, queue0.blocks, queue1, queue1.blocks
      ensures Sound() && popQueue.items == old(popQueue.items) && Contents() == old(Contents())
      ensures queue0 == old(queue1) && queue1 == old(queue0) && (Aligned() <==> old(Aligned()))
      ensures queue1.items == [] && maxUntil == now + period + period
      ensures lastRefresh1 == now && lastRefresh2 == old(lastRefresh1)
      ensures queue1.blocks == old(queue0.blocks)
      ensures forall i :: 0 <= i < |queue0.blocks| ==> queue0.blocks[i] in old(queue1.blocks) || fresh(queue0.blocks[i])
      ensures Estimated(queue0.items, old(queue1.items), maxPriority, now + period)
    {
      hide Good, Disjoint, Dated, Estimated, Values;
      RefreshAt(now);
      lastRefresh2 := lastRefresh1;
      lastRefresh1 := now;
    }

    /** The estimates are upper bounds if and only if the priorities of the values in the older stack are
        within maxPriority for one period after the last refresh, and those in the newer one for two. */
    lemma EstimatesExact(pri: V -> real)
      requires Sound() && complete
      ensures Estimates(pri) <==>
        && (forall v :: v in Values(queue0.items) ==> pri(v) <= maxPriority(v, refreshed + period))
        && (forall v :: v in Values(queue1.items) ==> pri(v) <= maxPriority(v, refreshed + period + period))
    {
      hide Good, Disjoint, Values, Bounded, Dated;
      DatedBounded(queue0.items, maxPriority, refreshed + period, pri);
      DatedBounded(queue1.items, maxPriority, refreshed + period + period, pri);
    }

    /** So they are at any time up to one period after the last refresh at which maxPriority keeps its
        promise. */
    lemma EstimatesHold(pri: V -> real, t: int)
      requires Sound() && complete && t <= refreshed + period && period >= 0
      requires forall v, u :: t <= u ==> pri(v) <= maxPriority(v, u)
      ensures Estimates(pri)
    {
      EstimatesExact(pri);
    }

    /** Re-estimates what is in the older stack and exchanges the two. */
    method RefreshAt(now: int)
      requires Sound()
      modifies this, index, queue0, queue0.blocks, queue1, queue1.blocks
      ensures Sound() && popQueue.items == old(popQueue.items) && Contents() == old(Contents())
      ensures queue0 == old(queue1) && queue1 == old(queue0) && indexOffset == 1 - old(indexOffset)
      ensures (Aligned() <==> old(Aligned())) && !complete
      ensures queue1.items == [] && maxUntil == now + period + period
      ensures lastRefresh1 == old(lastRefresh1) && lastRefresh2 == old(lastRefresh2)
      ensures queue1.blocks == old(queue0.blocks) && |queue0.items| == old(|queue0.items| + |queue1.items|)
      ensures forall i :: 0 <= i < |queue0.blocks| ==> queue0.blocks[i] in old(queue1.blocks) || fresh(queue0.blocks[i])
      ensures Estimated(queue0.items, old(queue1.items), maxPriority, now + period)
    {
      hide SStack.Valid, Located, SameElsewhere, Has, Values, Good, Dated, Estimated, Disjoint;
      DisjointSymmetric(queue0, queue1);
      Until(now + period);
      ShiftAll();
      Exchange();
    }

    method Until(until: int)
      requires Sound()
      modifies this`maxUntil, this`complete
      ensures Sound() && maxUntil == until && !complete
    {
      hide Good, Disjoint, Dated;
      maxUntil, complete := until, false;
    }

    method Exchange()
      requires Sound() && !complete
      modifies this`queue0, this`queue1, this`indexOffset, this`maxUntil
      ensures Sound() && (Aligned() <==> old(Aligned()))
      ensures queue0 == old(queue1) && queue1 == old(queue0)
      ensures indexOffset == 1 - old(indexOffset) && maxUntil == old(maxUntil) + period
    {
      hide Good, Disjoint, Dated;
      DisjointSymmetric(queue0, queue1);
      queue0, queue1 := queue1, queue0;
      indexOffset := 1 - indexOffset;
      maxUntil := maxUntil + period;
    }

    /** Empties the older stack into the newer one, each item with a new estimate. */
    method ShiftAll()
      requires Sound()
      modifies index, queue0, queue0.blocks, queue1, queue1.blocks
      ensures Sound() && Contents() == old(Contents()) && queue0.items == []
      ensures queue0.blocks == old(queue0.blocks) && Grown(queue1)
      ensures |queue1.items| == old(|queue0.items| + |queue1.items|)
      ensures Estimated(queue1.items, old(queue1.items), maxPriority, maxUntil)
    {
      hide SStack.Valid, Located, SameElsewhere, Has, Values, Good, Dated;
      Sized(queue0);
      while queue0.size != 0
        invariant Sound() && Contents() == old(Contents())
        invariant queue0.blocks == old(queue0.blocks) && Grown(queue1)
        invariant |queue0.items| + |queue1.items| == old(|queue0.items| + |queue1.items|)
        invariant Estimated(queue1.items, old(queue1.items), maxPriority, maxUntil)
        invariant queue0.size == |queue0.items|
        decreases |queue0.items|
      {
        Shift(old(queue1.items));
      }
    }

    method Shift(ghost before: seq<Item<V>>)
      requires Sound() && |queue0.items| > 0 && Estimated(queue1.items, before, maxPriority, maxUntil)
      modifies index, queue0, queue0.blocks, queue1, queue1.blocks
      ensures Sound() && Contents() == old(Contents())
      ensures queue0.blocks == old(queue0.blocks) && queue0.size == |queue0.items| == |old(queue0.items)| - 1
      ensures |queue1.items| == |old(queue1.items)| + 1
      ensures Grown(queue1)
      ensures Estimated(queue1.items, before, maxPriority, maxUntil)
    {
      hide SStack.Valid, Located, SameElsewhere, OneMore, Has, Values, Estimated, Good, Greatest, Contains, Dated;
      var it := TakeTop(queue0, queue1);
      ValuesOneMore(queue0.items, it, old(queue0.items));
      Push(it.value);
      EstimatedOneMore(old(queue1.items), it.value, queue1.items, before, maxPriority, maxUntil);
      Sized(queue0);
    }

    /** Takes the first item of one of the two stacks. */
    method TakeTop(s: SStack<V>, ghost other: SStack<V>) returns (it: Item<V>)
      requires Sound() && |s.items| > 0
      requires (s == queue0 && other == queue1) || (s == queue1 && other == queue0)
      modifies s, s.blocks, index
      ensures Sound() && !Contains(it.value)
      ensures it == old(s.items)[0] && Greatest(old(s.items), it)
      ensures OneMore(s.items, it, old(s.items)) && |s.items| == |old(s.items)| - 1
      ensures s.blocks == old(s.blocks)
    {
      hide SStack.Valid, Located, SameElsewhere, OneMore, Greatest, Apart, Has, Dated;
      BothApart();
      it := HeapPop(s);
      if complete {
        DatedFewer(s.items, it, old(s.items), maxPriority, if s == queue0 then refreshed + period else maxUntil);
      }
      LocatedElsewhere(old(s.items), other.items, old(s.Table()), s.Table(), other.numbering);
      NotLocated(s.items, s.Table(), s.numbering, it.value);
      NotLocated(other.items, s.Table(), other.numbering, it.value);
    }

    lemma BothApart()
      requires Sound()
      ensures Apart(queue0.items, queue1.items) && Apart(queue1.items, queue0.items)
    {
      if queue0.numbering == Even {
        LocatedApart(queue0.items, queue1.items, index.table);
      } else {
        LocatedApart(queue1.items, queue0.items, index.table);
      }
    }

    method Push(v: V)
      requires Sound() && !Contains(v)
      modifies queue1, queue1.blocks, index
      ensures Sound() && OneMore(old(queue1.items), Item(v, maxPriority(v, maxUntil)), queue1.items)
      ensures |queue1.items| == |old(queue1.items)| + 1 && Contents() == old(Contents()) + multiset{v}
      ensures Stored() == old(Stored()) + multiset{Item(v, maxPriority(v, maxUntil))}
      ensures Grown(queue1) && popQueue.items == old(popQueue.items) && queue0.blocks == old(queue0.blocks)
    {
      hide SStack.Valid, Located, SameElsewhere, OneMore, Apart, Has, Dated, Values;
      BothApart();
      HeapPush(queue1, Item(v, maxPriority(v, maxUntil)));
      if complete {
        DatedOneMore(old(queue1.items), v, queue1.items, maxPriority, maxUntil);
      }
      ApartOneMore(old(queue1.items), Item(v, maxPriority(v, maxUntil)), queue1.items, queue0.items);
      LocatedElsewhere(queue1.items, queue0.items, old(queue1.Table()), queue1.Table(), queue0.numbering);
      ValuesOneMore(old(queue1.items), Item(v, maxPriority(v, maxUntil)), queue1.items);
      TookOne(old(queue1.items), Item(v, maxPriority(v, maxUntil)), queue1.items, queue0.items);
    }

    /** The stack with the greatest estimate, or -1. */
    function PeekIndex(): (next: int)
      requires Sound()
      reads this, index, queue0, queue0.blocks, queue1, queue1.blocks, popQueue, popQueue.blocks
      ensures PeekedAt(next)
    {
      if queue0.size != 0 then
        if queue1.size != 0 && queue1.Get(0).priority > queue0.Get(0).priority then 1 else 0
      else if queue1.size != 0 then 1
      else -1
    }

    ghost predicate PeekedAt(next: int)
      reads this, queue0, queue1
    {
      && -1 <= next <= 1
      && (next == -1 ==> queue0.items == [] && queue1.items == [])
      && (next != -1 ==> NextStack(next).items != [])
    }

    lemma PeekedGreatest()
      requires Sound() && PeekIndex() != -1
      ensures var top := NextStack(PeekIndex()).items[0]; Greatest(queue0.items, top) && Greatest(queue1.items, top)
    {
      if |queue0.items| > 0 { RootIsGreatest(queue0.items); }
      if |queue1.items| > 0 { RootIsGreatest(queue1.items); }
    }

    function NextStack(next: int): SStack<V>
      reads this
    {
      if next == 0 then queue0 else queue1
    }

    /** Everything in the queue, also what MultiPop has drawn and not handed out. */
    ghost function Remaining(): multiset<V>
      reads this, queue0, queue1, popQueue
    {
      Contents() + Values(popQueue.items)
    }

    /**
     * What MultiPop keeps while it draws from total and hands out popped; the order of what it hands
     * out needs estimates that are upper bounds.
     */
    ghost predicate Progress(pri: V -> real, popped: seq<Item<V>>, total: multiset<V>, bounded: bool)
      reads this, index, queue0, queue0.blocks, queue1, queue1.blocks, popQueue, popQueue.blocks
    {
      && Sound() && Remaining() + Values(popped) == total && Actual(popQueue.items, pri) && Actual(popped, pri)
      && (bounded ==> Bounded(queue0.items, pri) && Bounded(queue1.items, pri))
      && (bounded ==> Descending(popped) && AllBelow(Remaining(), pri, popped))
    }

    method PutAside(it: Item<V>)
      requires Sound()
      modifies popQueue, popQueue.blocks
      ensures Sound() && Grown(popQueue) && OneMore(old(popQueue.items), it, popQueue.items)
    {
      hide SStack.Valid, Located, SameElsewhere, OneMore, Has;
      HeapPush(popQueue, it);
    }

    /** Moves the item with the greatest estimate to popQueue, with its actual priority. */
    method Draw(pri: V -> real, s: SStack<V>, ghost other: SStack<V>)
      requires Sound() && s.items != []
      requires (s == queue0 && other == queue1) || (s == queue1 && other == queue0)
      requires Actual(popQueue.items, pri)
      modifies index, s, s.blocks, popQueue, popQueue.blocks
      ensures Sound() && s.blocks == old(s.blocks) && Grown(popQueue) && |s.items| == |old(s.items)| - 1
      ensures Actual(popQueue.items, pri) && (old(Bounded(s.items, pri)) ==> Bounded(s.items, pri))
      ensures Values(s.items) + Values(popQueue.items) == old(Values(s.items) + Values(popQueue.items))
    {
      hide SStack.Valid, Located, SameElsewhere, OneMore, Has, Values, Good, Greatest, Contains, Bounded, Actual, Dated;
      var it := TakeTop(s, other);
      ValuesOneMore(s.items, it, old(s.items));
      if Bounded(old(s.items), pri) {
        BoundedFewer(s.items, it, old(s.items), pri);
      }
      var drawn := Item(it.value, pri(it.value));
      PutAside(drawn);
      ValuesOneMore(old(popQueue.items), drawn, popQueue.items);
      ActualOneMore(old(popQueue.items), drawn, popQueue.items, pri);
    }

    method DrawNext(pri: V -> real, next: int, ghost popped: seq<Item<V>>, ghost total: multiset<V>,
        ghost bounded: bool)
      requires Progress(pri, popped, total, bounded) && 0 <= next <= 1 && NextStack(next).items != []
      modifies index, queue0, queue0.blocks, queue1, queue1.blocks, popQueue, popQueue.blocks
      ensures Progress(pri, popped, total, bounded)
      ensures queue0.blocks == old(queue0.blocks) && queue1.blocks == old(queue1.blocks) && Grown(popQueue)
      ensures |queue0.items| + |queue1.items| == old(|queue0.items| + |queue1.items|) - 1
    {
      hide SStack.Valid, Located, SameElsewhere, OneMore, Has, Values, Good, Greatest, Contains;
      hide Bounded, Actual, AllBelow, Descending, Dated;
      if next == 0 {
        Draw(pri, queue0, queue1);
      } else {
        Draw(pri, queue1, queue0);
      }
      Regrouped(old(Values(queue0.items)), old(Values(queue1.items)), old(Values(popQueue.items)));
      Regrouped(Values(queue0.items), Values(queue1.items), Values(popQueue.items));
      assert Remaining() == old(Remaining());
    }

    /** Takes the item of the greatest actual priority from popQueue. */
    method TakeAside() returns (it: Item<V>)
      requires Sound() && popQueue.items != []
      modifies popQueue, popQueue.blocks
      ensures Sound() && popQueue.blocks == old(popQueue.blocks)
      ensures it == old(popQueue.items)[0] && Greatest(old(popQueue.items), it)
      ensures OneMore(popQueue.items, it, old(popQueue.items)) && |popQueue.items| == |old(popQueue.items)| - 1
    {
      hide SStack.Valid, Located, SameElsewhere, OneMore, Has, Greatest;
      it := HeapPop(popQueue);
    }

    /** Hands out the first item of popQueue, no estimate being as high. */
    method HandOut(pri: V -> real, ghost popped: seq<Item<V>>, ghost total: multiset<V>, ghost bounded: bool)
      returns (it: Item<V>)
      requires Progress(pri, popped, total, bounded) && Releasable()
      modifies popQueue, popQueue.blocks
      ensures Progress(pri, popped + [it], total, bounded) && popQueue.blocks == old(popQueue.blocks)
      ensures |popQueue.items| == |old(popQueue.items)| - 1
    {
      hide SStack.Valid, Located, SameElsewhere, OneMore, Has, Values, Good, Greatest, Bounded, Actual,
        AllBelow, Descending, Below, Dated;
      if bounded {
        BoundedBelow(queue0.items, pri, popQueue.items[0]);
        BoundedBelow(queue1.items, pri, popQueue.items[0]);
      }
      it := TakeAside();
      ValuesOneMore(popQueue.items, it, old(popQueue.items));
      ValuesAppend(popped, it);
      ActualFewer(popQueue.items, it, old(popQueue.items), pri);
      Regrouped(Contents(), Values(popQueue.items), multiset{it.value});
      assert Remaining() + multiset{it.value} == old(Remaining());
      Regrouped(Remaining(), multiset{it.value}, Values(popped));
      Regrouped(Remaining(), Values(popped), multiset{it.value});
      ActualAppend(popped, it, pri);
      if bounded {
        LeftBelow(pri, it, old(popQueue.items));
        Handed(popped, it, Remaining(), pri);
      }
    }

    lemma LeftBelow(pri: V -> real, it: Item<V>, items: seq<Item<V>>)
      requires Below(Values(queue0.items), pri, it.priority) && Below(Values(queue1.items), pri, it.priority)
      requires Greatest(items, it) && OneMore(popQueue.items, it, items) && Actual(items, pri)
      ensures Below(Remaining(), pri, it.priority) && Actual(popQueue.items, pri) && it.priority == pri(it.value)
    {
      ActualFewer(popQueue.items, it, items, pri);
      BoundedBelow(items, pri, it);
      ValuesOneMore(popQueue.items, it, items);
    }

    /** Whether the first item of popQueue can be handed out: no estimate is as high as its priority. */
    predicate Ready(next: int)
      requires Sound() && PeekedAt(next)
      reads this, index, queue0, queue0.blocks, queue1, queue1.blocks, popQueue, popQueue.blocks
    {
      popQueue.size != 0 && (next == -1 || NextStack(next).Get(0).priority < popQueue.Get(0).priority)
    }

    /** No estimate is higher than the first priority in popQueue. */
    ghost predicate Releasable()
      reads this, queue0, queue1, popQueue
    {
      popQueue.items != [] && Greatest(queue0.items, popQueue.items[0]) && Greatest(queue1.items, popQueue.items[0])
    }

    lemma ReadyReleasable()
      requires Sound()
      ensures Ready(PeekIndex()) ==> Releasable()
      ensures !Ready(PeekIndex()) && PeekIndex() == -1 ==> popQueue.items == []
    {
      if PeekIndex() != -1 { PeekedGreatest(); }
    }

    /** Hands out from popQueue for as long as that is safe and the callback goes on. */
    method HandOutReady(pri: V -> real, stop: nat, popped0: seq<Item<V>>, ghost total: multiset<V>, ghost bounded: bool)
      returns (popped: seq<Item<V>>, next: int, stopped: bool)
      requires Progress(pri, popped0, total, bounded) && (stop > 0 ==> |popped0| < stop)
      modifies popQueue, popQueue.blocks
      ensures Progress(pri, popped, total, bounded) && popQueue.blocks == old(popQueue.blocks) && PeekedAt(next)
      ensures stopped ==> |popped| == stop > 0
      ensures !stopped ==> (stop > 0 ==> |popped| < stop) && (next == -1 ==> popQueue.items == [])
    {
      hide Sound, Progress, Releasable, PeekedAt, PeekIndex, Ready;
      popped := popped0;
      ProgressSound(pri, popped, total, bounded);
      next := PeekIndex();
      while Ready(next)
        invariant Progress(pri, popped, total, bounded) && popQueue.blocks == old(popQueue.blocks)
        invariant Sound() && next == PeekIndex() && (stop > 0 ==> |popped| < stop)
        decreases |popQueue.items|
      {
        ReadyReleasable();
        var it := HandOut(pri, popped, total, bounded);
        popped := popped + [it];
        ProgressSound(pri, popped, total, bounded);
        next := PeekIndex();
        if |popped| == stop {
          return popped, next, true;
        }
      }
      ReadyReleasable();
      stopped := false;
    }

    lemma ProgressSound(pri: V -> real, popped: seq<Item<V>>, total: multiset<V>, bounded: bool)
      requires Progress(pri, popped, total, bounded)
      ensures Sound() && Remaining() + Values(popped) == total && Actual(popped, pri)
      ensures bounded ==> Descending(popped) && AllBelow(Remaining(), pri, popped)
    {
    }

    /** Pushes what is left in popQueue back. */
    method PutBackAll()
      requires Sound() && Once(Remaining())
      modifies index, queue1, queue1.blocks, popQueue, popQueue.blocks
      ensures Sound() && Settled() && Contents() == old(Remaining())
      ensures Grown(queue1) && popQueue.blocks == old(popQueue.blocks)
    {
      hide Good, Disjoint, Dated, Values, Once;
      Sized(popQueue);
      while popQueue.size != 0
        invariant Sound() && Remaining() == old(Remaining()) && popQueue.size == |popQueue.items|
        invariant Grown(queue1) && popQueue.blocks == old(popQueue.blocks)
        decreases |popQueue.items|
      {
        PutBack();
      }
      NoValues(popQueue.items);
    }

    method PutBack()
      requires Sound() && Once(Remaining()) && popQueue.items != []
      modifies index, queue1, queue1.blocks, popQueue, popQueue.blocks
      ensures Sound() && Remaining() == old(Remaining())
      ensures Grown(queue1) && popQueue.blocks == old(popQueue.blocks)
      ensures popQueue.size == |popQueue.items| == |old(popQueue.items)| - 1
    {
      hide SStack.Valid, Located, SameElsewhere, OneMore, Has, Values, Good, Greatest, Dated;
      var it := TakeAside();
      ValuesOneMore(popQueue.items, it, old(popQueue.items));
      HasValues(queue0.items, it.value);
      HasValues(queue1.items, it.value);
      assert old(Remaining())[it.value] >= Contents()[it.value] + 1;
      assert Contents()[it.value] == 0;
      Push(it.value);
      Regrouped(old(Contents()), multiset{it.value}, Values(popQueue.items));
      Sized(popQueue);
    }

    /** No value is in the queue twice. */
    lemma ContentsOnce()
      requires Sound()
      ensures Once(Contents())
    {
      BothApart();
      forall v ensures Contents()[v] <= 1 {
        LocatedOnce(queue0.items, index.table, queue0.numbering, v);
        LocatedOnce(queue1.items, index.table, queue1.numbering, v);
        HasValues(queue0.items, v);
        HasValues(queue1.items, v);
      }
    }

    ghost predicate Estimates(pri: V -> real)
      reads this, queue0, queue1
    {
      Bounded(queue0.items, pri) && Bounded(queue1.items, pri)
    }

    /**
     * Hands out items until the callback, which does not push, ends it at its stop-th call (never if
     * stop is 0) or nothing is left. Nothing is lost or doubled. If no estimate is below the actual
     * priority then they come out by falling actual priority and nothing higher stays behind.
     */
    method MultiPop(pri: V -> real, stop: nat) returns (popped: seq<Item<V>>)
      requires Sound() && Settled()
      modifies index, queue0, queue0.blocks, queue1, queue1.blocks, popQueue, popQueue.blocks
      ensures Sound() && Settled() && Contents() + Values(popped) == old(Contents()) && Actual(popped, pri)
      ensures old(Estimates(pri)) ==> Descending(popped) && AllBelow(Contents(), pri, popped)
      ensures stop > 0 ==> |popped| <= stop
      ensures stop == 0 || |popped| < stop ==> Contents() == multiset{}
      ensures Grown(queue0) && Grown(queue1) && Grown(popQueue)
    {
      hide Sound, Progress, Values, Bounded, Actual, AllBelow, Descending, Once;
      ghost var total, bounded := Contents(), Estimates(pri);
      ContentsOnce();
      var stopped;
      popped, stopped := DrawAll(pri, stop, total, bounded);
      ProgressSound(pri, popped, total, bounded);
      if stopped {
        OncePart(Remaining(), Values(popped));
        PutBackAll();
      } else {
        NoValues(popQueue.items);
        NoValues(queue0.items);
        NoValues(queue1.items);
      }
    }

    /** Draws and hands out until the callback ends it or nothing is left. */
    method DrawAll(pri: V -> real, stop: nat, ghost total: multiset<V>, ghost bounded: bool)
      returns (popped: seq<Item<V>>, stopped: bool)
      requires Sound() && Settled() && total == Contents() && bounded == Estimates(pri)
      modifies index, queue0, queue0.blocks, queue1, queue1.blocks, popQueue, popQueue.blocks
      ensures Progress(pri, popped, total, bounded)
      ensures stopped ==> |popped| == stop > 0
      ensures !stopped ==> queue0.items == [] && queue1.items == [] && popQueue.items == []
      ensures !stopped && stop > 0 ==> |popped| < stop
      ensures queue0.blocks == old(queue0.blocks) && queue1.blocks == old(queue1.blocks) && Grown(popQueue)
    {
      hide Sound, Progress, PeekIndex;
      popped, stopped := [], false;
      Starting(pri);
      var next := PeekIndex();
      while next != -1
        invariant Progress(pri, popped, total, bounded) && PeekedAt(next)
        invariant stop > 0 ==> |popped| < stop
        invariant next == -1 ==> popQueue.items == []
        invariant queue0.blocks == old(queue0.blocks) && queue1.blocks == old(queue1.blocks) && Grown(popQueue)
        decreases |queue0.items| + |queue1.items|
      {
        DrawNext(pri, next, popped, total, bounded);
        ProgressApart(pri, popped, total, bounded);
        popped, next, stopped := HandOutReady(pri, stop, popped, total, bounded);
        if stopped {
          return;
        }
      }
    }

    lemma ProgressApart(pri: V -> real, popped: seq<Item<V>>, total: multiset<V>, bounded: bool)
      requires Progress(pri, popped, total, bounded)
      ensures queue0 != popQueue && queue1 != popQueue && queue0 != queue1
    {
    }

    /** The item of the greatest actual priority, if no estimate is below the actual one. */
    method Pop(pri: V -> real) returns (r: Option<Item<V>>)
      requires Sound() && Settled()
      modifies index, queue0, queue0.blocks, queue1, queue1.blocks, popQueue, popQueue.blocks
      ensures Sound() && Settled() && (r == None <==> old(Contents()) == multiset{})
      ensures r.None? ==> Contents() == old(Contents())
      ensures r.Some? ==> old(Contents()) == Contents() + multiset{r.value.value}
      ensures r.Some? ==> r.value.priority == pri(r.value.value)
      ensures r.Some? && old(Estimates(pri)) ==> Below(old(Contents()), pri, r.value.priority)
      ensures Grown(queue0) && Grown(queue1) && Grown(popQueue)
    {
      hide Sound, Estimates, Descending, Values, Actual, AllBelow, Below;
      var popped := MultiPop(pri, 1);
      FirstOut(popped, Contents(), pri);
      if |popped| == 0 {
        return None;
      }
      r := Some(popped[0]);
    }

    /** The stack an index leads to. */
    function Target(i: nat): SStack<V>
      reads this
    {
      NextStack(if i % 2 == indexOffset then 0 else 1)
    }

    /** A value's last reported index leads to that value if and only if the stacks are aligned. */
    lemma IndexLeadsHome(v: V)
      requires Sound() && Contains(v)
      ensures At(index.table, v) >= 0
      ensures var i := At(index.table, v);
              Aligned() <==> i / 2 < |Target(i).items| && Target(i).items[i / 2].value == v
    {
      BothApart();
      if Has(queue0.items, v) {
        Home(queue0, v);
      } else {
        Home(queue1, v);
      }
    }

    lemma Home(s: SStack<V>, v: V)
      requires Sound() && (s == queue0 || s == queue1) && Has(s.items, v)
      ensures var i := At(index.table, v);
              i >= 0 && i / 2 < |s.items| && s.items[i / 2].value == v && (i % 2 == 0 <==> s.numbering == Even)
    {
      hide SStack.Valid, SStack.Ordered, Disjoint, Dated;
      LocatedHome(s.items, index.table, s.numbering, v);
    }

    /** Takes out the very value whose last reported index is i. */
    method Remove(i: nat) returns (v: V)
      requires Sound() && Aligned() && i / 2 < |Target(i).items|
      modifies index, queue0, queue0.blocks, queue1, queue1.blocks
      ensures Sound() && !Contains(v) && old(Contents()) == Contents() + multiset{v}
      ensures At(old(index.table), v) == i && At(index.table, v) == -1
      ensures var it := old(Target(i).items)[i / 2]; v == it.value && old(Stored()) == Stored() + multiset{it}
      ensures queue0.blocks == old(queue0.blocks) && queue1.blocks == old(queue1.blocks)
      ensures popQueue.items == old(popQueue.items)
    {
      hide SStack.Valid, SameElsewhere, OneMore, Has, Values, Good, Dated;
      Reported(i);
      var s := Target(i);
      v := TakeOut(s, NextStack(if i % 2 == indexOffset then 1 else 0), i / 2);
    }

    lemma Reported(i: nat)
      requires Sound() && Aligned() && i / 2 < |Target(i).items|
      ensures At(index.table, Target(i).items[i / 2].value) == i
    {
      assert Located(Target(i).items, index.table, Target(i).numbering);
    }

    method TakeOut(s: SStack<V>, ghost other: SStack<V>, k: nat) returns (v: V)
      requires Sound() && k < |s.items|
      requires (s == queue0 && other == queue1) || (s == queue1 && other == queue0)
      modifies s, s.blocks, index
      ensures Sound() && !Contains(v) && v == old(s.items)[k].value && At(index.table, v) == -1
      ensures old(Contents()) == Contents() + multiset{v} && s.blocks == old(s.blocks)
      ensures old(Stored()) == Stored() + multiset{old(s.items)[k]}
    {
      hide SStack.Valid, Located, SameElsewhere, OneMore, Greatest, Apart, Has, Dated, Values;
      BothApart();
      var it := HeapRemove(s, k);
      v := it.value;
      if complete {
        DatedFewer(s.items, it, old(s.items), maxPriority, if s == queue0 then refreshed + period else maxUntil);
      }
      LocatedElsewhere(old(s.items), other.items, old(s.Table()), s.Table(), other.numbering);
      NotLocated(s.items, s.Table(), s.numbering, it.value);
      NotLocated(other.items, s.Table(), other.numbering, it.value);
      ValuesOneMore(s.items, it, old(s.items));
      Regrouped(Values(s.items), multiset{v}, Values(other.items));
      Regrouped(Values(other.items), Values(s.items), multiset{v});
      TookOne(s.items, it, old(s.items), other.items);
    }

    /** Gives the value with index i a new estimate. */
    method Update(i: nat)
      requires Sound() && Aligned() && i / 2 < |Target(i).items|
      modifies index, queue0, queue0.blocks, queue1, queue1.blocks
      ensures Sound() && Contents() == old(Contents()) && popQueue.items == old(popQueue.items)
      ensures Grown(queue1) && queue0.blocks == old(queue0.blocks)
      ensures var it := old(Target(i).items)[i / 2];
              && At(old(index.table), it.value) == i
              && Stored() + multiset{it} == old(Stored()) + multiset{Item(it.value, maxPriority(it.value, maxUntil))}
    {
      hide Sound, Values, Has, Dated;
      var v := Remove(i);
      ghost var rest := Stored();
      Push(v);
      Regrouped(rest, multiset{Item(v, maxPriority(v, maxUntil))}, multiset{old(Target(i).items)[i / 2]});
    }

    lemma Starting(pri: V -> real)
      requires Sound() && Settled()
      ensures Progress(pri, [], Contents(), Estimates(pri))
    {
    }
  }

  ghost predicate Once<V(!new)>(vs: multiset<V>) {
    forall v :: vs[v] <= 1
  }

  lemma OncePart<V(!new)>(a: multiset<V>, b: multiset<V>)
    requires Once(a + b)
    ensures Once(a)
  {
    forall v ensures a[v] <= 1 {
      assert (a + b)[v] <= 1;
    }
  }

  lemma FirstOut<V>(popped: seq<Item<V>>, rest: multiset<V>, pri: V -> real)
    requires |popped| <= 1 && Actual(popped, pri)
    ensures |popped| == 0 ==> rest + Values(popped) == rest
    ensures |popped| == 1 ==> rest + Values(popped) == rest + multiset{popped[0].value}
    ensures |popped| == 1 ==> popped[0].priority == pri(popped[0].value)
    ensures |popped| == 1 ==> rest + Values(popped) != multiset{}
    ensures |popped| == 1 && AllBelow(rest, pri, popped) ==> Below(rest + Values(popped), pri, popped[0].priority)
  {
    if |popped| == 1 {
      assert popped == [] + [popped[0]];
      ValuesAppend([], popped[0]);
      assert popped[0].value in rest + Values(popped);
    }
  }

  lemma NoValues<V>(s: seq<Item<V>>)
    ensures s == [] ==> Values(s) == multiset{}
  {
  }

  /**
   * A queue of period 10 that is refreshed when it is due, at 20, and once more at 39, and still
   * holds an estimate for time 30: it is below a priority that maxPriority bounds as promised.
   */
  method StaleEstimate() returns (q: LazyQueue<nat>, pri: nat -> real)
    ensures q.Sound() && q.Contents() == multiset{7} && 39 - q.lastRefresh2 < q.period * 2
    ensures forall v, u :: 39 <= u ==> pri(v) <= q.maxPriority(v, u)
    ensures !q.Estimates(pri)
  {
    hide LazyQueue.Sound, LazyQueue.Estimates, Values, Has;
    pri := _ => 39.0;
    var index := new Index<nat>();
    q := new LazyQueue(index, (v, u) => u as real, 10, 0, 0, 0);
    Push7(q);
    LateRefreshes(q, 7, pri);
  }

  method Push7(q: LazyQueue<nat>)
    requires q.Sound() && q.queue0.items == [] && q.queue1.items == []
    modifies q.queue1, q.queue1.blocks, q.index
    ensures q.Sound() && q.Contents() == multiset{7} && q.Contains(7) && Grown(q.queue1)
    ensures |q.queue1.items| == 1 && Has(q.queue1.items, 7)
  {
    hide LazyQueue.Sound, Values, Has;
    NoValues(q.queue0.items);
    NoValues(q.queue1.items);
    HasValues(q.queue0.items, 7);
    HasValues(q.queue1.items, 7);
    q.Push(7);
    HasValues(q.queue0.items, 7);
    HasValues(q.queue1.items, 7);
  }

  method LateRefreshes(q: LazyQueue<nat>, ghost v: nat, ghost pri: nat -> real)
    requires q.Sound() && q.period == 10 && q.lastRefresh1 == q.lastRefresh2 == 0 && v in q.Contents()
    requires q.maxPriority(v, 30) < pri(v)
    modifies q, q.index, q.queue0, q.queue0.blocks, q.queue1, q.queue1.blocks
    ensures q.Sound() && q.Contents() == old(q.Contents()) && q.lastRefresh2 == 20 && !q.Estimates(pri)
  {
    hide LazyQueue.Sound, LazyQueue.Estimates, Values, Has;
    q.Refresh(20);
    NoValues(q.queue1.items);
    q.EstimatesExact(pri);
    q.Refresh(39);
    q.EstimatesExact(pri);
  }

  /** A queue that is cleared once: the index reported for the only value does not lead to it. */
  method ResetMisleads() returns (q: LazyQueue<nat>, i: int)
    ensures q.Sound() && q.Contents() == multiset{7} && i == At(q.index.table, 7) == 1
    ensures !(i / 2 < |q.Target(i).items| && q.Target(i).items[i / 2].value == 7)
  {
    hide LazyQueue.Sound, Values, Has;
    var index := new Index<nat>();
    q := new LazyQueue(index, (v, u) => u as real, 10, 0, 0, 0);
    q.Reset();
    Push7(q);
    q.IndexLeadsHome(7);
    q.Home(q.queue1, 7);
    i := if 7 in q.index.table then q.index.table[7] else -1;
  }
}
