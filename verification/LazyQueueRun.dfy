/** Whole runs of a queue with estimated priorities, against an ideal queue. */
module LazyQueueRun {
  import opened LazyQueue
  import opened Prque
  import opened Wrappers

  /** One thing a caller does with a queue: values are updated and removed by the index last reported for them, and
      popped by the priorities of the time `now`. */
  datatype Act<!V> = Insert(v: V) | Tick(now: int) | Draw(pri: V -> real, now: int) | Renew(v: V) | Take(v: V)

  /** What a queue holds, and when it was refreshed and is next counted from. */
  datatype Model<V> = Model(contents: multiset<V>, refreshed: int, since: int)

  /** What maxPriority promises: no priority rises above it from now on. */
  ghost predicate Promised<V(!new)>(maxPriority: (V, int) -> real, pri: V -> real, now: int) {
    forall v, u :: now <= u ==> pri(v) <= maxPriority(v, u)
  }

  /**
   * What an act does to an ideal queue, and the value it finds. A pop within one period of the last refresh finds a
   * value of the greatest priority if maxPriority keeps its promise.
   */
  ghost predicate Does<V(!new)>(m: Model<V>, a: Act<V>, found: Option<V>, m': Model<V>, period: int,
      maxPriority: (V, int) -> real)
  {
    match a
    case Insert(v) =>
      && found == None
      && m' == m.(contents := if v in m.contents then m.contents else m.contents + multiset{v})
    case Tick(now) =>
      found == None && m' == if now - m.since >= period * 2 then Model(m.contents, now, now) else m
    case Draw(pri, now) =>
      && (found == None <==> m.contents == multiset{})
      && m' == m.(contents := m'.contents)
      && (found == None ==> m'.contents == m.contents)
      && (found.Some? ==> m.contents == m'.contents + multiset{found.value})
      && (found.Some? && now <= m.refreshed + period && Promised(maxPriority, pri, now) ==>
            Below(m.contents, pri, pri(found.value)))
    case Renew(v) =>
      found == (if v in m.contents then Some(v) else None) && m' == m
    case Take(v) =>
      && found == (if v in m.contents then Some(v) else None)
      && m' == m.(contents := m.contents - multiset{v})
  }

  /** The queue is in a state that a run can go on from, and the model describes it. */
  ghost predicate Running<V(!new)>(q: LazyQueue<V>, m: Model<V>)
    reads q, q.index, q.queue0, q.queue0.blocks, q.queue1, q.queue1.blocks, q.popQueue, q.popQueue.blocks
  {
    && q.Sound() && q.Aligned() && q.Settled() && q.Paired() && q.complete && q.period > 0
    && m == Model(q.Contents(), q.refreshed, q.lastRefresh2)
  }

  lemma InContents<V(!new)>(q: LazyQueue<V>, v: V)
    ensures v in q.Contents() <==> q.Contains(v)
  {
    HasValues(q.queue0.items, v);
    HasValues(q.queue1.items, v);
  }

  method StepInsert<V(==, !new)>(q: LazyQueue<V>, a: Act<V>, inside: multiset<V>, ghost m: Model<V>)
    returns (found: Option<V>, inside': multiset<V>, ghost m': Model<V>)
    requires Running(q, m) && inside == m.contents && a.Insert?
    modifies q, q.index, q.queue0, q.queue0.blocks, q.queue1, q.queue1.blocks, q.popQueue, q.popQueue.blocks
    ensures Running(q, m') && inside' == m'.contents && Does(m, a, found, m', q.period, q.maxPriority)
    ensures Within(q.queue0, old(q.queue0), old(q.queue1)) && Within(q.queue1, old(q.queue0), old(q.queue1))
    ensures || (q.queue0 == old(q.queue0) && q.queue1 == old(q.queue1))
            || (q.queue0 == old(q.queue1) && q.queue1 == old(q.queue0))
    ensures Grown(q.popQueue)
  {
    hide LazyQueue.Sound, Values, Has;
    RunningApart(q, m);
    found, inside', m' := None, inside, m;
    if a.v !in inside {
      InContents(q, a.v);
      q.Push(a.v);
      inside' := inside + multiset{a.v};
      m' := m.(contents := inside');
    }
  }

  method StepTick<V(==, !new)>(q: LazyQueue<V>, a: Act<V>, inside: multiset<V>, ghost m: Model<V>)
    returns (found: Option<V>, inside': multiset<V>, ghost m': Model<V>)
    requires Running(q, m) && inside == m.contents && a.Tick?
    modifies q, q.index, q.queue0, q.queue0.blocks, q.queue1, q.queue1.blocks, q.popQueue, q.popQueue.blocks
    ensures Running(q, m') && inside' == m'.contents && Does(m, a, found, m', q.period, q.maxPriority)
    ensures Within(q.queue0, old(q.queue0), old(q.queue1)) && Within(q.queue1, old(q.queue0), old(q.queue1))
    ensures || (q.queue0 == old(q.queue0) && q.queue1 == old(q.queue1))
            || (q.queue0 == old(q.queue1) && q.queue1 == old(q.queue0))
    ensures Grown(q.popQueue)
  {
    hide LazyQueue.Sound, Values, Has;
    RunningApart(q, m);
    q.Refresh(a.now);
    found, inside' := None, inside;
    m' := if a.now - m.since >= q.period * 2 then Model(m.contents, a.now, a.now) else m;
  }

  lemma PromiseHolds<V(!new)>(q: LazyQueue<V>, m: Model<V>, pri: V -> real, now: int)
    requires Running(q, m)
    ensures now <= m.refreshed + q.period && Promised(q.maxPriority, pri, now) ==> q.Estimates(pri)
  {
    hide LazyQueue.Sound, LazyQueue.Estimates;
    if now <= m.refreshed + q.period && Promised(q.maxPriority, pri, now) {
      q.EstimatesHold(pri, now);
    }
  }

  lemma DrawDoes<V(!new)>(m: Model<V>, pri: V -> real, now: int, found: Option<V>, rest: multiset<V>, period: int,
      maxPriority: (V, int) -> real)
    requires (found == None <==> m.contents == multiset{}) && (found == None ==> rest == m.contents)
    requires found.Some? ==> m.contents == rest + multiset{found.value}
    requires found.Some? && now <= m.refreshed + period && Promised(maxPriority, pri, now) ==>
      Below(m.contents, pri, pri(found.value))
    ensures Does(m, Draw(pri, now), found, m.(contents := rest), period, maxPriority)
    ensures found.Some? ==> m.contents - multiset{found.value} == rest
  {
  }

  method StepDraw<V(==, !new)>(q: LazyQueue<V>, a: Act<V>, inside: multiset<V>, ghost m: Model<V>)
    returns (found: Option<V>, inside': multiset<V>, ghost m': Model<V>)
    requires Running(q, m) && inside == m.contents && a.Draw?
    modifies q, q.index, q.queue0, q.queue0.blocks, q.queue1, q.queue1.blocks, q.popQueue, q.popQueue.blocks
    ensures Running(q, m') && inside' == m'.contents && Does(m, a, found, m', q.period, q.maxPriority)
    ensures Within(q.queue0, old(q.queue0), old(q.queue1)) && Within(q.queue1, old(q.queue0), old(q.queue1))
    ensures || (q.queue0 == old(q.queue0) && q.queue1 == old(q.queue1))
            || (q.queue0 == old(q.queue1) && q.queue1 == old(q.queue0))
    ensures Grown(q.popQueue)
  {
    hide LazyQueue.Sound, LazyQueue.Contents, LazyQueue.Estimates, Below, Promised, Does;
    RunningApart(q, m);
    PromiseHolds(q, m, a.pri, a.now);
    var r := q.Pop(a.pri);
    m' := m.(contents := q.Contents());
    found, inside' := None, inside;
    if r.Some? {
      found, inside' := Some(r.value.value), inside - multiset{r.value.value};
    }
    DrawDoes(m, a.pri, a.now, found, m'.contents, q.period, q.maxPriority);
  }

  method StepRenew<V(==, !new)>(q: LazyQueue<V>, a: Act<V>, inside: multiset<V>, ghost m: Model<V>)
    returns (found: Option<V>, inside': multiset<V>, ghost m': Model<V>)
    requires Running(q, m) && inside == m.contents && a.Renew?
    modifies q, q.index, q.queue0, q.queue0.blocks, q.queue1, q.queue1.blocks, q.popQueue, q.popQueue.blocks
    ensures Running(q, m') && inside' == m'.contents && Does(m, a, found, m', q.period, q.maxPriority)
    ensures Within(q.queue0, old(q.queue0), old(q.queue1)) && Within(q.queue1, old(q.queue0), old(q.queue1))
    ensures || (q.queue0 == old(q.queue0) && q.queue1 == old(q.queue1))
            || (q.queue0 == old(q.queue1) && q.queue1 == old(q.queue0))
    ensures Grown(q.popQueue)
  {
    hide LazyQueue.Sound, Values, Has;
    RunningApart(q, m);
    found, inside', m' := None, inside, m;
    if a.v in inside {
      InContents(q, a.v);
      q.IndexLeadsHome(a.v);
      q.Update(q.index.table[a.v]);
      found := Some(a.v);
    }
  }

  method StepTake<V(==, !new)>(q: LazyQueue<V>, a: Act<V>, inside: multiset<V>, ghost m: Model<V>)
    returns (found: Option<V>, inside': multiset<V>, ghost m': Model<V>)
    requires Running(q, m) && inside == m.contents && a.Take?
    modifies q, q.index, q.queue0, q.queue0.blocks, q.queue1, q.queue1.blocks, q.popQueue, q.popQueue.blocks
    ensures Running(q, m') && inside' == m'.contents && Does(m, a, found, m', q.period, q.maxPriority)
    ensures Within(q.queue0, old(q.queue0), old(q.queue1)) && Within(q.queue1, old(q.queue0), old(q.queue1))
    ensures || (q.queue0 == old(q.queue0) && q.queue1 == old(q.queue1))
            || (q.queue0 == old(q.queue1) && q.queue1 == old(q.queue0))
    ensures Grown(q.popQueue)
  {
    hide LazyQueue.Sound, Values, Has;
    RunningApart(q, m);
    found, inside', m' := None, inside, m;
    if a.v in inside {
      InContents(q, a.v);
      q.IndexLeadsHome(a.v);
      var w := q.Remove(q.index.table[a.v]);
      found, inside' := Some(w), inside - multiset{a.v};
      m' := m.(contents := inside');
    } else {
      assert inside - multiset{a.v} == inside;
    }
  }

  /** Everything the queue consists of is new. */
  twostate predicate AllFresh<V(!new)>(new q: LazyQueue<V>)
    reads q, q.queue0, q.queue1, q.popQueue
  {
    && fresh(q) && fresh(q.index) && fresh(q.queue0) && fresh(q.queue1) && fresh(q.popQueue)
    && (forall i :: 0 <= i < |q.queue0.blocks| ==> fresh(q.queue0.blocks[i]))
    && (forall i :: 0 <= i < |q.queue1.blocks| ==> fresh(q.queue1.blocks[i]))
    && (forall i :: 0 <= i < |q.popQueue.blocks| ==> fresh(q.popQueue.blocks[i]))
  }

  /**
   * After any acts the queue is what they make of an ideal one. Nothing is lost or doubled, and every update and
   * removal finds its value by the index last reported for it, whatever was pushed, popped, moved and refreshed in
   * between.
   */
  method RunQueue<V(==, !new)>(maxPriority: (V, int) -> real, period: int, now: int, acts: seq<Act<V>>)
    returns (q: LazyQueue<V>, found: seq<Option<V>>, ghost ms: seq<Model<V>>)
    requires period > 0
    ensures q.period == period && q.maxPriority == maxPriority
    ensures |found| == |acts| && |ms| == |acts| + 1 && ms[0] == Model(multiset{}, now, now) && Running(q, ms[|acts|])
    ensures forall k :: 0 <= k < |acts| ==> Does(ms[k], acts[k], found[k], ms[k + 1], period, maxPriority)
  {
    hide LazyQueue.Sound, Values, Has, Does, Running;
    var index := new Index<V>();
    q := new LazyQueue(index, maxPriority, period, now, now, now);
    Starts(q, now);
    found, ms := [], [Model(multiset{}, now, now)];
    var inside := multiset{};
    for k := 0 to |acts|
      invariant q.period == period && q.maxPriority == maxPriority && AllFresh(q)
      invariant |found| == k && |ms| == k + 1 && ms[0] == Model(multiset{}, now, now) && Running(q, ms[k])
      invariant inside == ms[k].contents
      invariant forall j :: 0 <= j < k ==> Does(ms[j], acts[j], found[j], ms[j + 1], period, maxPriority)
    {
      var f;
      ghost var m;
      f, inside, m := StepQueue(q, acts[k], inside, ms[k]);
      found, ms := found + [f], ms + [m];
    }
  }

  lemma Starts<V(!new)>(q: LazyQueue<V>, now: int)
    requires q.Sound() && q.Aligned() && q.Settled() && q.Paired() && q.complete && q.period > 0
    requires q.queue0.items == [] && q.queue1.items == [] && q.refreshed == q.lastRefresh2 == now
    ensures Running(q, Model(multiset{}, now, now))
  {
    hide LazyQueue.Sound;
    NoValues(q.queue0.items);
    NoValues(q.queue1.items);
  }

  lemma RunningApart<V(!new)>(q: LazyQueue<V>, m: Model<V>)
    requires Running(q, m)
    ensures q.queue0 != q.popQueue && q.queue1 != q.popQueue
  {
  }

  /** One act of a run. */
  method StepQueue<V(==, !new)>(q: LazyQueue<V>, a: Act<V>, inside: multiset<V>, ghost m: Model<V>)
    returns (found: Option<V>, inside': multiset<V>, ghost m': Model<V>)
    requires Running(q, m) && inside == m.contents
    modifies q, q.index, q.queue0, q.queue0.blocks, q.queue1, q.queue1.blocks, q.popQueue, q.popQueue.blocks
    ensures Running(q, m') && inside' == m'.contents && Does(m, a, found, m', q.period, q.maxPriority)
    ensures Within(q.queue0, old(q.queue0), old(q.queue1)) && Within(q.queue1, old(q.queue0), old(q.queue1))
    ensures || (q.queue0 == old(q.queue0) && q.queue1 == old(q.queue1))
            || (q.queue0 == old(q.queue1) && q.queue1 == old(q.queue0))
    ensures Grown(q.popQueue)
  {
    hide Running, Does;
    match a {
      case Insert(_) => found, inside', m' := StepInsert(q, a, inside, m);
      case Tick(_) => found, inside', m' := StepTick(q, a, inside, m);
      case Draw(_, _) => found, inside', m' := StepDraw(q, a, inside, m);
      case Renew(_) => found, inside', m' := StepRenew(q, a, inside, m);
      case Take(_) => found, inside', m' := StepTake(q, a, inside, m);
    }
  }
}
