/**
 * Indexing and unindexing the transactions of a range of blocks that concurrent readers deliver in
 * any order.
 */
module TxIndex {
  import opened Prque
  import opened Wrappers

  const WRAP: nat := 0x1_0000_0000_0000_0000
  const HALF: int := 0x8000_0000_0000_0000
  const IDEAL_BATCH_SIZE: nat := 100 * 1024

  type Hash = nat

  type Block = n: nat | n < WRAP

  datatype Delivery = Delivery(number: Block, hashes: seq<Hash>)

  /** One entry of a batch. */
  datatype Op = Put(hash: Hash, number: Block) | Delete(hash: Hash) | Tail(number: Block)

  datatype Db = Db(lookup: map<Hash, Block>, tail: Option<Block>)

  // ---------- Machine integers ----------

  /** The signed reading of a 64-bit number. */
  function Int64(n: Block): int {
    if n < HALF then n else n - WRAP
  }

  /** Negation of a signed 64-bit number; the least one is its own. */
  function Neg64(x: int): int {
    if x == -HALF then x else -x
  }

  function Dec(n: Block): Block {
    if n == 0 then WRAP - 1 else n - 1
  }

  function Inc(n: Block): Block {
    if n == WRAP - 1 then 0 else n + 1
  }

  // ---------- Reading the range ----------

  /** The numbers of a range, rising. */
  ghost function Range(from: nat, to: nat): seq<nat>
    requires from <= to
  {
    seq(to - from, i requires 0 <= i < to - from => from + i)
  }

  ghost function Falling(from: nat, to: nat): seq<nat>
    requires from <= to
  {
    seq(to - from, i requires 0 <= i < to - from => to - 1 - i)
  }

  /** The blocks the one sequential reader asks for, unless it is interrupted before the stop-th. */
  method Lookup(from: Block, to: Block, reverse: bool, stop: nat) returns (visited: seq<nat>)
    requires from < to
    ensures var all := if reverse then Falling(from, to) else Range(from, to);
            visited == if stop < |all| then all[..stop] else all
  {
    var n, end := from, to;
    if reverse {
      n, end := Dec(to), Dec(from);
    }
    visited := [];
    ghost var all := if reverse then Falling(from, to) else Range(from, to);
    while n != end
      invariant |visited| <= |all| && |visited| <= stop && visited == all[..|visited|]
      invariant |visited| < |all| ==> n == all[|visited|] && n != end
      invariant |visited| == |all| ==> n == end
      decreases |all| - |visited|
    {
      if |visited| == stop {
        return;
      }
      visited := visited + [n];
      n := if reverse then Dec(n) else Inc(n);
    }
  }

  // ---------- Batches ----------

  ghost function Applied(db: Db, op: Op): Db {
    match op
    case Put(h, n) => db.(lookup := db.lookup[h := n])
    case Delete(h) => db.(lookup := db.lookup - {h})
    case Tail(n) => db.(tail := Some(n))
  }

  ghost function ApplyAll(db: Db, batch: seq<Op>): Db {
    if batch == [] then db else Applied(ApplyAll(db, batch[..|batch| - 1]), batch[|batch| - 1])
  }

  lemma ApplyAppend(db: Db, batch: seq<Op>, op: Op)
    ensures ApplyAll(db, batch + [op]) == Applied(ApplyAll(db, batch), op)
  {
    assert (batch + [op])[..|batch|] == batch;
  }

  /** Writing a batch is one step: all of it or, before that, none. */
  method Write(db: Db, batch: seq<Op>) returns (r: Db)
    ensures r == ApplyAll(db, batch)
  {
    r := db;
    for i := 0 to |batch|
      invariant r == ApplyAll(db, batch[..i])
    {
      assert batch[..i + 1] == batch[..i] + [batch[i]];
      ApplyAppend(db, batch[..i], batch[i]);
      match batch[i]
      case Put(h, n) => r := r.(lookup := r.lookup[h := n]);
      case Delete(h) => r := r.(lookup := r.lookup - {h});
      case Tail(n) => r := r.(tail := Some(n));
    }
    assert batch[..|batch|] == batch;
  }

  // ---------- What is to be in the index ----------

  /** The lookups with those of one block added. */
  ghost function Added(lookup: map<Hash, Block>, hashes: seq<Hash>, n: Block): map<Hash, Block> {
    map h | h in lookup.Keys + (set x | x in hashes) :: if h in hashes then n else lookup[h]
  }

  ghost function Removed(lookup: map<Hash, Block>, hashes: seq<Hash>): map<Hash, Block> {
    map h | h in lookup && h !in hashes :: lookup[h]
  }

  /** The lookups once exactly the blocks of t..to-1 have been indexed, the highest first. */
  ghost function Indexed(lookup: map<Hash, Block>, body: Block -> seq<Hash>, t: Block, to: Block): map<Hash, Block>
    requires t <= to
    decreases (to - t)
  {
    if t == to then lookup else Added(Indexed(lookup, body, t + 1, to), body(t), t)
  }

  /** The lookups once exactly the blocks of from..t-1 have been unindexed. */
  ghost function Unindexed(lookup: map<Hash, Block>, body: Block -> seq<Hash>, from: Block, t: Block): map<Hash, Block>
    requires from <= t
  {
    if t == from then lookup else Removed(Unindexed(lookup, body, from, t - 1), body(t - 1))
  }

  ghost predicate Holds(body: Block -> seq<Hash>, n: Block, h: Hash) {
    h in body(n)
  }

  /** No block of t..to-1 holds the hash. */
  ghost predicate Absent(body: Block -> seq<Hash>, t: Block, to: Block, h: Hash) {
    forall n: Block :: t <= n < to ==> !Holds(body, n, h)
  }

  /** A hash leads to the lowest block of t..to-1 that holds it. */
  lemma {:induction false} IndexedLowest(lookup: map<Hash, Block>, body: Block -> seq<Hash>, t: Block,
      to: Block, h: Hash, n: Block)
    requires t <= n < to && Holds(body, n, h) && Absent(body, t, n, h)
    ensures h in Indexed(lookup, body, t, to) && Indexed(lookup, body, t, to)[h] == n
    decreases (to - t)
  {
    if t < n {
      IndexedLowest(lookup, body, t + 1, to, h, n);
      assert !Holds(body, t, h);
    }
  }

  /** A hash that no block of t..to-1 holds leads where it led before, if anywhere. */
  lemma {:induction false} IndexedElsewhere(lookup: map<Hash, Block>, body: Block -> seq<Hash>, t: Block,
      to: Block, h: Hash)
    requires t <= to && Absent(body, t, to, h)
    ensures h in Indexed(lookup, body, t, to) <==> h in lookup
    ensures h in lookup ==> Indexed(lookup, body, t, to)[h] == lookup[h]
    decreases (to - t)
  {
    if t < to {
      assert !Holds(body, t, h);
      IndexedElsewhere(lookup, body, t + 1, to, h);
    }
  }

  /** A hash still leads where it did unless a block of from..t-1 holds it; then it leads nowhere. */
  lemma {:induction false} UnindexedMeaning(lookup: map<Hash, Block>, body: Block -> seq<Hash>, from: Block,
      t: Block, h: Hash)
    requires from <= t
    ensures h in Unindexed(lookup, body, from, t) <==> h in lookup && Absent(body, from, t, h)
    ensures h in Unindexed(lookup, body, from, t) ==> Unindexed(lookup, body, from, t)[h] == lookup[h]
    decreases t - from
  {
    if from < t {
      UnindexedMeaning(lookup, body, from, t - 1, h);
      assert Absent(body, from, t, h) <==> Absent(body, from, t - 1, h) && !Holds(body, t - 1, h);
    }
  }

  // ---------- One block ----------

  lemma AddedMore(lookup: map<Hash, Block>, hashes: seq<Hash>, h: Hash, n: Block)
    ensures Added(lookup, hashes + [h], n) == Added(lookup, hashes, n)[h := n]
  {
  }

  lemma AddedNone(lookup: map<Hash, Block>, n: Block)
    ensures Added(lookup, [], n) == lookup
  {
  }

  /** The entries of one block. */
  ghost function Puts(hashes: seq<Hash>, n: Block): (ops: seq<Op>)
    ensures |ops| == |hashes| && forall i :: 0 <= i < |hashes| ==> ops[i] == Put(hashes[i], n)
  {
    seq(|hashes|, i requires 0 <= i < |hashes| => Put(hashes[i], n))
  }

  method WriteEntries(batch: seq<Op>, n: Block, hashes: seq<Hash>, ghost db: Db) returns (r: seq<Op>)
    ensures ApplyAll(db, r).lookup == Added(ApplyAll(db, batch).lookup, hashes, n)
    ensures r == batch + Puts(hashes, n)
  {
    hide Added, ApplyAll;
    r := batch;
    AddedNone(ApplyAll(db, batch).lookup, n);
    for i := 0 to |hashes|
      invariant ApplyAll(db, r).lookup == Added(ApplyAll(db, batch).lookup, hashes[..i], n)
      invariant r == batch + Puts(hashes[..i], n)
    {
      ApplyAppend(db, r, Put(hashes[i], n));
      AddedMore(ApplyAll(db, batch).lookup, hashes[..i], hashes[i], n);
      r := r + [Put(hashes[i], n)];
      assert hashes[..i + 1] == hashes[..i] + [hashes[i]];
    }
    assert hashes[..|hashes|] == hashes;
  }

  method DeleteEntries(batch: seq<Op>, hashes: seq<Hash>, ghost db: Db) returns (r: seq<Op>)
    ensures ApplyAll(db, r).lookup == Removed(ApplyAll(db, batch).lookup, hashes)
  {
    r := batch;
    for i := 0 to |hashes|
      invariant ApplyAll(db, r).lookup == Removed(ApplyAll(db, batch).lookup, hashes[..i])
    {
      ApplyAppend(db, r, Delete(hashes[i]));
      r := r + [Delete(hashes[i])];
      assert hashes[..i + 1] == hashes[..i] + [hashes[i]];
    }
    assert hashes[..|hashes|] == hashes;
  }

  // ---------- The deliveries that wait for their turn ----------

  /** A job walks down from to when it indexes and up from from when it unindexes. */
  datatype Job = Job(down: bool, lookup: map<Hash, Block>, body: Block -> seq<Hash>, from: Block, to: Block) {
    /** Deliveries of different blocks of the range, each as the chain has it, in any order. */
    ghost predicate Delivers(ds: seq<Delivery>) {
      && (forall i :: 0 <= i < |ds| ==> from <= ds[i].number < to && ds[i].hashes == body(ds[i].number))
      && (forall i, j :: 0 <= i < j < |ds| ==> ds[i].number != ds[j].number)
    }

    /** The lookups when the job has come to t. */
    ghost function Done(t: Block): map<Hash, Block>
      requires from <= t <= to
    {
      if down then Indexed(lookup, body, t, to) else Unindexed(lookup, body, from, t)
    }

    /** Where the job begins, and where it is through. */
    function Start(): Block {
      if down then to else from
    }

    function End(): Block {
      if down then from else to
    }

    predicate Waits(t: Block, n: Block) {
      if down then n < t else n >= t
    }

    /** The block whose turn it is at t. */
    function Due(t: Block): Block {
      if down then Dec(t) else t
    }

    function Past(n: Block): Block {
      if down then n else Inc(n)
    }

    function Rank(n: Block): real {
      (if down then Int64(n) else Neg64(Int64(n))) as real
    }

    /** What is in the queue at t. */
    ghost function Pending(ds: seq<Delivery>, t: Block): set<Item<Delivery>> {
      set d | d in ds && Waits(t, d.number) :: Item(d, Rank(d.number))
    }

    /** Every block the job has come past has been delivered. */
    ghost predicate Came(ds: seq<Delivery>, t: Block) {
      from <= t <= to && forall n: Block :: from <= n < to && !Waits(t, n) ==> Arrived(ds, n)
    }

    /** A database the job has written: its tail says exactly what has been done. */
    ghost predicate Exact(db: Db) {
      db.tail.Some? && from <= db.tail.value <= to && db.lookup == Done(db.tail.value)
    }
  }

  ghost predicate Arrived(ds: seq<Delivery>, n: Block) {
    exists i :: 0 <= i < |ds| && ds[i].number == n
  }

  lemma RankInjective(job: Job, a: Block, b: Block)
    requires job.Rank(a) == job.Rank(b)
    ensures a == b
  {
  }

  /** One more delivery is one more item that waits. */
  lemma PendingMore(job: Job, ds: seq<Delivery>, d: Delivery, t: Block)
    requires job.Delivers(ds + [d]) && job.Came(ds, t)
    ensures multiset(job.Pending(ds + [d], t)) == multiset(job.Pending(ds, t)) + multiset{Item(d, job.Rank(d.number))}
    ensures job.Delivers(ds) && job.Came(ds + [d], t)
  {
    var all := ds + [d];
    assert all[|ds|] == d;
    assert forall i :: 0 <= i < |ds| ==> all[i] == ds[i];
    assert d !in ds;
    assert !Arrived(ds, d.number);
    assert job.Waits(t, d.number);
    var it := Item(d, job.Rank(d.number));
    assert job.Pending(all, t) == job.Pending(ds, t) + {it};
    assert it !in job.Pending(ds, t);
    forall n: Block | Arrived(ds, n) ensures Arrived(all, n) {
      var i :| 0 <= i < |ds| && ds[i].number == n;
      assert all[i].number == n;
    }
  }

  lemma WaitsLess(job: Job, ds: seq<Delivery>, t: Block, it: Item<Delivery>)
    requires job.Delivers(ds) && it in job.Pending(ds, t) && it.value.number == job.Due(t)
    ensures job.Pending(ds, job.Past(it.value.number)) == job.Pending(ds, t) - {it}
  {
    var n := it.value.number;
    var i :| 0 <= i < |ds| && ds[i] == it.value;
    forall d | d in ds ensures job.Waits(job.Past(n), d.number) <==> job.Waits(t, d.number) && d != it.value {
      var j :| 0 <= j < |ds| && ds[j] == d;
    }
  }

  /** An item waits if and only if its delivery has come and its block is not yet past. */
  lemma PendingLess(job: Job, ds: seq<Delivery>, t: Block, it: Item<Delivery>, rest: multiset<Item<Delivery>>)
    requires job.Delivers(ds) && job.Came(ds, t) && it.value.number == job.Due(t)
    requires multiset(job.Pending(ds, t)) == rest + multiset{it}
    ensures var n := it.value.number;
            job.from <= n < job.to && it.value.hashes == job.body(n)
            && job.Came(ds, job.Past(n)) && rest == multiset(job.Pending(ds, job.Past(n)))
  {
    assert it in multiset(job.Pending(ds, t));
    assert it in job.Pending(ds, t);
    var n := it.value.number;
    var i :| 0 <= i < |ds| && ds[i] == it.value;
    assert Arrived(ds, n);
    WaitsLess(job, ds, t, it);
    assert multiset(job.Pending(ds, t) - {it}) == multiset(job.Pending(ds, t)) - multiset{it};
  }

  /** The block is on the far side of 2^63, as the job goes. Read as signed 64-bit numbers the blocks there come before
      the others, although their turn is later. */
  predicate Late(job: Job, n: Block) {
    if job.down then n < HALF else n > HALF
  }

  /** Of the blocks that wait the queue puts those on the far side first, and on each side goes by turn. */
  lemma RankOrder(job: Job, t: Block, n: Block)
    requires n < WRAP - 1 && job.Waits(t, n) && n != job.Due(t) && (job.down ==> t > 0)
    ensures job.Rank(n) > job.Rank(job.Due(t)) <==> Late(job, n) && !Late(job, job.Due(t))
    ensures Late(job, n) <==> if job.down then n < 0x8000_0000_0000_0000 else n > 0x8000_0000_0000_0000
  {
  }

  /** A delivery that waits keeps the due one from the top of the queue. */
  ghost predicate Overtaken(job: Job, ds: seq<Delivery>, t: Block) {
    exists i :: 0 <= i < |ds| && job.Waits(t, ds[i].number) && Late(job, ds[i].number) && !Late(job, job.Due(t))
  }

  /** In ranges below 2^63 no delivery overtakes. */
  lemma NotOvertaken(job: Job, ds: seq<Delivery>, t: Block)
    requires job.Delivers(ds) && job.to <= 0x8000_0000_0000_0000 && job.from <= t <= job.to && t > 0
    ensures !Overtaken(job, ds, t)
  {
  }

  /** The due block is handed out: the hook lets it, it has come, and no delivery overtakes it. */
  ghost predicate Goes(job: Job, ds: seq<Delivery>, t: Block, hook: Block -> bool) {
    hook(job.Due(t)) && Arrived(ds, job.Due(t)) && !Overtaken(job, ds, t)
  }

  lemma DueWaits(job: Job, ds: seq<Delivery>, t: Block)
    requires job.Delivers(ds) && job.Came(ds, t)
    ensures Arrived(ds, job.Due(t)) ==> exists x :: x in job.Pending(ds, t) && x.priority == job.Rank(job.Due(t))
  {
    if Arrived(ds, job.Due(t)) {
      var i :| 0 <= i < |ds| && ds[i].number == job.Due(t);
      assert Item(ds[i], job.Rank(ds[i].number)) in job.Pending(ds, t);
    }
  }

  /** The first item in the queue is the due one if and only if that has come and is not overtaken. */
  lemma FirstIsDue(job: Job, ds: seq<Delivery>, t: Block, top: Item<Delivery>)
    requires job.Delivers(ds) && job.Came(ds, t)
    requires top in job.Pending(ds, t) && forall x :: x in job.Pending(ds, t) ==> x.priority <= top.priority
    ensures top.priority == job.Rank(job.Due(t)) <==> Arrived(ds, job.Due(t)) && !Overtaken(job, ds, t)
  {
    DueWaits(job, ds, t);
    var i :| 0 <= i < |ds| && ds[i] == top.value;
    if top.priority == job.Rank(job.Due(t)) {
      RankInjective(job, ds[i].number, job.Due(t));
      if Overtaken(job, ds, t) {
        var k :| 0 <= k < |ds| && job.Waits(t, ds[k].number) && Late(job, ds[k].number) && !Late(job, job.Due(t));
        assert Item(ds[k], job.Rank(ds[k].number)) in job.Pending(ds, t);
        RankOrder(job, t, ds[k].number);
      }
    } else if Arrived(ds, job.Due(t)) {
      RankOrder(job, t, ds[i].number);
    }
  }

  lemma NonePending(job: Job, ds: seq<Delivery>, t: Block)
    requires job.Delivers(ds) && job.Came(ds, t) && job.Pending(ds, t) == {}
    ensures !Arrived(ds, job.Due(t))
  {
    DueWaits(job, ds, t);
  }

  /** Takes the due block's delivery from the queue, if it is there and the hook lets it. */
  method TakeDue(queue: Queue<Delivery>, job: Job, t: Block, hook: Block -> bool, ghost ds: seq<Delivery>)
    returns (r: Option<Delivery>)
    requires Queued(queue, job, ds, t)
    modifies queue.cont, queue.cont.blocks
    ensures queue.Valid() && queue.cont.blocks == old(queue.cont.blocks)
    ensures r.None? ==> queue.Contents() == old(queue.Contents())
    ensures r.Some? <==> Goes(job, ds, t, hook)
    ensures r.Some? ==>
              && r.value.number == job.Due(t) && job.from <= r.value.number < job.to
              && r.value.hashes == job.body(r.value.number) && job.Came(ds, job.Past(r.value.number))
              && queue.Contents() == multiset(job.Pending(ds, job.Past(r.value.number)))
              && |queue.Contents()| < |old(queue.Contents())|
  {
    hide Queue.Valid, Queue.Contents;
    ghost var pending := job.Pending(ds, t);
    if queue.Empty() {
      NonePending(job, ds, t);
      return None;
    }
    var top := queue.Peek();
    FirstIsDue(job, ds, t, top);
    if top.priority != job.Rank(job.Due(t)) {
      return None;
    }
    if !hook(job.Due(t)) {
      return None;
    }
    ghost var all := queue.Contents();
    var it := queue.Pop();
    assert it in all && top in all;
    RankIs(job, ds, t, it);
    PendingLess(job, ds, t, it, queue.Contents());
    r := Some(it.value);
  }

  lemma RankIs(job: Job, ds: seq<Delivery>, t: Block, it: Item<Delivery>)
    requires it in job.Pending(ds, t) && it.priority == job.Rank(job.Due(t))
    ensures it.value.number == job.Due(t)
  {
    RankInjective(job, it.value.number, job.Due(t));
  }

  // ---------- How far a job comes ----------

  /** t is no less far than u. */
  ghost predicate NotBefore(job: Job, t: Block, u: Block) {
    if job.down then t <= u else u <= t
  }

  /** Where the job stands after it has handed out what goes at t. */
  ghost function Drained(job: Job, ds: seq<Delivery>, t: Block, hook: Block -> bool): (r: Block)
    requires job.Delivers(ds) && job.Came(ds, t)
    ensures job.Came(ds, r)
    decreases if job.down then t - job.from else job.to - t
  {
    if Goes(job, ds, t, hook) then
      GoesOn(job, ds, t);
      Drained(job, ds, job.Past(job.Due(t)), hook)
    else t
  }

  lemma GoesOn(job: Job, ds: seq<Delivery>, t: Block)
    requires job.Delivers(ds) && job.Came(ds, t) && Arrived(ds, job.Due(t))
    ensures job.from <= job.Due(t) < job.to && job.Came(ds, job.Past(job.Due(t)))
    ensures if job.down then job.Past(job.Due(t)) == t - 1 else job.Past(job.Due(t)) == t + 1
  {
  }

  lemma DeliversFirst(job: Job, ds: seq<Delivery>, k: nat)
    requires job.Delivers(ds) && k <= |ds|
    ensures job.Delivers(ds[..k])
  {
  }

  lemma CameMore(job: Job, ds: seq<Delivery>, k: nat, t: Block)
    requires k < |ds| && job.Came(ds[..k], t)
    ensures job.Came(ds[..k + 1], t)
  {
    forall n: Block | Arrived(ds[..k], n) ensures Arrived(ds[..k + 1], n) {
      var i :| 0 <= i < k && ds[..k][i].number == n;
      assert ds[..k + 1][i].number == n;
    }
  }

  /** Where it stands after the first k deliveries. */
  ghost function Stands(job: Job, ds: seq<Delivery>, k: nat, hook: Block -> bool): (t: Block)
    requires job.Delivers(ds) && k <= |ds| && job.from <= job.to
    ensures job.Came(ds[..k], t)
  {
    if k == 0 then job.Start() else Moved(job, ds, k, Stands(job, ds, k - 1, hook), hook)
  }

  /** Where a job that stood at t stands after delivery k. */
  ghost function Moved(job: Job, ds: seq<Delivery>, k: nat, t: Block, hook: Block -> bool): (r: Block)
    requires job.Delivers(ds) && 0 < k <= |ds| && job.Came(ds[..k - 1], t)
    ensures job.Came(ds[..k], r)
  {
    DeliversFirst(job, ds, k);
    CameMore(job, ds, k - 1, t);
    Drained(job, ds[..k], t, hook)
  }

  lemma DrainedStep(job: Job, ds: seq<Delivery>, t: Block, hook: Block -> bool)
    requires job.Delivers(ds) && job.Came(ds, t)
    ensures if Goes(job, ds, t, hook)
            then job.Came(ds, job.Past(job.Due(t)))
                 && Drained(job, ds, t, hook) == Drained(job, ds, job.Past(job.Due(t)), hook)
            else Drained(job, ds, t, hook) == t
  {
    hide Job.Delivers, Job.Came;
    if Goes(job, ds, t, hook) {
      GoesOn(job, ds, t);
    }
  }

  lemma {:induction false} DrainedFacts(job: Job, ds: seq<Delivery>, t: Block, hook: Block -> bool)
    requires job.Delivers(ds) && job.Came(ds, t)
    ensures var r := Drained(job, ds, t, hook); NotBefore(job, r, t) && !Goes(job, ds, r, hook)
    decreases if job.down then t - job.from else job.to - t
  {
    hide Job.Delivers, Job.Came;
    if Goes(job, ds, t, hook) {
      GoesOn(job, ds, t);
      DrainedFacts(job, ds, job.Past(job.Due(t)), hook);
    }
  }

  lemma StandsFacts(job: Job, ds: seq<Delivery>, k: nat, hook: Block -> bool)
    requires job.Delivers(ds) && 0 < k <= |ds| && job.from <= job.to
    ensures var t := Stands(job, ds, k, hook);
            !Goes(job, ds[..k], t, hook) && NotBefore(job, t, Stands(job, ds, k - 1, hook))
  {
    hide Job.Delivers, Job.Came, Goes, Drained;
    var t := Stands(job, ds, k - 1, hook);
    DeliversFirst(job, ds, k);
    CameMore(job, ds, k - 1, t);
    DrainedFacts(job, ds[..k], t, hook);
  }

  /** A block of the far side is delivered before one of the near side. */
  ghost predicate Inverted(job: Job, ds: seq<Delivery>, p: nat, q: nat) {
    p < q < |ds| && Late(job, ds[p].number) && !Late(job, ds[q].number)
  }

  /** Then the job stops for good at the first of them, before the second has its turn. */
  lemma {:induction false} Stuck(job: Job, ds: seq<Delivery>, hook: Block -> bool, p: nat, q: nat, k: nat)
    requires job.Delivers(ds) && job.from <= job.to && Inverted(job, ds, p, q) && p <= k <= |ds|
    ensures Stands(job, ds, k, hook) == Stands(job, ds, p, hook)
    ensures job.Waits(Stands(job, ds, k, hook), ds[q].number)
  {
    hide Job.Delivers, Job.Came, Job.Waits, Goes, Overtaken, Drained, Late;
    if k == p {
      NotYet(job, ds, p, q, Stands(job, ds, p, hook));
    } else {
      Stuck(job, ds, hook, p, q, k - 1);
      var t := Stands(job, ds, k - 1, hook);
      NotYet(job, ds, p, p, t);
      StaysOvertaken(job, ds, t, p, q, k);
      DeliversFirst(job, ds, k);
      CameMore(job, ds, k - 1, t);
      NotDrained(job, ds[..k], t, hook);
    }
  }

  lemma StaysOvertaken(job: Job, ds: seq<Delivery>, t: Block, p: nat, q: nat, k: nat)
    requires Inverted(job, ds, p, q) && p < k <= |ds| && job.Waits(t, ds[p].number) && job.Waits(t, ds[q].number)
    ensures Overtaken(job, ds[..k], t)
  {
    assert ds[..k][p] == ds[p];
  }

  lemma NotDrained(job: Job, ds: seq<Delivery>, t: Block, hook: Block -> bool)
    requires job.Delivers(ds) && job.Came(ds, t) && Overtaken(job, ds, t)
    ensures Drained(job, ds, t, hook) == t
  {
    hide Overtaken, Job.Delivers, Job.Came;
  }

  /** A block that has not been delivered has not had its turn. */
  lemma NotYet(job: Job, ds: seq<Delivery>, p: nat, q: nat, t: Block)
    requires job.Delivers(ds) && p <= q < |ds| && job.Came(ds[..p], t)
    ensures job.Waits(t, ds[q].number)
  {
  }

  ghost predicate Complete(job: Job, ds: seq<Delivery>, hook: Block -> bool) {
    forall n: Block :: job.from <= n < job.to ==> Arrived(ds, n) && hook(n)
  }

  /** Without an inversion, when the first block of the far side comes the job is through with the near side. */
  lemma {:induction false} NearSideFirst(job: Job, ds: seq<Delivery>, hook: Block -> bool, k: nat)
    requires job.Delivers(ds) && job.from < job.to && k <= |ds| && Complete(job, ds, hook)
    requires forall p, q :: !Inverted(job, ds, p, q)
    ensures var t := Stands(job, ds, k, hook);
            || (forall i :: 0 <= i < k ==> !Late(job, ds[i].number))
            || Late(job, job.Due(t)) || t == job.End()
  {
    hide Job.Delivers, Job.Came, Goes, Stands, Complete;
    if k > 0 {
      NearSideFirst(job, ds, hook, k - 1);
      StandsFacts(job, ds, k, hook);
      InRange(job, ds, k, hook);
      InRange(job, ds, k - 1, hook);
      if Late(job, ds[k - 1].number) && forall i :: 0 <= i < k - 1 ==> !Late(job, ds[i].number) {
        NearSideDone(job, ds, hook, k - 1);
      } else if !Late(job, ds[k - 1].number) {
        forall i | 0 <= i < k - 1 ensures !Late(job, ds[i].number) {
          assert !Inverted(job, ds, i, k - 1);
        }
      }
    }
  }

  lemma InRange(job: Job, ds: seq<Delivery>, k: nat, hook: Block -> bool)
    requires job.Delivers(ds) && k <= |ds| && job.from <= job.to
    ensures job.from <= Stands(job, ds, k, hook) <= job.to
  {
  }

  lemma NearGoes(job: Job, ds: seq<Delivery>, k: nat, t: Block, hook: Block -> bool, q: nat)
    requires q < k <= |ds| && ds[q].number == job.Due(t) && hook(job.Due(t))
    requires forall i :: 0 <= i < k ==> !Late(job, ds[i].number)
    ensures Goes(job, ds[..k], t, hook)
  {
    assert ds[..k][q].number == job.Due(t);
  }

  lemma NearSideDone(job: Job, ds: seq<Delivery>, hook: Block -> bool, k: nat)
    requires job.Delivers(ds) && job.from < job.to && k < |ds| && Complete(job, ds, hook) && Late(job, ds[k].number)
    requires forall i :: 0 <= i < k ==> !Late(job, ds[i].number)
    requires forall p, q :: !Inverted(job, ds, p, q)
    ensures var t := Stands(job, ds, k, hook); Late(job, job.Due(t)) || t == job.End()
  {
    hide Job.Delivers, Job.Came, Stands, Goes, Overtaken;
    var t := Stands(job, ds, k, hook);
    InRange(job, ds, k, hook);
    if t != job.End() && !Late(job, job.Due(t)) {
      assert Arrived(ds, job.Due(t));
      var q :| 0 <= q < |ds| && ds[q].number == job.Due(t);
      assert !Inverted(job, ds, k, q);
      assert q < k;
      StandsFacts(job, ds, k, hook);
      NearGoes(job, ds, k, t, hook, q);
    }
  }

  /** A job whose blocks are all delivered and let by the hook comes to its end if and only if no block of the far side
      is delivered before one of the near side. */
  lemma ComesToEnd(job: Job, ds: seq<Delivery>, hook: Block -> bool)
    requires job.Delivers(ds) && job.from < job.to && Complete(job, ds, hook)
    ensures Stands(job, ds, |ds|, hook) == job.End() <==> forall p, q :: !Inverted(job, ds, p, q)
  {
    hide Job.Delivers, Job.Came, Stands, Complete, Job.Waits, Goes;
    var t := Stands(job, ds, |ds|, hook);
    if forall p, q :: !Inverted(job, ds, p, q) {
      NearSideFirst(job, ds, hook, |ds|);
      FarSideDone(job, ds, hook);
    } else {
      var p, q :| Inverted(job, ds, p, q);
      Stuck(job, ds, hook, p, q, |ds|);
      Waiting(job, ds, q, t);
    }
  }

  lemma Waiting(job: Job, ds: seq<Delivery>, q: nat, t: Block)
    requires job.Delivers(ds) && q < |ds| && job.Waits(t, ds[q].number)
    ensures t != job.End()
  {
  }

  lemma FarSideDone(job: Job, ds: seq<Delivery>, hook: Block -> bool)
    requires job.Delivers(ds) && job.from < job.to && Complete(job, ds, hook)
    requires var t := Stands(job, ds, |ds|, hook);
      || (forall i :: 0 <= i < |ds| ==> !Late(job, ds[i].number))
      || Late(job, job.Due(t)) || t == job.End()
    ensures Stands(job, ds, |ds|, hook) == job.End()
  {
    hide Job.Delivers, Job.Came, Stands;
    var t := Stands(job, ds, |ds|, hook);
    InRange(job, ds, |ds|, hook);
    assert Arrived(ds, job.from);
    StandsFacts(job, ds, |ds|, hook);
    assert ds[..|ds|] == ds;
  }

  // ---------- The loops ----------

  /** Every database written is exact, and none goes back behind an earlier one. */
  ghost predicate Faithful(job: Job, written: seq<Db>) {
    && (forall i :: 0 <= i < |written| ==> job.Exact(written[i]))
    && (forall i, j :: 0 <= i < j < |written| ==> NotBefore(job, written[j].tail.value, written[i].tail.value))
  }

  /** At t the batch on top of the database makes the index right, and what was written is faithful. */
  ghost predicate Running(job: Job, t: Block, db: Db, batch: seq<Op>, written: seq<Db>) {
    && job.from <= t <= job.to && ApplyAll(db, batch).lookup == job.Done(t) && Faithful(job, written)
    && (written == [] || (db == written[|written| - 1] && NotBefore(job, t, db.tail.value)))
  }

  /** Writes the batch with the tail. */
  method Flush(job: Job, t: Block, db: Db, batch: seq<Op>, written: seq<Db>) returns (db': Db, written': seq<Db>)
    requires Running(job, t, db, batch, written)
    ensures Running(job, t, db', [], written') && written' == written + [db'] && db'.tail == Some(t)
  {
    ApplyAppend(db, batch, Tail(t));
    db' := Write(db, batch + [Tail(t)]);
    written' := written + [db'];
  }

  /** The entries of the blocks from hi - 1 down to lo. */
  ghost function AllPuts(body: Block -> seq<Hash>, lo: Block, hi: Block): seq<Op>
    requires lo <= hi
    decreases hi - lo
  {
    if lo == hi then [] else AllPuts(body, lo + 1, hi) + Puts(body(lo), lo)
  }

  /** The tail before write k. */
  ghost function TailBefore(job: Job, written: seq<Db>, k: nat): Block
    requires k <= |written| && forall i :: 0 <= i < |written| ==> written[i].tail.Some?
  {
    if k == 0 then job.to else written[k - 1].tail.value
  }

  /** Write k took the entries since the one before it, which had become too large with the last block and not
      before. */
  ghost predicate Filled(job: Job, written: seq<Db>, k: nat, valueSize: seq<Op> -> nat)
    requires k < |written| && forall i :: 0 <= i < |written| ==> written[i].tail.Some?
  {
    var lo, hi := written[k].tail.value, TailBefore(job, written, k);
    && lo < hi && valueSize(AllPuts(job.body, lo, hi)) > 102400
    && (AllPuts(job.body, lo + 1, hi) == [] || valueSize(AllPuts(job.body, lo + 1, hi)) <= 102400)
  }

  /** The batch holds the entries since the last write and is not too large, and no write was made before it was. */
  ghost predicate Sized(job: Job, t: Block, batch: seq<Op>, written: seq<Db>, valueSize: seq<Op> -> nat) {
    && (forall i :: 0 <= i < |written| ==> written[i].tail.Some?)
    && t <= TailBefore(job, written, |written|)
    && batch == AllPuts(job.body, t, TailBefore(job, written, |written|))
    && (batch == [] || valueSize(batch) <= 102400)
    && (forall k :: 0 <= k < |written| ==> Filled(job, written, k, valueSize))
  }

  /** One block more. */
  lemma SizedMore(job: Job, t: Block, batch: seq<Op>, written: seq<Db>, valueSize: seq<Op> -> nat)
    requires t > 0 && Sized(job, t, batch, written, valueSize)
    ensures var all := batch + Puts(job.body(t - 1), t - 1);
            && all == AllPuts(job.body, t - 1, TailBefore(job, written, |written|))
            && (valueSize(all) <= 102400 ==> Sized(job, t - 1, all, written, valueSize))
            && (valueSize(all) > 102400 ==>
                  forall db: Db :: db.tail == Some(t - 1) ==> Sized(job, t - 1, [], written + [db], valueSize))
  {
    hide Filled;
    var all := batch + Puts(job.body(t - 1), t - 1);
    if valueSize(all) > 102400 {
      forall db: Db | db.tail == Some(t - 1) ensures Sized(job, t - 1, [], written + [db], valueSize) {
        FilledMore(job, t, batch, written, db, valueSize);
      }
    }
  }

  lemma FilledMore(job: Job, t: Block, batch: seq<Op>, written: seq<Db>, db: Db, valueSize: seq<Op> -> nat)
    requires t > 0 && Sized(job, t, batch, written, valueSize) && db.tail == Some(t - 1)
    requires valueSize(AllPuts(job.body, t - 1, TailBefore(job, written, |written|))) > 102400
    ensures forall k :: 0 <= k <= |written| ==> Filled(job, written + [db], k, valueSize)
  {
    var written' := written + [db];
    forall k | 0 <= k <= |written| ensures Filled(job, written', k, valueSize) {
      assert TailBefore(job, written', k) == TailBefore(job, written, k);
      if k < |written| {
        assert written'[k] == written[k] && Filled(job, written, k, valueSize);
      }
    }
  }

  lemma SizedStart(job: Job, valueSize: seq<Op> -> nat)
    ensures Sized(job, job.to, [], [], valueSize)
  {
  }

  lemma SizedFirst(job: Job, t: Block, batch: seq<Op>, written: seq<Db>, db: Db, valueSize: seq<Op> -> nat)
    requires Sized(job, t, batch, written, valueSize) && db.tail.Some?
    ensures forall k :: 0 <= k <= |written| ==> (written + [db])[k].tail.Some?
    ensures forall k :: 0 <= k < |written| ==> Filled(job, written + [db], k, valueSize)
  {
    var written' := written + [db];
    forall k | 0 <= k < |written| ensures Filled(job, written', k, valueSize) {
      assert Filled(job, written, k, valueSize) && TailBefore(job, written', k) == TailBefore(job, written, k);
    }
  }

  method IndexBlock(job: Job, d: Delivery, t: Block, db: Db, batch: seq<Op>, written: seq<Db>,
      valueSize: seq<Op> -> nat)
    returns (db': Db, batch': seq<Op>, written': seq<Db>)
    requires job.down && Running(job, t, db, batch, written)
    requires d.number == job.Due(t) && job.from <= d.number < job.to && d.hashes == job.body(d.number)
    ensures Running(job, d.number, db', batch', written')
    ensures Sized(job, t, batch, written, valueSize) ==> Sized(job, d.number, batch', written', valueSize)
    ensures if valueSize(batch + Puts(d.hashes, d.number)) > 102400
            then batch' == [] && written' == written + [db']
            else batch' == batch + Puts(d.hashes, d.number) && written' == written && db' == db
  {
    hide ApplyAll, Faithful, Sized, AllPuts;
    if Sized(job, t, batch, written, valueSize) { SizedMore(job, t, batch, written, valueSize); }
    db', written' := db, written;
    batch' := WriteEntries(batch, d.number, d.hashes, db);
    if valueSize(batch') > IDEAL_BATCH_SIZE {
      db', written' := Flush(job, d.number, db, batch', written);
      batch' := [];
    }
  }

  /** Blocks are counted from the start, and a write was made after each thousand. */
  ghost predicate Counted(job: Job, t: Block, blocks: nat, written: seq<Db>) {
    && t == job.from + blocks && |written| == blocks / 1000
    && forall k :: 0 <= k < |written| ==>
         written[k].tail.Some? && written[k].tail.value == job.from + 1000 * (k + 1)
  }

  lemma CountedMore(job: Job, t: Block, blocks: nat, written: seq<Db>, written': seq<Db>)
    requires blocks > 0 && t < WRAP - 1 && Counted(job, t, blocks - 1, written)
    requires if blocks % 1000 == 0
             then |written'| == |written| + 1 && written'[..|written|] == written
                  && written'[|written|].tail == Some(t + 1)
             else written' == written
    ensures Counted(job, t + 1, blocks, written')
  {
    if blocks % 1000 == 0 {
      assert forall k :: 0 <= k < |written| ==> written'[k] == written'[..|written|][k];
    }
  }

  method UnindexBlock(job: Job, d: Delivery, t: Block, db: Db, batch: seq<Op>, written: seq<Db>, blocks: nat)
    returns (db': Db, batch': seq<Op>, written': seq<Db>)
    requires !job.down && Running(job, t, db, batch, written)
    requires d.number == job.Due(t) && job.from <= d.number < job.to && d.hashes == job.body(d.number)
    ensures Running(job, job.Past(d.number), db', batch', written')
    ensures if blocks % 1000 == 0
            then batch' == [] && written' == written + [db'] && db'.tail == Some(job.Past(d.number))
            else written' == written && db' == db
  {
    hide ApplyAll, Faithful;
    db', written' := db, written;
    batch' := DeleteEntries(batch, d.hashes, db);
    if blocks % 1000 == 0 {
      db', written' := Flush(job, job.Past(d.number), db, batch', written);
      batch' := [];
    }
  }

  /** The queue holds what has been delivered and has not had its turn. */
  ghost predicate Queued(queue: Queue<Delivery>, job: Job, ds: seq<Delivery>, t: Block)
    reads queue.cont, queue.cont.blocks, queue.cont.index
  {
    && queue.Valid() && queue.cont.index == null && job.Delivers(ds) && job.Came(ds, t)
    && queue.Contents() == multiset(job.Pending(ds, t))
  }

  lemma RunningFaithful(job: Job, t: Block, db: Db, batch: seq<Op>, written: seq<Db>)
    requires Running(job, t, db, batch, written)
    ensures Faithful(job, written)
  {
  }

  lemma Begin(queue: Queue<Delivery>, job: Job, db: Db, t: Block)
    requires queue.Valid() && queue.cont.index == null && queue.Contents() == multiset{}
    requires db.lookup == job.lookup && job.from < job.to && t == job.Start()
    ensures Running(job, t, db, [], []) && Queued(queue, job, [], t)
  {
    assert job.Pending([], t) == {};
  }

  /** Indexes the blocks whose turn has come. */
  method DrainIndex(queue: Queue<Delivery>, job: Job, last0: Block, db0: Db, batch0: seq<Op>, written0: seq<Db>,
              hook: Block -> bool, valueSize: seq<Op> -> nat, ghost ds: seq<Delivery>)
    returns (last: Block, db: Db, batch: seq<Op>, written: seq<Db>)
    requires job.down && Running(job, last0, db0, batch0, written0) && Queued(queue, job, ds, last0)
    requires Sized(job, last0, batch0, written0, valueSize)
    modifies queue.cont, queue.cont.blocks
    ensures Running(job, last, db, batch, written) && Queued(queue, job, ds, last)
    ensures Sized(job, last, batch, written, valueSize)
    ensures job.Delivers(ds) && job.Came(ds, last0) && last == Drained(job, ds, last0, hook)
    ensures queue.cont.blocks == old(queue.cont.blocks)
  {
    hide Running, Queue.Valid, Queue.Contents, Drained, Goes, Sized, Job.Pending, Job.Delivers;
    last, db, batch, written := last0, db0, batch0, written0;
    while true
      invariant Running(job, last, db, batch, written) && Queued(queue, job, ds, last)
      invariant Sized(job, last, batch, written, valueSize)
      invariant Drained(job, ds, last, hook) == Drained(job, ds, last0, hook)
      invariant queue.cont.blocks == old(queue.cont.blocks)
      decreases |queue.Contents()|
    {
      var d := TakeDue(queue, job, last, hook, ds);
      DrainedStep(job, ds, last, hook);
      if d.None? {
        break;
      }
      db, batch, written := IndexBlock(job, d.value, last, db, batch, written, valueSize);
      last := d.value.number;
    }
  }

  /** Writes lookups for the blocks of from..to-1, downwards; returns the database after each write. */
  method Index(db0: Db, body: Block -> seq<Hash>, from: Block, to: Block, deliveries: seq<Delivery>,
               hook: Block -> bool, valueSize: seq<Op> -> nat) returns (written: seq<Db>)
    requires Job(true, db0.lookup, body, from, to).Delivers(deliveries)
    ensures from >= to ==> written == []
    ensures from < to ==>
              var job := Job(true, db0.lookup, body, from, to);
              Faithful(job, written) && written != []
              && written[|written| - 1].tail == Some(Stands(job, deliveries, |deliveries|, hook))
              && (forall k :: 0 <= k < |written| ==> written[k].tail.Some?)
              && (forall k :: 0 <= k < |written| - 1 ==> Filled(job, written, k, valueSize))
  {
    hide Running, Queued, Queue.Valid, Queue.Contents, Faithful, Drained, Job.Came, Sized, Filled;
    written := [];
    if from >= to {
      return;
    }
    var job := Job(true, db0.lookup, body, from, to);
    var queue := new Queue<Delivery>(null);
    var last, db, batch := to, db0, [];
    Begin(queue, job, db0, last);
    SizedStart(job, valueSize);
    for i := 0 to |deliveries|
      invariant Running(job, last, db, batch, written) && Queued(queue, job, deliveries[..i], last)
      invariant last == Stands(job, deliveries, i, hook) && fresh(queue.cont)
      invariant Sized(job, last, batch, written, valueSize)
      invariant forall k :: 0 <= k < |queue.cont.blocks| ==> fresh(queue.cont.blocks[k])
    {
      Enqueue(queue, job, deliveries, i, last);
      last, db, batch, written :=
        DrainIndex(queue, job, last, db, batch, written, hook, valueSize, deliveries[..i + 1]);
    }
    assert deliveries[..|deliveries|] == deliveries;
    ghost var before := written;
    db, written := Flush(job, last, db, batch, written);
    SizedFirst(job, last, batch, before, db, valueSize);
    RunningFaithful(job, last, db, [], written);
  }

  /** Unindexes the blocks whose turn has come. */
  method DrainUnindex(queue: Queue<Delivery>, job: Job, next0: Block, db0: Db, batch0: seq<Op>, written0: seq<Db>,
              hook: Block -> bool, blocks0: nat, ghost ds: seq<Delivery>)
    returns (next: Block, db: Db, batch: seq<Op>, written: seq<Db>, blocks: nat)
    requires !job.down && Running(job, next0, db0, batch0, written0) && Queued(queue, job, ds, next0)
    requires Counted(job, next0, blocks0, written0)
    modifies queue.cont, queue.cont.blocks
    ensures Running(job, next, db, batch, written) && Queued(queue, job, ds, next)
    ensures Counted(job, next, blocks, written)
    ensures job.Delivers(ds) && job.Came(ds, next0) && next == Drained(job, ds, next0, hook)
    ensures queue.cont.blocks == old(queue.cont.blocks)
  {
    hide Running, Queue.Valid, Queue.Contents, Drained, Goes, Counted, Job.Pending, Job.Delivers;
    next, db, batch, written := next0, db0, batch0, written0;
    blocks := blocks0;
    while true
      invariant Running(job, next, db, batch, written) && Queued(queue, job, ds, next)
      invariant Counted(job, next, blocks, written)
      invariant Drained(job, ds, next, hook) == Drained(job, ds, next0, hook)
      invariant queue.cont.blocks == old(queue.cont.blocks)
      decreases |queue.Contents()|
    {
      var d := TakeDue(queue, job, next, hook, ds);
      DrainedStep(job, ds, next, hook);
      if d.None? {
        break;
      }
      blocks := blocks + 1;
      ghost var before := written;
      db, batch, written := UnindexBlock(job, d.value, next, db, batch, written, blocks);
      CountedMore(job, next, blocks, before, written);
      next := Inc(d.value.number);
    }
  }

  /** Removes the lookups of the blocks of from..to-1, upwards; returns the database after each write. */
  method Unindex(db0: Db, body: Block -> seq<Hash>, from: Block, to: Block, deliveries: seq<Delivery>,
               hook: Block -> bool) returns (written: seq<Db>)
    requires Job(false, db0.lookup, body, from, to).Delivers(deliveries)
    ensures from >= to ==> written == []
    ensures from < to ==>
              var job := Job(false, db0.lookup, body, from, to);
              Faithful(job, written) && written != []
              && written[|written| - 1].tail == Some(Stands(job, deliveries, |deliveries|, hook))
              && |written| == (Stands(job, deliveries, |deliveries|, hook) - from) / 1000 + 1
              && forall k :: 0 <= k < |written| - 1 ==>
                   written[k].tail.Some? && written[k].tail.value == from + 1000 * (k + 1)
  {
    hide Running, Queued, Queue.Valid, Queue.Contents, Faithful, Drained, Job.Came;
    written := [];
    if from >= to {
      return;
    }
    var job := Job(false, db0.lookup, body, from, to);
    var queue := new Queue<Delivery>(null);
    var next, db, batch := from, db0, [];
    var blocks := 0;
    Begin(queue, job, db0, next);
    for i := 0 to |deliveries|
      invariant Running(job, next, db, batch, written) && Queued(queue, job, deliveries[..i], next)
      invariant next == Stands(job, deliveries, i, hook) && fresh(queue.cont)
      invariant Counted(job, next, blocks, written)
      invariant forall k :: 0 <= k < |queue.cont.blocks| ==> fresh(queue.cont.blocks[k])
    {
      Enqueue(queue, job, deliveries, i, next);
      next, db, batch, written, blocks :=
        DrainUnindex(queue, job, next, db, batch, written, hook, blocks, deliveries[..i + 1]);
    }
    assert deliveries[..|deliveries|] == deliveries;
    db, written := Flush(job, next, db, batch, written);
    RunningFaithful(job, next, db, [], written);
  }

  method Enqueue(queue: Queue<Delivery>, job: Job, deliveries: seq<Delivery>, i: nat, ghost t: Block)
    requires i < |deliveries| && job.Delivers(deliveries) && Queued(queue, job, deliveries[..i], t)
    modifies queue.cont, queue.cont.blocks
    ensures Queued(queue, job, deliveries[..i + 1], t)
    ensures forall k :: 0 <= k < |queue.cont.blocks| ==>
              queue.cont.blocks[k] in old(queue.cont.blocks) || fresh(queue.cont.blocks[k])
  {
    hide Queue.Valid, Queue.Contents, Job.Pending, Job.Came, Job.Rank;
    assert deliveries[..i + 1] == deliveries[..i] + [deliveries[i]];
    PendingMore(job, deliveries[..i], deliveries[i], t);
    queue.Push(deliveries[i], job.Rank(deliveries[i].number));
  }

  /** Both blocks around 2^63 are delivered, the lower one first, and none is indexed. */
  method NoneIndexed(db0: Db, body: Block -> seq<Hash>, valueSize: seq<Op> -> nat)
    returns (ds: seq<Delivery>, written: seq<Db>)
    ensures Complete(Job(true, db0.lookup, body, 0x7FFF_FFFF_FFFF_FFFF, 0x8000_0000_0000_0001), ds, _ => true)
    ensures written != [] && written[|written| - 1] == Db(db0.lookup, Some(0x8000_0000_0000_0001))
  {
    hide Drained, Goes;
    var from: Block, to: Block := HALF - 1, HALF + 1;
    ghost var job := Job(true, db0.lookup, body, from, to);
    ds := [Delivery(HALF - 1, body(HALF - 1)), Delivery(HALF, body(HALF))];
    assert ds[0].number == HALF - 1 && ds[1].number == HALF;
    Stuck(job, ds, _ => true, 0, 1, 2);
    written := Index(db0, body, from, to, ds, _ => true, valueSize);
    assert job.Exact(written[|written| - 1]);
  }

  /** The same upwards. */
  method NoneUnindexed(db0: Db, body: Block -> seq<Hash>) returns (ds: seq<Delivery>, written: seq<Db>)
    ensures Complete(Job(false, db0.lookup, body, 0x8000_0000_0000_0000, 0x8000_0000_0000_0002), ds, _ => true)
    ensures written != [] && written[|written| - 1] == Db(db0.lookup, Some(0x8000_0000_0000_0000))
  {
    hide Drained, Goes;
    var from: Block, to: Block := HALF, HALF + 2;
    ghost var job := Job(false, db0.lookup, body, from, to);
    ds := [Delivery(HALF + 1, body(HALF + 1)), Delivery(HALF, body(HALF))];
    assert ds[0].number == HALF + 1 && ds[1].number == HALF;
    Stuck(job, ds, _ => true, 0, 1, 2);
    written := Unindex(db0, body, from, to, ds, _ => true);
    assert job.Exact(written[|written| - 1]);
  }
}
