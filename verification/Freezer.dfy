/** A freezer: several tables that always hold the same item numbers. */
module Freezer {
  import opened Bytes
  import opened FreezerIndex
  import opened FreezerDisk
  import opened FreezerTable
  import opened FreezerBatch

  /** One append a write callback makes: the table, the item number it claims, and the item. */
  datatype Append = Append(kind: nat, num: nat, blob: Blob)

  /** What a table with history h holds after the appends, if none of them is undone: an append
      to it takes effect when it claims the next number. */
  ghost function Written(ops: seq<Append>, kind: nat, h: seq<Blob>): seq<Blob> {
    if ops == [] then h else
      var before := Written(ops[..|ops| - 1], kind, h);
      var op := ops[|ops| - 1];
      if op.kind == kind && op.num == |before| then before + [op.blob] else before
  }

  /** One table's part of a write: what the table showed before, all items with those given to it, where they
      lie or are going to, and how many are on disk. */
  datatype Draft = Draft(start: View, all: seq<Blob>, lies: Layout, load: Load)

  ghost predicate Whole(d: Draft) {
    && Sound(d.start) && d.start.items <= d.all
    && |d.start.items| <= d.load.flushed <= |d.all| && d.load.bytes <= d.lies.size
    && |d.lies.es| == |d.start.lies.es| + |d.all| - |d.start.items| && d.start.lies.es <= d.lies.es
  }

  ghost function Taken(d: Draft, op: Append, kind: nat, max: nat): Draft {
    if op.kind == kind && op.num == |d.all| then
      Draft(d.start, d.all + [op.blob], Place(d.lies, |op.blob|, max),
            Loaded(d.load, |d.all|, d.lies.size, |op.blob|, max))
    else d
  }

  function Begun(v: View): Draft {
    Draft(v, v.items, v.lies, Load(|v.items|, 0))
  }

  /** A table's part of the write that makes the appends. */
  ghost function TakenAll(v: View, ops: seq<Append>, kind: nat, max: nat): (d: Draft)
    requires Sound(v)
    ensures Whole(d) && d.start == v
    ensures d.all == Written(ops, kind, v.items) && |d.all| <= |v.items| + |ops| && v.lies.head <= d.lies.head
  {
    if ops == [] then Begun(v) else Taken(TakenAll(v, ops[..|ops| - 1], kind, max), ops[|ops| - 1], kind, max)
  }

  lemma {:induction false} TakenGrows(v: View, ops: seq<Append>, kind: nat, max: nat, k: nat)
    requires Sound(v) && k <= |ops|
    ensures TakenAll(v, ops[..k], kind, max).lies.head <= TakenAll(v, ops, kind, max).lies.head
    decreases |ops|
  {
    if k == |ops| {
      assert ops[..k] == ops;
    } else {
      TakenGrows(v, ops[..|ops| - 1], kind, max, k);
      assert ops[..|ops| - 1][..k] == ops[..k];
    }
  }

  lemma WholePrefix(ds: seq<Draft>)
    requires forall i :: 0 <= i < |ds| ==> Whole(ds[i])
    ensures forall i :: 0 <= i < |ds| ==> ds[i].start.items <= ds[i].all
  {
  }

  /** What a table shows when its part of a write is committed. */
  function Finished(d: Draft): View {
    View(d.all, d.start.hidden, d.lies)
  }

  /** What a table shows when its part of a write is undone: what it showed before, if what went to disk since can be
      cut off again; else all that is on disk. */
  ghost function Left(d: Draft): (v: View)
    requires Whole(d)
    ensures Sound(v) && v.hidden == d.start.hidden && d.start.items <= v.items <= d.all
  {
    var on := OnDisk(d.lies, |d.all|, d.load);
    if d.start.hidden <= |d.start.items| < d.load.flushed
    then View(d.start.items, d.start.hidden, KeepBelow(on, |d.start.items|))
    else View(d.all[..d.load.flushed], d.start.hidden, on)
  }

  /** Undoing leaves the items from before if and only if none of them is hidden that would be cut off, or nothing has
      gone to disk. */
  ghost predicate Undoable(d: Draft) {
    d.start.hidden <= |d.start.items| || d.load.flushed == |d.start.items|
  }

  lemma LeftSame(d: Draft)
    requires Whole(d)
    ensures Left(d).items == d.start.items <==> Undoable(d)
    ensures !Undoable(d) ==> Left(d).items == d.all[..d.load.flushed]
  {
    assert d.all[..|d.start.items|] == d.start.items;
  }

  /** A write whose callback succeeds takes effect when its parts end at the same item. */
  ghost predicate Even(ds: seq<Draft>) {
    forall i, j :: 0 <= i < |ds| && 0 <= j < |ds| ==> |ds[i].all| == |ds[j].all|
  }

  /** Nothing of a write that began at n items has gone to disk. */
  ghost predicate Unflushed(ds: seq<Draft>, n: nat) {
    forall i :: 0 <= i < |ds| ==> ds[i].load.flushed == n
  }

  ghost function HeadsCut(vs: seq<View>, n: nat): (cut: seq<View>)
    requires forall i :: 0 <= i < |vs| ==> Sound(vs[i])
    ensures |cut| == |vs|
    ensures forall i :: 0 <= i < |vs| ==> cut[i] == HeadCut(vs[i], n)
  {
    seq(|vs|, i requires 0 <= i < |vs| => HeadCut(vs[i], n))
  }

  ghost function TailsCut(vs: seq<View>, n: nat): (cut: seq<View>)
    requires forall i :: 0 <= i < |vs| ==> Sound(vs[i])
    ensures |cut| == |vs|
    ensures forall i :: 0 <= i < |vs| ==> cut[i] == TailCut(vs[i], n)
  {
    seq(|vs|, i requires 0 <= i < |vs| => TailCut(vs[i], n))
  }

  function Least(s: seq<nat>): (m: nat)
    requires s != []
    ensures m in s && forall i :: 0 <= i < |s| ==> m <= s[i]
  {
    if |s| == 1 then s[0] else
      var m := Least(s[..|s| - 1]);
      assert forall i :: 0 <= i < |s| - 1 ==> s[..|s| - 1][i] == s[i];
      if s[|s| - 1] < m then s[|s| - 1] else m
  }

  function Greatest(s: seq<nat>): (m: nat)
    requires s != []
    ensures m in s && forall i :: 0 <= i < |s| ==> s[i] <= m
  {
    if |s| == 1 then s[0] else
      var m := Greatest(s[..|s| - 1]);
      assert forall i :: 0 <= i < |s| - 1 ==> s[..|s| - 1][i] == s[i];
      if s[|s| - 1] > m then s[|s| - 1] else m
  }

  predicate Same(s: seq<nat>) {
    forall i, j :: 0 <= i < |s| && 0 <= j < |s| ==> s[i] == s[j]
  }

  ghost predicate Agree(vs: seq<View>, head: nat, top: nat) {
    forall i :: 0 <= i < |vs| ==> |vs[i].items| == head && vs[i].hidden == top
  }

  class Freezer {
    var frozen: nat
    var tail: nat

    /** The tables, in some order; a table's kind is its place in it. */
    const tables: seq<Table>
    var batches: seq<TableBatch>

    ghost predicate Apart()
      reads this
    {
      && |batches| == |tables|
      && (forall i :: 0 <= i < |tables| ==> batches[i].t == tables[i])
      && (forall i, j :: 0 <= i < j < |tables| ==> batches[i] != batches[j])
    }

    ghost predicate Distinct()
      reads this
    {
      forall i, j :: 0 <= i < j < |tables| ==> tables[i] != tables[j]
    }

    /** Table i is open and shows v. */
    ghost predicate Shows(i: nat, v: View)
      requires i < |tables|
      reads tables[i]
    {
      && tables[i].Valid()
      && tables[i].maxFileSize < 0x1_0000_0000
      && ViewOf(tables[i]) == v
      && tables[i].items == |v.items|
      && Sound(v)
    }

    lemma ShowsFacts(i: nat, v: View)
      requires i < |tables| && Shows(i, v)
      ensures ViewOf(tables[i]) == v && tables[i].items == |v.items| && tables[i].itemHidden == v.hidden && Sound(v)
      ensures tables[i].Valid() && tables[i].maxFileSize < 0x1_0000_0000
    {
    }

    /** What all tables show. */
    ghost function Views(): (vs: seq<View>)
      reads this, tables
      ensures |vs| == |tables|
      ensures forall i :: 0 <= i < |vs| ==> vs[i] == ViewOf(tables[i])
    {
      seq(|tables|, i requires 0 <= i < |tables| reads this, tables => ViewOf(tables[i]))
    }

    ghost function Histories(): (hs: seq<seq<Blob>>)
      reads this, tables
      ensures |hs| == |tables|
      ensures forall i :: 0 <= i < |hs| ==> hs[i] == tables[i].history
    {
      seq(|tables|, i requires 0 <= i < |tables| reads this, tables => tables[i].history)
    }

    ghost function Froms(): (froms: seq<nat>)
      reads this, tables
      ensures |froms| == |tables|
      ensures forall i :: 0 <= i < |froms| ==> froms[i] == |tables[i].trace|
    {
      seq(|tables|, i requires 0 <= i < |tables| reads this, tables => |tables[i].trace|)
    }

    ghost function State(): (s: Stock)
      reads this, tables
      ensures |s.views| == |tables|
    {
      Stock(Views(), frozen, tail)
    }

    ghost function Sizes(): (sizes: seq<nat>)
      reads this
      ensures |sizes| == |tables|
      ensures forall i :: 0 <= i < |sizes| ==> sizes[i] == tables[i].maxFileSize
    {
      seq(|tables|, i requires 0 <= i < |tables| reads this => tables[i].maxFileSize)
    }

    /** The item counts and the hidden counts of all tables. */
    function Heads(): (ns: seq<nat>)
      reads this, tables
      ensures |ns| == |tables|
      ensures forall i :: 0 <= i < |ns| ==> ns[i] == tables[i].items
    {
      seq(|tables|, i requires 0 <= i < |tables| reads this, tables => tables[i].items)
    }

    function Tails(): (ns: seq<nat>)
      reads this, tables
      ensures |ns| == |tables|
      ensures forall i :: 0 <= i < |ns| ==> ns[i] == tables[i].itemHidden
    {
      seq(|tables|, i requires 0 <= i < |tables| reads this, tables => tables[i].itemHidden)
    }

    /** The fewest items and the highest tail of any table. */
    function LowHead(): nat
      reads this, tables
    {
      if tables == [] then MAX_UINT64 else Least(Heads())
    }

    function TopTail(): nat
      reads this, tables
    {
      if tables == [] then 0 else Greatest(Tails())
    }

    /** Every disk of table i since file operation `from` shows a prefix of all, of lo items at least. */
    ghost predicate KeptThroughout(i: nat, all: seq<Blob>, lo: nat, hidden: nat, from: nat)
      requires i < |tables|
      reads tables[i]
    {
      Traced(tables[i].trace, all, lo, hidden, from)
    }

    /** The tables hold what they held at vs. */
    ghost predicate Restored(vs: seq<View>)
      requires |vs| == |tables|
      reads this, tables
    {
      forall i :: 0 <= i < |tables| ==> tables[i].history == vs[i].items
    }

    /** All tables are open and hold the items frozen so far, hidden up to the same tail. */
    ghost predicate Lockstep()
      reads this, tables
    {
      && Distinct()
      && forall i :: 0 <= i < |tables| ==>
           Shows(i, ViewOf(tables[i])) && tables[i].itemHidden == tail && tables[i].items == frozen
    }

    ghost predicate Valid()
      reads this, tables
    {
      Apart() && Lockstep()
    }

    method CutHead(i: nat, n: nat, ghost v: View) returns (ok: bool)
      requires i < |tables| && Shows(i, v)
      modifies tables[i]
      ensures ok <==> |v.items| <= n || v.hidden <= n
      ensures Sound(v) && Shows(i, HeadCut(v, n)) && (!ok ==> tables[i].trace == old(tables[i].trace))
      ensures KeptThroughout(i, v.items, |HeadCut(v, n).items|, v.hidden, |old(tables[i].trace)|)
    {
      hide Window, Reaches, KeepBelow, Parse;
      var t := tables[i];
      ghost var from := |t.trace|;
      ok := t.TruncateHead(n);
      forall k | from <= k < |t.trace| ensures Reaches(t.trace[k], v.items, |t.history|, v.hidden) {
        ReachesPrefix(t.trace[k], t.history, t.headId, v.hidden, v.items, |t.history|);
      }
    }

    method CutTail(i: nat, n: nat, ghost v: View) returns (ok: bool)
      requires i < |tables| && Shows(i, v) && TailInWidth(v, n)
      modifies tables[i]
      ensures ok <==> n <= v.hidden || n <= |v.items|
      ensures Sound(v) && Shows(i, TailCut(v, n)) && (!ok ==> tables[i].trace == old(tables[i].trace))
      ensures KeptThroughout(i, v.items, |v.items|, TailCut(v, n).hidden, |old(tables[i].trace)|)
    {
      hide Window, Reaches, HideBelow, Parse;
      var t := tables[i];
      ghost var from := |t.trace|;
      ok := t.TruncateTail(n);
      forall k | from <= k < |t.trace| ensures Reaches(t.trace[k], v.items, |v.items|, t.itemHidden) {
        ReachesPrefix(t.trace[k], t.history, t.headId, t.itemHidden, v.items, |v.items|);
      }
    }

    /** The tables in lockstep show histories of one length and one tail. */
    lemma LockstepFacts()
      requires Lockstep()
      ensures forall i :: 0 <= i < |tables| ==> Sound(ViewOf(tables[i])) && |tables[i].history| == frozen
      ensures forall i :: 0 <= i < |tables| ==> tables[i].itemHidden == tail && tables[i].maxFileSize < 0x1_0000_0000
    {
      hide Table.Valid, Sound;
    }

    /** Tables that all show histories of one length are in step. */
    lemma InStep(vs: seq<View>, n: nat, hidden: nat)
      requires |vs| == |tables| && Distinct()
      requires forall i :: 0 <= i < |tables| ==> Shows(i, vs[i]) && |vs[i].items| == n && vs[i].hidden == hidden
      ensures frozen == n && tail == hidden ==> Lockstep()
      ensures forall i :: 0 <= i < |tables| ==> ViewOf(tables[i]) == vs[i]
    {
      hide Shows;
      forall i | 0 <= i < |tables| ensures ViewOf(tables[i]) == vs[i] && tables[i].items == n {
        ShowsFacts(i, vs[i]);
      }
    }

    /** Discards items from number n on in every table. Fails, changing nothing, when that would cut
        below the tail. */
    method TruncateHead(n: nat) returns (ok: bool)
      requires Valid() && tables != []
      modifies this`frozen, tables
      ensures Valid()
      ensures ok <==> old(frozen) <= n || old(tail) <= n
      ensures frozen == if ok && n < old(frozen) then n else old(frozen)
      ensures forall i :: 0 <= i < |tables| ==>
                Sound(old(ViewOf(tables[i]))) && ViewOf(tables[i]) == HeadCut(old(ViewOf(tables[i])), n)
      ensures forall i :: 0 <= i < |tables| ==>
                KeptThroughout(i, old(tables[i].history), frozen, tail, |old(tables[i].trace)|)
    {
      hide Shows, KeptThroughout, Sound, HeadCut;
      LockstepFacts();
      ghost var vs, froms := Views(), Froms();
      CutLengths(vs, n, frozen, tail);
      if frozen <= n {
        NothingYet(vs, froms, frozen, tail);
        return true;
      }
      ok := CutAllHeads(n, vs, froms);
      if ok {
        frozen := n;
      }
      InStep(HeadsCut(vs, n), frozen, tail);
    }

    method CutAllHeads(n: nat, ghost vs: seq<View>, ghost froms: seq<nat>) returns (ok: bool)
      requires |vs| == |froms| == |tables| && tables != [] && Distinct() && n < frozen
      requires forall i :: 0 <= i < |tables| ==> Shows(i, vs[i]) && |tables[i].trace| == froms[i]
      requires forall i :: 0 <= i < |tables| ==> Sound(vs[i]) && |vs[i].items| == frozen && vs[i].hidden == tail
      modifies tables
      ensures ok <==> tail <= n
      ensures forall i :: 0 <= i < |tables| ==> Shows(i, HeadCut(vs[i], n))
      ensures forall i :: 0 <= i < |tables| ==>
        KeptThroughout(i, vs[i].items, if ok then n else frozen, tail, froms[i])
    {
      hide Shows, KeptThroughout, Sound, HeadCut;
      CutLengths(vs, n, frozen, tail);
      for i := 0 to |tables|
        invariant i > 0 ==> tail <= n
        invariant forall j :: 0 <= j < i ==> Shows(j, HeadCut(vs[j], n))
        invariant forall j :: 0 <= j < i ==> KeptThroughout(j, vs[j].items, n, tail, froms[j])
        invariant forall j :: i <= j < |tables| ==> Shows(j, vs[j]) && |tables[j].trace| == froms[j]
      {
        ok := CutHead(i, n, vs[i]);
        if !ok {
          NothingYet(vs, froms, frozen, tail);
          return;
        }
      }
      ok := true;
    }

    lemma CutLengths(vs: seq<View>, n: nat, len: nat, hidden: nat)
      requires forall i :: 0 <= i < |vs| ==> Sound(vs[i]) && |vs[i].items| == len && vs[i].hidden == hidden
      ensures forall i :: 0 <= i < |vs| ==>
        |HeadCut(vs[i], n).items| == (if hidden <= n < len then n else len) && HeadCut(vs[i], n).hidden == hidden
      ensures forall i :: 0 <= i < |vs| && !(hidden <= n < len) ==> HeadCut(vs[i], n) == vs[i]
    {
    }

    /** A table that has done nothing since shows what it showed all along. */
    lemma NothingYet(vs: seq<View>, froms: seq<nat>, lo: nat, hidden: nat)
      requires |vs| == |froms| == |tables|
      requires forall i :: 0 <= i < |tables| ==> froms[i] == |tables[i].trace|
      ensures forall i :: 0 <= i < |tables| ==> KeptThroughout(i, vs[i].items, lo, hidden, froms[i])
    {
    }

    /** Hides the items below n in every table. Fails, changing nothing, when n is above the head. */
    method TruncateTail(n: nat) returns (ok: bool)
      requires Valid() && tables != []
      requires forall i :: 0 <= i < |tables| ==> TailInWidth(ViewOf(tables[i]), n)
      modifies this`tail, tables
      ensures Valid()
      ensures ok <==> n <= old(tail) || n <= frozen
      ensures tail == if ok && old(tail) < n then n else old(tail)
      ensures forall i :: 0 <= i < |tables| ==>
                Sound(old(ViewOf(tables[i]))) && ViewOf(tables[i]) == TailCut(old(ViewOf(tables[i])), n)
      ensures forall i :: 0 <= i < |tables| ==>
                KeptThroughout(i, tables[i].history, frozen, tail, |old(tables[i].trace)|)
    {
      hide Shows, KeptThroughout, Sound, TailCut, TailInWidth;
      LockstepFacts();
      ghost var vs, froms := Views(), Froms();
      TailLengths(vs, n, frozen, tail);
      if tail >= n {
        NothingYet(vs, froms, frozen, tail);
        return true;
      }
      ok := CutAllTails(n, vs, froms);
      if ok {
        tail := n;
      }
      InStep(TailsCut(vs, n), frozen, tail);
    }

    method CutAllTails(n: nat, ghost vs: seq<View>, ghost froms: seq<nat>) returns (ok: bool)
      requires |vs| == |froms| == |tables| && tables != [] && Distinct() && tail < n
      requires forall i :: 0 <= i < |tables| ==> Shows(i, vs[i]) && |tables[i].trace| == froms[i]
      requires forall i :: 0 <= i < |tables| ==> Sound(vs[i]) && |vs[i].items| == frozen && vs[i].hidden == tail
      requires forall i :: 0 <= i < |tables| ==> TailInWidth(vs[i], n)
      modifies tables
      ensures ok <==> n <= frozen
      ensures forall i :: 0 <= i < |tables| ==> Shows(i, TailCut(vs[i], n))
      ensures forall i :: 0 <= i < |tables| ==>
        KeptThroughout(i, vs[i].items, frozen, if ok then n else tail, froms[i])
    {
      hide Shows, KeptThroughout, Sound, TailCut, TailInWidth;
      TailLengths(vs, n, frozen, tail);
      for i := 0 to |tables|
        invariant i > 0 ==> n <= frozen
        invariant forall j :: 0 <= j < i ==> Shows(j, TailCut(vs[j], n))
        invariant forall j :: 0 <= j < i ==> KeptThroughout(j, vs[j].items, frozen, n, froms[j])
        invariant forall j :: i <= j < |tables| ==> Shows(j, vs[j]) && |tables[j].trace| == froms[j]
      {
        ok := CutTail(i, n, vs[i]);
        if !ok {
          NothingYet(vs, froms, frozen, tail);
          return;
        }
      }
      ok := true;
    }

    lemma TailLengths(vs: seq<View>, n: nat, len: nat, hidden: nat)
      requires forall i :: 0 <= i < |vs| ==> Sound(vs[i]) && |vs[i].items| == len && vs[i].hidden == hidden
      ensures forall i :: 0 <= i < |vs| ==>
        && TailCut(vs[i], n).items == vs[i].items
        && TailCut(vs[i], n).hidden == (if hidden < n <= len then n else hidden)
      ensures forall i :: 0 <= i < |vs| && !(hidden < n <= len) ==> TailCut(vs[i], n) == vs[i]
    {
    }

    constructor (tables: seq<Table>)
      ensures this.tables == tables && batches == []
    {
      this.tables := tables;
      frozen, tail, batches := 0, 0, [];
    }

    /** Makes the write batch of every table. */
    method NewBatches()
      requires Lockstep()
      modifies this`batches
      ensures Valid() && forall i :: 0 <= i < |batches| ==> fresh(batches[i])
    {
      hide Shows, TableBatch.Valid, TableBatch.Lies;
      batches := [];
      for i := 0 to |tables|
        invariant Lockstep()
        invariant |batches| == i
        invariant forall j :: 0 <= j < i ==> batches[j].t == tables[j]
        invariant forall j :: 0 <= j < i ==> fresh(batches[j])
        invariant forall j, k :: 0 <= j < k < i ==> batches[j] != batches[k]
      {
        ShowsFacts(i, ViewOf(tables[i]));
        var b := new TableBatch(tables[i]);
        batches := batches + [b];
      }
    }

    /** Every table is open, and what aligning them to the fewest items and the highest tail makes the index store
        fits. */
    ghost predicate Alignable()
      reads this, tables
    {
      && Distinct()
      && (forall i :: 0 <= i < |tables| ==> Shows(i, ViewOf(tables[i])) && tables[i].items <= MAX_UINT64)
      && (forall i :: 0 <= i < |tables| ==>
            TailInWidth(HeadCut(ViewOf(tables[i]), LowHead()), TopTail()))
    }

    /** Opens a freezer over tables that have each been opened. */
    method Open() returns (ok: bool)
      requires Alignable()
      modifies this`frozen, this`tail, this`batches, tables
      ensures ok <==> old(TopTail()) <= old(LowHead()) || (Same(old(Heads())) && Same(old(Tails())))
      ensures ok ==> Valid() && forall i :: 0 <= i < |batches| ==> fresh(batches[i])
      ensures ok ==> frozen == old(LowHead()) && tail == old(TopTail())
      ensures ok ==> forall i :: 0 <= i < |tables| ==>
        Sound(old(ViewOf(tables[i]))) && ViewOf(tables[i]) == TailCut(HeadCut(old(ViewOf(tables[i])), frozen), tail)
    {
      hide Shows, TailCut, HeadCut, Sound;
      ok := Repair();
      if ok {
        NewBatches();
      }
    }

    method Extent() returns (head: nat, top: nat)
      requires forall i :: 0 <= i < |tables| ==> tables[i].items <= MAX_UINT64
      ensures head == LowHead() && top == TopTail()
    {
      head, top := MAX_UINT64, 0;
      for i := 0 to |tables|
        invariant head <= MAX_UINT64
        invariant if i == 0 then head == MAX_UINT64 && top == 0
                  else head == Least(Heads()[..i]) && top == Greatest(Tails()[..i])
      {
        assert Heads()[..i + 1][..i] == Heads()[..i] && Tails()[..i + 1][..i] == Tails()[..i];
        var items := tables[i].items;
        if head > items {
          head := items;
        }
        var hidden := tables[i].itemHidden;
        if hidden > top {
          top := hidden;
        }
      }
      assert Heads()[..|tables|] == Heads() && Tails()[..|tables|] == Tails();
    }

    /** Cuts all tables to `head` items and tail `top`. */
    method Align(head: nat, top: nat, ghost vs: seq<View>) returns (ok: bool)
      requires |vs| == |tables| && Distinct()
      requires forall i :: 0 <= i < |tables| ==> Shows(i, vs[i]) && head <= |vs[i].items| && vs[i].hidden <= top
      requires forall i :: 0 <= i < |tables| ==> Sound(vs[i]) && TailInWidth(HeadCut(vs[i], head), top)
      modifies tables
      ensures ok ==> forall i :: 0 <= i < |tables| ==> Shows(i, TailCut(HeadCut(vs[i], head), top))
      ensures ok <==> top <= head || Agree(vs, head, top)
    {
      hide Shows, Sound, KeepBelow, HideBelow, TailInWidth;
      for i := 0 to |tables|
        invariant forall j :: 0 <= j < i ==> Shows(j, TailCut(HeadCut(vs[j], head), top))
        invariant forall j :: 0 <= j < i ==> top <= head || (|vs[j].items| == head && vs[j].hidden == top)
        invariant forall j :: i <= j < |tables| ==> Shows(j, vs[j])
      {
        var r := CutHead(i, head, vs[i]);
        if !r {
          return false;
        }
        r := CutTail(i, top, HeadCut(vs[i], head));
        if !r {
          return false;
        }
      }
      return true;
    }

    lemma AlignedLengths(vs: seq<View>, head: nat, top: nat)
      requires forall i :: 0 <= i < |vs| ==> Sound(vs[i]) && head <= |vs[i].items| && vs[i].hidden <= top
      requires top <= head || Agree(vs, head, top)
      ensures forall i :: 0 <= i < |vs| ==>
        var v := TailCut(HeadCut(vs[i], head), top); |v.items| == head && v.hidden == top
    {
    }

    lemma Agreement(vs: seq<View>, head: nat, top: nat)
      requires vs == Views() && head == LowHead() && top == TopTail()
      requires forall i :: 0 <= i < |tables| ==> Shows(i, ViewOf(tables[i]))
      ensures forall i :: 0 <= i < |tables| ==> Sound(vs[i]) && head <= |vs[i].items| && vs[i].hidden <= top
      ensures top <= head || (Same(Heads()) && Same(Tails())) <==> top <= head || Agree(vs, head, top)
    {
      hide Shows, Sound, Least, Greatest;
      forall i | 0 <= i < |tables| ensures Sound(vs[i]) && |vs[i].items| == Heads()[i] && vs[i].hidden == Tails()[i] {
        ShowsFacts(i, vs[i]);
      }
      if tables != [] {
        var i :| 0 <= i < |tables| && Heads()[i] == head;
        var j :| 0 <= j < |tables| && Tails()[j] == top;
      }
    }

    /** Cuts all tables to the shortest of them and to the highest tail. This works out exactly when
        no tail is above any head, or the tables agree already. */
    method Repair() returns (ok: bool)
      requires Alignable()
      modifies this`frozen, this`tail, tables
      ensures ok <==> old(TopTail()) <= old(LowHead()) || (Same(old(Heads())) && Same(old(Tails())))
      ensures ok ==> Lockstep()
      ensures ok ==> frozen == old(LowHead()) && tail == old(TopTail())
      ensures ok ==> forall i :: 0 <= i < |tables| ==>
        Sound(old(ViewOf(tables[i]))) && ViewOf(tables[i]) == TailCut(HeadCut(old(ViewOf(tables[i])), frozen), tail)
    {
      hide Shows, TailCut, HeadCut, Sound, TailInWidth, Same, Least, Greatest, Agree, LowHead, TopTail;
      var head, top := Extent();
      ghost var vs := Views();
      Agreement(vs, head, top);
      ok := Align(head, top, vs);
      if ok {
        AlignedLengths(vs, head, top);
        frozen, tail := head, top;
        InStep(TailsCut(HeadsCut(vs, head), top), head, top);
      }
    }

    /** Batch i has got as far with its part of a write as d says; the write began at file operation `from`. */
    ghost predicate Batching(i: nat, d: Draft, from: nat)
      requires i < |tables| == |batches|
      reads this`batches, batches[i], batches[i].t, tables[i]
    {
      && batches[i].t == tables[i]
      && batches[i].Valid()
      && batches[i].All() == d.all
      && batches[i].curItem == |d.all|
      && batches[i].base == d.start.items && batches[i].started == from
      && tables[i].itemHidden == d.start.hidden
      && batches[i].Lies() == d.lies
      && batches[i].Gauge() == d.load
    }

    method ResetOne(i: nat, ghost v: View)
      requires Apart() && i < |tables| && Shows(i, v)
      modifies batches[i]
      ensures Batching(i, Begun(v), |tables[i].trace|)
    {
      hide Window;
      batches[i].Reset();
      NothingPending(0, 0);
    }

    method AppendOne(i: nat, op: Append, ghost d: Draft, ghost from: nat)
      requires i == op.kind && i < |tables| == |batches| && Batching(i, d, from)
      requires |op.blob| < 0x1_0000_0000
      requires Taken(d, op, i, tables[i].maxFileSize).lies.head < 0x1_0000
      modifies batches[i], tables[i]
      ensures Batching(i, Taken(d, op, i, tables[i].maxFileSize), from)
    {
      hide Window, Reaches, MarshalAll, NewEntries, Flatten, Table.Valid, Loaded, Place;
      var _ := batches[i].AppendRaw(op.num, op.blob);
    }

    method CommitOne(i: nat, ghost d: Draft, ghost from: nat)
      requires i < |tables| == |batches| && Batching(i, d, from) && Whole(d)
      modifies batches[i], tables[i]
      ensures Shows(i, Finished(d)) && KeptThroughout(i, d.all, |d.start.items|, d.start.hidden, from)
    {
      hide Window, MarshalAll, NewEntries, Flatten, Table.Valid, Traced, Parse;
      batches[i].Commit();
      assert batches[i].All() == d.all;
      ViewSound(tables[i]);
    }

    /** What is left of a failed write of one table. */
    method RollBackOne(i: nat, prevItem: nat, ghost d: Draft, ghost from: nat)
      requires i < |tables| == |batches| && Batching(i, d, from) && Whole(d) && prevItem == |d.start.items|
      modifies tables[i]
      ensures Shows(i, Left(d)) && KeptThroughout(i, d.all, prevItem, d.start.hidden, from)
    {
      hide Window, MarshalAll, NewEntries, Parse, Stores, Reaches, Flatten;
      var t := tables[i];
      ghost var n := |t.trace|;
      batches[i].FlushedLayout();
      assert d.all[..prevItem] == d.start.items;
      var _ := t.TruncateHead(prevItem);
      forall k | n <= k < |t.trace| ensures Reaches(t.trace[k], d.all, prevItem, d.start.hidden) {
        ReachesPrefix(t.trace[k], t.history, t.headId, d.start.hidden, d.all, prevItem);
      }
    }

    method ResetAll(ghost vs: seq<View>)
      requires Apart() && |vs| == |tables|
      requires forall i :: 0 <= i < |tables| ==> Shows(i, vs[i])
      modifies batches
      ensures forall i :: 0 <= i < |tables| ==> Batching(i, Begun(vs[i]), |tables[i].trace|)
    {
      hide Shows, Batching;
      for i := 0 to |tables|
        invariant forall j :: 0 <= j < i ==> Batching(j, Begun(vs[j]), |tables[j].trace|)
      {
        ResetOne(i, vs[i]);
      }
    }

    /** Every table's part of the write that makes the appends. */
    ghost function Drafts(ops: seq<Append>): (ds: seq<Draft>)
      requires forall i :: 0 <= i < |tables| ==> Sound(ViewOf(tables[i]))
      reads this, tables
      ensures |ds| == |tables|
      ensures forall i :: 0 <= i < |tables| ==>
        ds[i] == TakenAll(ViewOf(tables[i]), ops, i, tables[i].maxFileSize)
    {
      seq(|tables|, i requires 0 <= i < |tables| && Sound(ViewOf(tables[i])) reads this, tables =>
        TakenAll(ViewOf(tables[i]), ops, i, tables[i].maxFileSize))
    }

    /** Runs the appends a write callback makes. */
    method RunAll(ops: seq<Append>, ghost vs: seq<View>, ghost froms: seq<nat>)
      requires Apart() && Distinct() && |vs| == |froms| == |tables|
      requires forall i :: 0 <= i < |tables| ==> Sound(vs[i]) && Batching(i, Begun(vs[i]), froms[i])
      requires forall i :: 0 <= i < |tables| ==>
        TakenAll(vs[i], ops, i, tables[i].maxFileSize).lies.head < 0x1_0000
      requires forall k :: 0 <= k < |ops| ==> ops[k].kind < |tables| && |ops[k].blob| < 0x1_0000_0000
      modifies batches, tables
      ensures forall i :: 0 <= i < |tables| ==> Batching(i, TakenAll(vs[i], ops, i, tables[i].maxFileSize), froms[i])
    {
      hide Batching, Place, Loaded, Sound, Whole, Written;
      assert ops[..|ops|] == ops;
      for k := 0 to |ops|
        invariant forall i :: 0 <= i < |tables| ==>
          Batching(i, TakenAll(vs[i], ops[..k], i, tables[i].maxFileSize), froms[i])
      {
        var op := ops[k];
        assert ops[..k + 1][..k] == ops[..k] && ops[..k + 1][k] == op;
        ghost var i, max := op.kind, tables[op.kind].maxFileSize;
        TakenGrows(vs[i], ops, i, max, k + 1);
        AppendOne(op.kind, op, TakenAll(vs[i], ops[..k], i, max), froms[i]);
      }
    }

    /** Writes out all batches, if they stand at the same item. */
    method CommitAll(ghost ds: seq<Draft>, ghost froms: seq<nat>) returns (ok: bool, item: nat)
      requires Apart() && Distinct() && |ds| == |froms| == |tables|
      requires forall i :: 0 <= i < |tables| ==>
        Batching(i, ds[i], froms[i]) && Whole(ds[i]) && |ds[i].all| < MAX_UINT64
      modifies batches, tables
      ensures ok <==> Even(ds)
      ensures ok ==> forall i :: 0 <= i < |tables| ==> Shows(i, Finished(ds[i])) && item == |ds[i].all|
      ensures ok ==> forall i :: 0 <= i < |tables| ==>
        KeptThroughout(i, ds[i].all, |ds[i].start.items|, ds[i].start.hidden, froms[i])
      ensures ok && tables == [] ==> item == MAX_UINT64
      ensures !ok ==> forall i :: 0 <= i < |tables| ==> Batching(i, ds[i], froms[i])
    {
      hide Batching, Shows, KeptThroughout, Whole;
      ok, item := SameItem(ds, froms);
      if !ok {
        return;
      }
      for i := 0 to |tables|
        invariant forall j :: 0 <= j < i ==> Shows(j, Finished(ds[j]))
        invariant forall j :: 0 <= j < i ==>
          KeptThroughout(j, ds[j].all, |ds[j].start.items|, ds[j].start.hidden, froms[j])
        invariant forall j :: i <= j < |tables| ==> Batching(j, ds[j], froms[j])
      {
        CommitOne(i, ds[i], froms[i]);
      }
    }

    /** Whether all batches stand at the same item. */
    method SameItem(ghost ds: seq<Draft>, ghost froms: seq<nat>) returns (ok: bool, item: nat)
      requires Apart() && |ds| == |froms| == |tables|
      requires forall i :: 0 <= i < |tables| ==> Batching(i, ds[i], froms[i]) && |ds[i].all| < MAX_UINT64
      ensures ok <==> Even(ds)
      ensures ok ==> if tables == [] then item == MAX_UINT64 else forall i :: 0 <= i < |tables| ==> item == |ds[i].all|
    {
      hide Batching;
      item := MAX_UINT64;
      for i := 0 to |tables|
        invariant if i == 0 then item == MAX_UINT64 else item < MAX_UINT64
        invariant forall j :: 0 <= j < i ==> |ds[j].all| == item
      {
        CurItem(i, ds[i], froms[i]);
        if item < MAX_UINT64 && batches[i].curItem != item {
          assert |ds[i].all| != |ds[i - 1].all|;
          return false, 0;
        }
        item := batches[i].curItem;
      }
      ok := true;
    }

    lemma CurItem(i: nat, d: Draft, from: nat)
      requires i < |tables| == |batches| && Batching(i, d, from)
      ensures batches[i].curItem == |d.all|
    {
    }

    method RollBack(prevItem: nat, ghost ds: seq<Draft>, ghost froms: seq<nat>)
      requires Apart() && Distinct() && |ds| == |froms| == |tables|
      requires forall i :: 0 <= i < |tables| ==>
        Batching(i, ds[i], froms[i]) && Whole(ds[i]) && |ds[i].start.items| == prevItem
      modifies tables
      ensures forall i :: 0 <= i < |tables| ==> Shows(i, Left(ds[i]))
      ensures forall i :: 0 <= i < |tables| ==>
        KeptThroughout(i, ds[i].all, |ds[i].start.items|, ds[i].start.hidden, froms[i])
    {
      hide Batching, Shows, KeptThroughout, Whole, Left;
      for i := 0 to |tables|
        invariant forall j :: 0 <= j < i ==> Shows(j, Left(ds[j]))
        invariant forall j :: 0 <= j < i ==>
          KeptThroughout(j, ds[j].all, |ds[j].start.items|, ds[j].start.hidden, froms[j])
        invariant forall j :: i <= j < |tables| ==> Batching(j, ds[j], froms[j])
      {
        RollBackOne(i, prevItem, ds[i], froms[i]);
      }
    }

    /** The appends are to known tables, and what they make the index store fits. */
    ghost predicate CanModify(ops: seq<Append>)
      requires forall i :: 0 <= i < |tables| ==> Sound(ViewOf(tables[i]))
      reads this, tables
    {
      && (forall k :: 0 <= k < |ops| ==> ops[k].kind < |tables| && |ops[k].blob| < 0x1_0000_0000)
      && (forall i :: 0 <= i < |tables| ==> Drafts(ops)[i].lies.head < 0x1_0000)
      && frozen + |ops| < MAX_UINT64
    }

    /** Runs a write callback that makes the appends `ops` and then succeeds or fails, whatever the
        single appends said. The write takes effect as a whole when the callback succeeds and all
        tables end at the same item. Otherwise it leaves the items from before, if and only if none of those
        to be cut off is hidden or nothing has gone to disk on the way. */
    method ModifyAncients(ops: seq<Append>, succeeds: bool) returns (ok: bool)
      requires Valid() && CanModify(ops)
      modifies this`frozen, tables, batches
      ensures ok <==> succeeds && Even(old(Drafts(ops)))
      ensures ok ==> Valid() && forall i :: 0 <= i < |tables| ==>
        ViewOf(tables[i]) == Finished(old(Drafts(ops))[i]) && frozen == |tables[i].history|
      ensures !ok ==> frozen == old(frozen) && forall i :: 0 <= i < |tables| ==>
        Shows(i, ViewOf(tables[i])) && ViewOf(tables[i]) == Left(old(Drafts(ops))[i])
      ensures !ok ==> (Restored(old(Views())) <==> tail <= frozen || Unflushed(old(Drafts(ops)), frozen))
      ensures !ok && Restored(old(Views())) ==> Valid()
      ensures forall i :: 0 <= i < |tables| ==>
        && Written(ops, i, old(tables[i].history)) == old(Drafts(ops))[i].all
        && old(tables[i].history) <= tables[i].history <= old(Drafts(ops))[i].all
        && KeptThroughout(i, old(Drafts(ops))[i].all, old(frozen), tail, |old(tables[i].trace)|)
    {
      hide Shows, Batching, Written, KeptThroughout, Whole, Left, Sound, TakenAll;
      LockstepFacts();
      ghost var vs, froms, ds := Views(), Froms(), Drafts(ops);
      ResetAll(vs);
      RunAll(ops, vs, froms);
      ok := Finish(succeeds, vs, ds, froms);
    }

    /** Commits a write, or undoes it. */
    method Finish(succeeds: bool, ghost vs: seq<View>, ghost ds: seq<Draft>, ghost froms: seq<nat>) returns (ok: bool)
      requires Apart() && Distinct() && |ds| == |froms| == |tables|
      requires forall i :: 0 <= i < |tables| ==>
        Batching(i, ds[i], froms[i]) && Whole(ds[i]) && |ds[i].all| < MAX_UINT64
      requires forall i :: 0 <= i < |tables| ==> |ds[i].start.items| == frozen && ds[i].start.hidden == tail
      requires |vs| == |tables| && forall i :: 0 <= i < |tables| ==> ds[i].start == vs[i]
      modifies this`frozen, tables, batches
      ensures ok <==> succeeds && Even(ds)
      ensures ok ==> Valid() && forall i :: 0 <= i < |tables| ==>
        ViewOf(tables[i]) == Finished(ds[i]) && frozen == |ds[i].all|
      ensures !ok ==> frozen == old(frozen) && forall i :: 0 <= i < |tables| ==>
        Shows(i, ViewOf(tables[i])) && ViewOf(tables[i]) == Left(ds[i])
      ensures !ok ==> (Restored(vs) <==> tail <= frozen || Unflushed(ds, frozen))
      ensures !ok && Restored(vs) ==> Valid()
      ensures forall i :: 0 <= i < |tables| ==> vs[i].items <= tables[i].history <= ds[i].all
      ensures forall i :: 0 <= i < |tables| ==> KeptThroughout(i, ds[i].all, old(frozen), tail, froms[i])
    {
      hide Shows, Batching, KeptThroughout, Whole, Left, Lockstep, Finished;
      ok := succeeds;
      if ok {
        ok := Commit(ds, froms);
      }
      if !ok {
        Undo(vs, ds, froms);
      }
    }

    method Commit(ghost ds: seq<Draft>, ghost froms: seq<nat>) returns (ok: bool)
      requires Apart() && Distinct() && |ds| == |froms| == |tables|
      requires forall i :: 0 <= i < |tables| ==>
        Batching(i, ds[i], froms[i]) && Whole(ds[i]) && |ds[i].all| < MAX_UINT64
      requires forall i :: 0 <= i < |tables| ==> |ds[i].start.items| == frozen && ds[i].start.hidden == tail
      modifies this`frozen, tables, batches
      ensures ok <==> Even(ds)
      ensures ok ==> Valid() && forall i :: 0 <= i < |tables| ==>
        ViewOf(tables[i]) == Finished(ds[i]) && frozen == |ds[i].all|
      ensures ok ==> forall i :: 0 <= i < |tables| ==> ds[i].start.items <= tables[i].history <= ds[i].all
      ensures ok ==> forall i :: 0 <= i < |tables| ==> KeptThroughout(i, ds[i].all, old(frozen), tail, froms[i])
      ensures !ok ==> frozen == old(frozen) && forall i :: 0 <= i < |tables| ==> Batching(i, ds[i], froms[i])
    {
      hide Shows, Batching, KeptThroughout, Whole;
      var item;
      ok, item := CommitAll(ds, froms);
      if ok {
        frozen := item;
        InStep(AllFinished(ds), item, tail);
        WholePrefix(ds);
      }
    }

    /** Undoes a write. */
    method Undo(ghost vs: seq<View>, ghost ds: seq<Draft>, ghost froms: seq<nat>)
      requires Apart() && Distinct() && |ds| == |froms| == |tables|
      requires forall i :: 0 <= i < |tables| ==> Batching(i, ds[i], froms[i]) && Whole(ds[i])
      requires forall i :: 0 <= i < |tables| ==> |ds[i].start.items| == frozen && ds[i].start.hidden == tail
      requires |vs| == |tables| && forall i :: 0 <= i < |tables| ==> ds[i].start == vs[i]
      modifies tables
      ensures forall i :: 0 <= i < |tables| ==> Shows(i, ViewOf(tables[i])) && ViewOf(tables[i]) == Left(ds[i])
      ensures Restored(vs) <==> tail <= frozen || Unflushed(ds, frozen)
      ensures Restored(vs) ==> Valid()
      ensures forall i :: 0 <= i < |tables| ==> vs[i].items <= tables[i].history <= ds[i].all
      ensures forall i :: 0 <= i < |tables| ==> KeptThroughout(i, ds[i].all, frozen, tail, froms[i])
    {
      hide Shows, Batching, KeptThroughout, Whole, Left;
      RollBack(frozen, ds, froms);
      forall i | 0 <= i < |tables|
        ensures ViewOf(tables[i]) == Left(ds[i])
        ensures tables[i].history == ds[i].start.items <==> tail <= frozen || ds[i].load.flushed == frozen
      {
        ShowsFacts(i, Left(ds[i]));
        LeftSame(ds[i]);
      }
      if Restored(vs) {
        InStep(Views(), frozen, tail);
      }
    }
  }

  // ---------- Writing items to all tables ----------

  /** An append to a table takes effect if and only if it claims the next number; appends to others do not matter. */
  lemma WrittenStep(ops: seq<Append>, op: Append, kind: nat, h: seq<Blob>)
    ensures var before, after := Written(ops, kind, h), Written(ops + [op], kind, h);
            if op.kind == kind && op.num == |before| then after == before + [op.blob] else after == before
  {
    assert (ops + [op])[..|ops|] == ops;
  }

  lemma WrittenNone(kind: nat, h: seq<Blob>)
    ensures Written([], kind, h) == h
  {
  }

  lemma {:induction false} WrittenConcat(a: seq<Append>, b: seq<Append>, kind: nat, h: seq<Blob>)
    ensures Written(a + b, kind, h) == Written(b, kind, Written(a, kind, h))
    decreases |b|
  {
    if b == [] {
      assert a + b == a;
    } else {
      var n := |b| - 1;
      WrittenConcat(a, b[..n], kind, h);
      assert a + b == a + b[..n] + [b[n]] && b == b[..n] + [b[n]];
      WrittenStep(a + b[..n], b[n], kind, h);
      WrittenStep(b[..n], b[n], kind, Written(a, kind, h));
    }
  }

  /** The appends of item j, number num, to the first n tables. */
  function ItemOps(rows: seq<seq<Blob>>, j: nat, num: nat, n: nat): seq<Append>
    requires n <= |rows| && forall i :: 0 <= i < |rows| ==> j < |rows[i]|
  {
    if n == 0 then [] else ItemOps(rows, j, num, n - 1) + [Append(n - 1, num, rows[n - 1][j])]
  }

  /** The appends of the first m items of every row, one item after the other. */
  function RowOps(rows: seq<seq<Blob>>, m: nat, num: nat): seq<Append>
    requires forall i :: 0 <= i < |rows| ==> m <= |rows[i]|
  {
    if m == 0 then [] else RowOps(rows, m - 1, num) + ItemOps(rows, m - 1, num + m - 1, |rows|)
  }

  lemma {:induction false} ItemWritten(rows: seq<seq<Blob>>, j: nat, num: nat, n: nat, i: nat, h: seq<Blob>)
    requires n <= |rows| && (forall k :: 0 <= k < |rows| ==> j < |rows[k]|) && i < |rows| && |h| == num
    ensures Written(ItemOps(rows, j, num, n), i, h) == if i < n then h + [rows[i][j]] else h
  {
    if n > 0 {
      ItemWritten(rows, j, num, n - 1, i, h);
      WrittenStep(ItemOps(rows, j, num, n - 1), Append(n - 1, num, rows[n - 1][j]), i, h);
    }
  }

  /** Every table gets its row. */
  lemma {:induction false} RowsWritten(rows: seq<seq<Blob>>, m: nat, i: nat, h: seq<Blob>)
    requires (forall k :: 0 <= k < |rows| ==> m <= |rows[k]|) && i < |rows|
    ensures Written(RowOps(rows, m, |h|), i, h) == h + rows[i][..m]
  {
    hide Written, ItemOps;
    if m == 0 {
      WrittenNone(i, h);
      assert rows[i][..0] == [];
    } else {
      var g := h + rows[i][..m - 1];
      RowsWritten(rows, m - 1, i, h);
      WrittenConcat(RowOps(rows, m - 1, |h|), ItemOps(rows, m - 1, |h| + m - 1, |rows|), i, h);
      ItemWritten(rows, m - 1, |h| + m - 1, |rows|, i, g);
      assert rows[i][..m] == rows[i][..m - 1] + [rows[i][m - 1]];
    }
  }

  /** Writing rows of one length, one for each table, succeeds and adds exactly these. */
  method AppendRows(f: Freezer, rows: seq<seq<Blob>>, m: nat) returns (ok: bool)
    requires f.Valid() && f.tables != [] && |rows| == |f.tables| && forall i :: 0 <= i < |rows| ==> |rows[i]| == m
    requires f.CanModify(RowOps(rows, m, f.frozen))
    modifies f, f.tables, f.batches
    ensures ok && f.Valid() && f.frozen == old(f.frozen) + m && f.tail == old(f.tail)
    ensures forall i :: 0 <= i < |rows| ==> f.tables[i].history == old(f.tables[i].history) + rows[i]
  {
    hide Written, TakenAll, Left, Whole, Sound, RowOps, Freezer.KeptThroughout, Freezer.Shows, Unflushed,
      Freezer.Restored;
    f.LockstepFacts();
    ghost var n, ops := f.frozen, RowOps(rows, m, f.frozen);
    ghost var ds := f.Drafts(ops);
    forall i | 0 <= i < |rows| ensures ds[i].all == f.tables[i].history + rows[i] {
      RowsWritten(rows, m, i, f.tables[i].history);
      assert rows[i][..m] == rows[i];
    }
    ok := f.ModifyAncients(RowOps(rows, m, f.frozen), true);
    assert f.tables[0].history == ds[0].all;
  }

  // ---------- Whole runs ----------

  /** One thing a caller does with a freezer. */
  datatype Act = Modify(ops: seq<Append>, succeeds: bool) | CutHeads(n: nat) | CutTails(n: nat)

  /** What a freezer's tables show, how many items they hold and how many of these are hidden. */
  datatype Stock = Stock(views: seq<View>, frozen: nat, tail: nat)

  ghost predicate Level(s: Stock) {
    s.views != [] && forall i :: 0 <= i < |s.views| ==>
      Sound(s.views[i]) && |s.views[i].items| == s.frozen && s.views[i].hidden == s.tail
  }

  /** Every table's part of the write that makes the appends, if tables have files of the sizes given. */
  ghost function Parts(s: Stock, ops: seq<Append>, sizes: seq<nat>): (ds: seq<Draft>)
    requires Level(s) && |sizes| == |s.views|
    ensures |ds| == |s.views|
    ensures forall i :: 0 <= i < |ds| ==> ds[i] == TakenAll(s.views[i], ops, i, sizes[i])
  {
    seq(|s.views|, i requires 0 <= i < |s.views| => TakenAll(s.views[i], ops, i, sizes[i]))
  }

  /** What the act makes the index store fits, and a write that fails can be undone. */
  ghost predicate Allowed(s: Stock, a: Act, sizes: seq<nat>)
    requires Level(s) && |sizes| == |s.views|
  {
    match a
    case Modify(ops, succeeds) =>
      && (forall k :: 0 <= k < |ops| ==> ops[k].kind < |s.views| && |ops[k].blob| < 0x1_0000_0000)
      && (forall i :: 0 <= i < |s.views| ==> Parts(s, ops, sizes)[i].lies.head < 0x1_0000)
      && s.frozen + |ops| < MAX_UINT64
      && ((succeeds && Even(Parts(s, ops, sizes)))
          || forall i :: 0 <= i < |s.views| ==> Undoable(Parts(s, ops, sizes)[i]))
    case CutHeads(_) => true
    case CutTails(n) => forall i :: 0 <= i < |s.views| ==> TailInWidth(s.views[i], n)
  }

  ghost function AllFinished(ds: seq<Draft>): (vs: seq<View>)
    ensures |vs| == |ds| && forall i :: 0 <= i < |ds| ==> vs[i] == Finished(ds[i])
  {
    seq(|ds|, i requires 0 <= i < |ds| => Finished(ds[i]))
  }

  ghost function AllLeft(ds: seq<Draft>): (vs: seq<View>)
    requires forall i :: 0 <= i < |ds| ==> Whole(ds[i])
    ensures |vs| == |ds| && forall i :: 0 <= i < |ds| ==> vs[i] == Left(ds[i])
  {
    seq(|ds|, i requires 0 <= i < |ds| => Left(ds[i]))
  }

  ghost function Step(s: Stock, a: Act, sizes: seq<nat>): (r: Stock)
    requires Level(s) && |sizes| == |s.views| && Allowed(s, a, sizes)
    ensures |r.views| == |s.views|
  {
    match a
    case Modify(ops, succeeds) =>
      var ds := Parts(s, ops, sizes);
      if succeeds && Even(ds) then Stock(AllFinished(ds), |ds[0].all|, s.tail) else Stock(AllLeft(ds), s.frozen, s.tail)
    case CutHeads(n) => if s.tail <= n < s.frozen then Stock(HeadsCut(s.views, n), n, s.tail) else s
    case CutTails(n) => if s.tail < n <= s.frozen then Stock(TailsCut(s.views, n), s.frozen, n) else s
  }

  /** Every act that is allowed leaves all tables with the same items visible. */
  lemma StepLevel(s: Stock, a: Act, sizes: seq<nat>)
    requires Level(s) && |sizes| == |s.views| && Allowed(s, a, sizes)
    ensures var r := Step(s, a, sizes); Level(r) && s.tail <= r.tail && (s.tail <= s.frozen ==> r.tail <= r.frozen)
  {
    hide KeepBelow, HideBelow, TailFits;
    if a.Modify? {
      var ds := Parts(s, a.ops, sizes);
      forall i | 0 <= i < |ds| && Undoable(ds[i]) ensures |Left(ds[i]).items| == s.frozen {
        LeftSame(ds[i]);
      }
      forall i | 0 <= i < |ds| ensures Sound(Finished(ds[i])) {
      }
    }
  }

  ghost predicate AllAllowed(s: Stock, acts: seq<Act>, sizes: seq<nat>)
    requires Level(s) && |sizes| == |s.views|
    decreases |acts|
  {
    acts == [] || (Allowed(s, acts[0], sizes) &&
      (StepLevel(s, acts[0], sizes); AllAllowed(Step(s, acts[0], sizes), acts[1..], sizes)))
  }

  ghost function StepAll(s: Stock, acts: seq<Act>, sizes: seq<nat>): (r: Stock)
    requires Level(s) && |sizes| == |s.views| && AllAllowed(s, acts, sizes)
    ensures |r.views| == |s.views|
    decreases |acts|
  {
    if acts == [] then s else StepLevel(s, acts[0], sizes); StepAll(Step(s, acts[0], sizes), acts[1..], sizes)
  }

  /** An item, once in all tables, stays what it was in each of them until a head truncation cuts it off. The tail never
      moves back, and never comes to lie above the items if it did not before. */
  lemma {:induction false} StockIsImmutable(s: Stock, acts: seq<Act>, sizes: seq<nat>, i: nat, k: nat)
    requires Level(s) && |sizes| == |s.views| && AllAllowed(s, acts, sizes)
    requires i < |s.views| && k < s.frozen
    requires forall j :: 0 <= j < |acts| && acts[j].CutHeads? ==> k < acts[j].n
    ensures var r := StepAll(s, acts, sizes);
            && Level(r) && k < r.frozen && r.views[i].items[k] == s.views[i].items[k]
            && s.tail <= r.tail && (s.tail <= s.frozen ==> r.tail <= r.frozen)
    decreases |acts|
  {
    hide KeepBelow, HideBelow, TailFits, TakenAll, Left, Whole, Sound, TailInWidth;
    if acts != [] {
      StepLevel(s, acts[0], sizes);
      StepKeeps(s, acts[0], sizes, i, k);
      StockIsImmutable(Step(s, acts[0], sizes), acts[1..], sizes, i, k);
    }
  }

  lemma StepKeeps(s: Stock, a: Act, sizes: seq<nat>, i: nat, k: nat)
    requires Level(s) && |sizes| == |s.views| && Allowed(s, a, sizes)
    requires i < |s.views| && k < s.frozen && (a.CutHeads? ==> k < a.n)
    ensures var r := Step(s, a, sizes); Level(r) && k < r.frozen && r.views[i].items[k] == s.views[i].items[k]
  {
    hide KeepBelow, HideBelow, TailFits, Loaded, Place;
    StepLevel(s, a, sizes);
  }

  /** A write can only fail to be undone where the tail is above the items. */
  lemma TailBelow(s: Stock, ops: seq<Append>, sizes: seq<nat>, i: nat)
    requires Level(s) && |sizes| == |s.views| && i < |s.views|
    ensures s.tail <= s.frozen ==> Undoable(Parts(s, ops, sizes)[i])
  {
  }

  /** After every run of writes, failed or not, and truncations all tables hold exactly what the acts, applied one after
      the other, leave. */
  method RunFreezer(f: Freezer, acts: seq<Act>, ghost s: Stock, ghost sizes: seq<nat>)
    requires f.Valid() && s == f.State() && sizes == f.Sizes() && Level(s) && AllAllowed(s, acts, sizes)
    modifies f, f.tables, f.batches
    ensures f.Valid() && f.State() == StepAll(s, acts, sizes)
  {
    hide Freezer.Valid, Freezer.State, Freezer.Sizes, Step, Level, Allowed;
    ghost var at := s;
    assert acts[0..] == acts;
    for k := 0 to |acts|
      invariant f.Valid() && f.batches == old(f.batches) && f.Sizes() == sizes
      invariant f.State() == at && Level(at) && |at.views| == |sizes| && AllAllowed(at, acts[k..], sizes)
      invariant StepAll(at, acts[k..], sizes) == StepAll(s, acts, sizes)
    {
      assert acts[k..][0] == acts[k] && acts[k..][1..] == acts[k + 1..];
      StepLevel(at, acts[k], sizes);
      match acts[k] {
        case Modify(_, _) => StepModify(f, acts[k], at, sizes);
        case CutHeads(_) => StepHeads(f, acts[k], at, sizes);
        case CutTails(_) => StepTails(f, acts[k], at, sizes);
      }
      at := Step(at, acts[k], sizes);
    }
    assert acts[|acts|..] == [];
  }

  method StepModify(f: Freezer, a: Act, ghost s: Stock, ghost sizes: seq<nat>)
    requires f.Valid() && s == f.State() && sizes == f.Sizes() && Level(s) && a.Modify? && Allowed(s, a, sizes)
    modifies f`frozen, f.tables, f.batches
    ensures f.Valid() && f.State() == Step(s, a, sizes)
  {
    hide TakenAll, Sound, Left, Whole, Written, Undoable, Freezer.KeptThroughout, Freezer.Shows, Even, Unflushed,
      Freezer.Restored;
    ghost var ds := Parts(s, a.ops, sizes);
    assert f.Drafts(a.ops) == ds;
    CanUndo(s, a, sizes);
    var ok := f.ModifyAncients(a.ops, a.succeeds);
    if ok {
      assert f.Views() == AllFinished(ds) && f.tables[0].history == ds[0].all;
    } else {
      assert f.Views() == AllLeft(ds);
    }
  }

  lemma CanUndo(s: Stock, a: Act, sizes: seq<nat>)
    requires Level(s) && |sizes| == |s.views| && a.Modify? && Allowed(s, a, sizes)
    ensures var ds := Parts(s, a.ops, sizes);
            (a.succeeds && Even(ds)) || s.tail <= s.frozen || Unflushed(ds, s.frozen)
  {
    hide Loaded, Place, Written;
  }

  method StepHeads(f: Freezer, a: Act, ghost s: Stock, ghost sizes: seq<nat>)
    requires f.Valid() && s == f.State() && sizes == f.Sizes() && Level(s) && a.CutHeads? && Allowed(s, a, sizes)
    modifies f`frozen, f.tables
    ensures f.Valid() && f.State() == Step(s, a, sizes)
  {
    hide Sound, HeadCut, Freezer.KeptThroughout, Freezer.Shows;
    f.CutLengths(s.views, a.n, s.frozen, s.tail);
    var _ := f.TruncateHead(a.n);
    assert f.Views() == HeadsCut(s.views, a.n);
    assert !(s.tail <= a.n < s.frozen) ==> f.Views() == s.views;
  }

  method StepTails(f: Freezer, a: Act, ghost s: Stock, ghost sizes: seq<nat>)
    requires f.Valid() && s == f.State() && sizes == f.Sizes() && Level(s) && a.CutTails? && Allowed(s, a, sizes)
    modifies f`tail, f.tables
    ensures f.Valid() && f.State() == Step(s, a, sizes)
  {
    hide Sound, TailCut, TailInWidth, Freezer.KeptThroughout, Freezer.Shows;
    f.TailLengths(s.views, a.n, s.frozen, s.tail);
    var _ := f.TruncateTail(a.n);
    assert f.Views() == TailsCut(s.views, a.n);
    assert !(s.tail < a.n <= s.frozen) ==> f.Views() == s.views;
  }

  /** What a freezer over n empty directories holds. */
  function Empty(n: nat): Stock {
    Stock(seq(n, _ => Nothing()), 0, 0)
  }

  method CreateTables(sizes: seq<nat>) returns (tables: seq<Table>)
    ensures |tables| == |sizes| && forall i :: 0 <= i < |tables| ==> fresh(tables[i])
    ensures forall i, j :: 0 <= i < j < |tables| ==> tables[i] != tables[j]
    ensures forall i :: 0 <= i < |tables| ==>
      tables[i].Valid() && ViewOf(tables[i]) == Nothing() && tables[i].items == 0 && tables[i].maxFileSize == sizes[i]
  {
    hide Table.Valid;
    tables := [];
    for i := 0 to |sizes|
      invariant |tables| == i && forall j :: 0 <= j < i ==> fresh(tables[j])
      invariant forall j, k :: 0 <= j < k < i ==> tables[j] != tables[k]
      invariant forall j :: 0 <= j < i ==>
        tables[j].Valid() && ViewOf(tables[j]) == Nothing() && tables[j].items == 0 && tables[j].maxFileSize == sizes[j]
    {
      var t := CreateTable(sizes[i]);
      ItemCount(t);
      tables := tables + [t];
    }
  }

  lemma EmptyAligned(f: Freezer)
    requires f.Distinct() && f.tables != [] && forall i :: 0 <= i < |f.tables| ==> f.Shows(i, Nothing())
    ensures f.Alignable() && f.LowHead() == 0 && f.TopTail() == 0
    ensures Sound(Nothing()) && TailCut(HeadCut(Nothing(), 0), 0) == Nothing()
  {
    hide Freezer.Shows, Least, Greatest;
    forall i | 0 <= i < |f.tables|
      ensures ViewOf(f.tables[i]) == Nothing() && f.tables[i].items == 0 && f.tables[i].itemHidden == 0
    {
      f.ShowsFacts(i, Nothing());
    }
    assert f.Heads()[0] == 0 && f.Tails()[0] == 0;
  }

  /** A freezer over empty directories. */
  method CreateFreezer(sizes: seq<nat>) returns (f: Freezer)
    requires sizes != [] && forall i :: 0 <= i < |sizes| ==> sizes[i] < 0x1_0000_0000
    ensures fresh(f) && f.Valid() && f.Sizes() == sizes && f.State() == Empty(|sizes|)
    ensures forall i :: 0 <= i < |f.tables| ==> fresh(f.tables[i])
    ensures forall i :: 0 <= i < |f.batches| ==> fresh(f.batches[i])
  {
    hide Table.Valid, Freezer.Alignable, Freezer.LowHead, Freezer.TopTail, TailCut, HeadCut, Freezer.Lockstep,
      Freezer.Apart;
    var tables := CreateTables(sizes);
    f := new Freezer(tables);
    assert forall i :: 0 <= i < |f.tables| ==> f.Shows(i, Nothing());
    EmptyAligned(f);
    var ok := f.Open();
  }

  /** A run from empty directories. */
  method RunFreezerFromEmpty(sizes: seq<nat>, acts: seq<Act>) returns (f: Freezer)
    requires sizes != [] && forall i :: 0 <= i < |sizes| ==> sizes[i] < 0x1_0000_0000
    requires AllAllowed(Empty(|sizes|), acts, sizes)
    ensures f.Valid() && f.State() == StepAll(Empty(|sizes|), acts, sizes)
  {
    hide Freezer.Valid, Freezer.State, Freezer.Sizes, Allowed, Step;
    f := CreateFreezer(sizes);
    RunFreezer(f, acts, f.State(), sizes);
  }
}
