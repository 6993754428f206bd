/** What is left of a freezer that is stopped in the middle of an operation, or loses bytes when it is, and what
    opening it again makes of that. */
module FreezerCrash {
  import opened Bytes
  import opened FreezerIndex
  import opened FreezerDisk
  import opened FreezerTable
  import opened FreezerBatch
  import opened Freezer

  // ---------- What a crash leaves ----------

  /** File `top` may be the newest of a table with these files. */
  ghost predicate NewestAt(d: Disk, top: nat) {
    && |Entries(d)| >= 1 && Last(Entries(d)).filenum <= top
    && forall f: nat :: Entries(d)[0].filenum <= f <= top ==> f in d.files
  }

  /** d' is what a crash may leave of d. */
  ghost predicate Loss(d': Disk, d: Disk) {
    exists top :: NewestAt(d, top) && Crashed(d', d, top)
  }

  /** What every table loses: any function of the table and its files. */
  ghost predicate Losing(lose: (nat, Disk) -> Disk) {
    forall i, d, top :: NewestAt(d, top) ==> Loss(lose(i, d), d)
  }

  /** It may be nothing. */
  lemma NoLoss()
    ensures Losing((i, d) => d)
  {
    hide Parse;
    forall d: Disk, top | NewestAt(d, top) ensures Loss(d, d) {
      EntriesLength(d);
      assert Crashed(d, d, top);
    }
  }

  lemma LossWindow(d': Disk, d: Disk, h: seq<Blob>, top0: nat, hidden: nat) returns (top: nat)
    requires Window(d, h, top0, hidden) && Loss(d', d)
    ensures Window(d, h, top, hidden) && Crashed(d', d, top)
  {
    top :| NewestAt(d, top) && Crashed(d', d, top);
  }

  /** The items whose index entries and bytes are both there. */
  ghost function Survivors(d: Disk): nat {
    if Entries(d) == [] then 0 else Entries(d)[0].offset + Kept(d.files, Entries(d)) - 1
  }

  ghost function AllSurvivors(ds: seq<Disk>): (ns: seq<nat>)
    ensures |ns| == |ds| && forall i :: 0 <= i < |ds| ==> ns[i] == Survivors(ds[i])
  {
    seq(|ds|, i requires 0 <= i < |ds| => Survivors(ds[i]))
  }

  /** Without a loss every item survives. */
  lemma AllSurvive(d: Disk, all: seq<Blob>, lo: nat, hidden: nat)
    requires Reaches(d, all, lo, hidden)
    ensures lo <= Survivors(d)
  {
    hide Parse, Kept;
    var m, top :| lo <= m <= |all| && Window(d, all[..m], top, hidden);
    NothingLost(d, all[..m], top);
  }

  // ---------- Opening what is left ----------

  /** Disk i shows a prefix of what table i was to hold, of lo items at least, and its tail. */
  ghost predicate AllReach(ds: seq<Disk>, alls: seq<seq<Blob>>, lo: nat, tails: seq<nat>)
    requires |ds| == |alls| == |tails|
  {
    forall i :: 0 <= i < |ds| ==> Reaches(ds[i], alls[i], lo, tails[i])
  }

  method LoseAll(stops: seq<Disk>, lose: (nat, Disk) -> Disk) returns (ds: seq<Disk>)
    ensures |ds| == |stops| && forall i :: 0 <= i < |ds| ==> ds[i] == lose(i, stops[i])
  {
    ds := seq(|stops|, i requires 0 <= i < |stops| => lose(i, stops[i]));
  }

  /** How a table over d lies when it has been opened. */
  ghost function LiesAfter(d: Disk): Layout
    requires |Entries(d)| >= 1
  {
    Layout(Entries(d)[..Kept(d.files, Entries(d))], LastKept(d).filenum, LastKept(d).offset)
  }

  /** A table opened over what a crash has left holds the items that survived. */
  method OpenOne(d: Disk, size: nat, ghost stop: Disk, ghost all: seq<Blob>, ghost lo: nat, ghost hidden: nat)
    returns (t: Table)
    requires Reaches(stop, all, lo, hidden) && Loss(d, stop)
    ensures fresh(t) && t.Valid() && t.maxFileSize == size && t.itemHidden == hidden && t.items == |t.history|
    ensures Survivors(d) <= |all| && t.history == all[..Survivors(d)]
    ensures |Entries(d)| >= 1 && t.Lies() == LiesAfter(d)
  {
    hide Parse, Kept, Window, Crashed, Table.Valid, NewestAt, Loss;
    ghost var m, top0 :| lo <= m <= |all| && Window(stop, all[..m], top0, hidden);
    ghost var top := LossWindow(d, stop, all[..m], top0, hidden);
    t := new Table(d, size);
    var ok := t.Reopen(stop, all[..m], top, hidden);
    ItemCount(t);
    FirstEntry(t);
    assert all[..m][..Survivors(d)] == all[..Survivors(d)];
  }

  lemma FirstEntry(t: Table)
    requires t.Valid()
    ensures |t.Lies().es| >= 1 && t.itemOffset == t.Lies().es[0].offset
  {
    WindowLength(t.disk, t.history, t.headId, t.itemHidden);
  }

  ghost function Found(d: Disk, all: seq<Blob>, hidden: nat): View
    requires Survivors(d) <= |all| && |Entries(d)| >= 1
  {
    View(all[..Survivors(d)], hidden, LiesAfter(d))
  }

  method OpenTables(ds: seq<Disk>, sizes: seq<nat>, ghost stops: seq<Disk>, ghost alls: seq<seq<Blob>>,
      ghost lo: nat, ghost tails: seq<nat>)
    returns (tables: seq<Table>)
    requires |ds| == |sizes| == |stops| == |alls| == |tails| && AllReach(stops, alls, lo, tails)
    requires forall i :: 0 <= i < |ds| ==> Loss(ds[i], stops[i])
    ensures |tables| == |ds| && forall i :: 0 <= i < |tables| ==> fresh(tables[i])
    ensures forall i, j :: 0 <= i < j < |tables| ==> tables[i] != tables[j]
    ensures forall i :: 0 <= i < |tables| ==> tables[i].Valid() && tables[i].items == |tables[i].history|
    ensures forall i :: 0 <= i < |tables| ==>
      && tables[i].maxFileSize == sizes[i] && Survivors(ds[i]) <= |alls[i]| && |Entries(ds[i])| >= 1
      && ViewOf(tables[i]) == Found(ds[i], alls[i], tails[i])
  {
    hide Table.Valid, Parse, Survivors, Loss, Reaches, LiesAfter;
    tables := [];
    for i := 0 to |ds|
      invariant |tables| == i && forall j :: 0 <= j < i ==> fresh(tables[j])
      invariant forall j, k :: 0 <= j < k < i ==> tables[j] != tables[k]
      invariant forall j :: 0 <= j < i ==> tables[j].Valid() && tables[j].items == |tables[j].history|
      invariant forall j :: 0 <= j < i ==>
        && tables[j].maxFileSize == sizes[j] && Survivors(ds[j]) <= |alls[j]| && |Entries(ds[j])| >= 1
        && ViewOf(tables[j]) == Found(ds[j], alls[j], tails[j])
    {
      var t := OpenOne(ds[i], sizes[i], stops[i], alls[i], lo, tails[i]);
      tables := tables + [t];
    }
  }

  /** The items below n can be hidden in a table over d. */
  ghost predicate Hidable(d: Disk, n: nat) {
    |Entries(d)| >= 1
    && exists head, size :: Last(Entries(d)).filenum <= head && TailFits(Layout(Entries(d), head, size), n)
  }

  /** Fewer entries do not make the number of deleted items larger than it can be stored. */
  lemma PrefixFits(l: Layout, n: nat, l': Layout)
    requires Ordered(l.es) && Last(l.es).filenum <= l.head && TailFits(l, n)
    requires 1 <= |l'.es| && l'.es <= l.es && n < l.es[0].offset + |l'.es| && l'.head == Last(l'.es).filenum
    ensures TailFits(l', n)
  {
    var m := n - l.es[0].offset;
    var tail := if m + 1 == |l.es| then l.head else l.es[m + 1].filenum;
    var tail' := if m + 1 == |l'.es| then l'.head else l'.es[m + 1].filenum;
    if tail' != l.es[0].filenum && m + 1 == |l'.es| {
      assert tail' == l.es[m].filenum && m > 0;
      assert m + 1 < |l.es| ==> Before(l.es[m], l.es[m + 1]);
      if tail == tail' {
        SameElsewhere(l.es, l'.es, m, tail);
      } else if tail != l.es[0].filenum {
        assert HideBelow(l, n).es[0].offset == n;
      }
    } else if tail' != l.es[0].filenum {
      SameElsewhere(l.es, l'.es, m, tail);
    }
  }

  lemma {:induction false} SameElsewhere(es: seq<IndexEntry>, es': seq<IndexEntry>, m: nat, f: nat)
    requires es' <= es && m < |es'|
    ensures LastElsewhere(es', m, f) == LastElsewhere(es, m, f)
  {
    if m > 0 {
      SameElsewhere(es, es', m - 1, f);
    }
  }

  /** What can be hidden in a table can be hidden in what is left of it. */
  lemma FoundFits(d: Disk, stop: Disk, all: seq<Blob>, lo: nat, hidden: nat, low: nat, n: nat)
    requires Reaches(stop, all, lo, hidden) && Loss(d, stop)
    requires Survivors(d) <= |all| && |Entries(d)| >= 1 && Sound(Found(d, all, hidden))
    requires hidden < n ==> Hidable(stop, n)
    ensures TailInWidth(HeadCut(Found(d, all, hidden), low), n)
  {
    hide Parse, TailFits, Kept;
    var v := HeadCut(Found(d, all, hidden), low);
    if v.hidden < n <= |v.items| {
      var m, top :| lo <= m <= |all| && Window(stop, all[..m], top, hidden);
      var head, size :| Last(Entries(stop)).filenum <= head && TailFits(Layout(Entries(stop), head, size), n);
      ParsePrefix(stop.index, |d.index|);
      assert stop.index[..|d.index|] == d.index;
      PrefixFits(Layout(Entries(stop), head, size), n, v.lies);
    }
  }

  /** Opens the tables and the freezer over them: it opens if and only if no tail is above the items that survived in
      any table, or the tables agree; and then all tables are in lockstep on the items that survived in all. */
  method OpenLost(ds: seq<Disk>, sizes: seq<nat>, ghost stops: seq<Disk>, ghost alls: seq<seq<Blob>>, ghost lo: nat,
      ghost tails: seq<nat>)
    returns (g: Freezer, ok: bool)
    requires |ds| == |sizes| == |stops| == |alls| == |tails| && ds != [] && AllReach(stops, alls, lo, tails)
    requires forall i :: 0 <= i < |ds| ==> Loss(ds[i], stops[i]) && sizes[i] < 0x1_0000_0000 && |alls[i]| <= MAX_UINT64
    requires forall i :: 0 <= i < |ds| ==> tails[i] < Greatest(tails) ==> Hidable(stops[i], Greatest(tails))
    ensures |g.tables| == |ds|
    ensures ok <==> Opens(ds, tails)
    ensures ok ==> g.Valid() && Holding(g, ds, alls) && g.tail == Greatest(tails)
  {
    hide Table.Valid, Parse, Survivors, Loss, Reaches, Found, Least, Greatest, Freezer.Alignable, TailCut,
      HeadCut, Sound, Freezer.LowHead, Freezer.TopTail, Freezer.Lockstep, Hidable, Same;
    var tables := OpenTables(ds, sizes, stops, alls, lo, tails);
    g := new Freezer(tables);
    FoundAligned(g, ds, stops, alls, lo, tails);
    ok := g.Open();
    if ok {
      forall i | 0 <= i < |ds| ensures g.frozen <= |alls[i]| && g.tables[i].history == alls[i][..g.frozen] {
        FoundCut(ds, alls, tails, i);
      }
    }
  }

  /** No tail is above the items that survived in any table, or the tables agree. */
  ghost predicate Opens(ds: seq<Disk>, tails: seq<nat>)
    requires |ds| == |tails| && ds != []
  {
    Greatest(tails) <= Least(AllSurvivors(ds)) || (Same(AllSurvivors(ds)) && Same(tails))
  }

  /** Every table holds the first items of what it was to hold, as many as survived in all. */
  ghost predicate Holding(g: Freezer, ds: seq<Disk>, alls: seq<seq<Blob>>)
    requires |g.tables| == |ds| == |alls| && ds != []
    reads g, g.tables
  {
    g.frozen == Least(AllSurvivors(ds)) && forall i :: 0 <= i < |ds| ==>
      g.frozen <= |alls[i]| && g.tables[i].history == alls[i][..g.frozen]
  }

  lemma FoundAligned(g: Freezer, ds: seq<Disk>, stops: seq<Disk>, alls: seq<seq<Blob>>, lo: nat,
      tails: seq<nat>)
    requires |g.tables| == |ds| == |stops| == |alls| == |tails| && ds != [] && g.Distinct()
    requires AllReach(stops, alls, lo, tails)
    requires forall i :: 0 <= i < |ds| ==> Loss(ds[i], stops[i]) && |alls[i]| <= MAX_UINT64
    requires forall i :: 0 <= i < |ds| ==> tails[i] < Greatest(tails) ==> Hidable(stops[i], Greatest(tails))
    requires forall i :: 0 <= i < |ds| ==>
      && g.tables[i].Valid() && g.tables[i].items == |g.tables[i].history| && g.tables[i].maxFileSize < 0x1_0000_0000
      && Survivors(ds[i]) <= |alls[i]| && |Entries(ds[i])| >= 1
      && ViewOf(g.tables[i]) == Found(ds[i], alls[i], tails[i])
    ensures g.Alignable() && g.LowHead() == Least(AllSurvivors(ds)) && g.TopTail() == Greatest(tails)
    ensures g.Heads() == AllSurvivors(ds) && g.Tails() == tails
    ensures forall i :: 0 <= i < |ds| ==> Sound(Found(ds[i], alls[i], tails[i]))
  {
    hide Table.Valid, Parse, Survivors, Loss, Reaches, Least, Greatest, TailInWidth, HeadCut, Sound, Hidable;
    assert g.Heads() == AllSurvivors(ds) && g.Tails() == tails;
    forall i | 0 <= i < |ds|
      ensures g.Shows(i, ViewOf(g.tables[i])) && Sound(ViewOf(g.tables[i]))
      ensures TailInWidth(HeadCut(ViewOf(g.tables[i]), g.LowHead()), g.TopTail())
    {
      ViewSound(g.tables[i]);
      FoundFits(ds[i], stops[i], alls[i], lo, tails[i], g.LowHead(), g.TopTail());
    }
  }

  lemma FoundCut(ds: seq<Disk>, alls: seq<seq<Blob>>, tails: seq<nat>, i: nat)
    requires |ds| == |alls| == |tails| && i < |ds| && Opens(ds, tails)
    requires Survivors(ds[i]) <= |alls[i]| && |Entries(ds[i])| >= 1 && Sound(Found(ds[i], alls[i], tails[i]))
    ensures var n := Least(AllSurvivors(ds));
            && n <= |alls[i]|
            && TailCut(HeadCut(Found(ds[i], alls[i], tails[i]), n), Greatest(tails)).items == alls[i][..n]
  {
    hide Parse, Survivors, Least, Greatest, KeepBelow, HideBelow;
    var n := Least(AllSurvivors(ds));
    assert n <= AllSurvivors(ds)[i] && tails[i] <= Greatest(tails);
    assert alls[i][..Survivors(ds[i])][..n] == alls[i][..n];
    if Same(AllSurvivors(ds)) {
      var j :| 0 <= j < |ds| && AllSurvivors(ds)[j] == n;
      assert AllSurvivors(ds)[i] == n;
    }
  }

  // ---------- Stopping an operation ----------

  /** The disk, the number of file operations and the file size of every table. */
  method Disks(f: Freezer) returns (ds: seq<Disk>, froms: seq<nat>, sizes: seq<nat>)
    ensures |ds| == |froms| == |sizes| == |f.tables|
    ensures forall i :: 0 <= i < |ds| ==>
      ds[i] == f.tables[i].disk && froms[i] == |f.tables[i].trace| && sizes[i] == f.tables[i].maxFileSize
  {
    ds, froms, sizes := [], [], [];
    for i := 0 to |f.tables|
      invariant |ds| == |froms| == |sizes| == i
      invariant forall j :: 0 <= j < i ==>
        ds[j] == f.tables[j].disk && froms[j] == |f.tables[j].trace| && sizes[j] == f.tables[j].maxFileSize
    {
      ds, froms, sizes := ds + [f.tables[i].disk], froms + [|f.tables[i].trace|], sizes + [f.tables[i].maxFileSize];
    }
  }

  /** Every table's disk shows a prefix of what the table was to hold. */
  ghost predicate DisksReach(f: Freezer, alls: seq<seq<Blob>>, lo: nat)
    requires |alls| == |f.tables|
    reads f, f.tables
  {
    forall i :: 0 <= i < |alls| ==> Reaches(f.tables[i].disk, alls[i], lo, f.tail)
  }

  lemma ShownReach(f: Freezer, alls: seq<seq<Blob>>, lo: nat)
    requires |alls| == |f.tables|
    requires forall i :: 0 <= i < |alls| ==> f.Shows(i, ViewOf(f.tables[i])) && f.tables[i].itemHidden == f.tail
    requires forall i :: 0 <= i < |alls| ==> f.tables[i].history <= alls[i] && lo <= |f.tables[i].history|
    ensures DisksReach(f, alls, lo)
  {
    hide Window, Reaches, Sound;
    forall i | 0 <= i < |alls| ensures Reaches(f.tables[i].disk, alls[i], lo, f.tail) {
      assert f.Shows(i, ViewOf(f.tables[i]));
      ReachesPrefix(f.tables[i].disk, f.tables[i].history, f.tables[i].headId, f.tail, alls[i], lo);
    }
  }

  /** The disks of the tables when each is stopped after the given file operation: before the first of the operation, in
      the middle, or after the last. With them the tails they show. */
  method Stop(f: Freezer, before: seq<Disk>, at: seq<nat>, froms: seq<nat>, tail0: nat, ghost alls: seq<seq<Blob>>,
      ghost lo: nat)
    returns (stops: seq<Disk>, tails: seq<nat>)
    requires |before| == |at| == |froms| == |alls| == |f.tables|
    requires forall i :: 0 <= i < |alls| ==> Reaches(before[i], alls[i], lo, tail0)
    requires DisksReach(f, alls, lo)
    requires forall i :: 0 <= i < |alls| ==> f.KeptThroughout(i, alls[i], lo, f.tail, froms[i])
    ensures |stops| == |tails| == |alls| && AllReach(stops, alls, lo, tails)
    ensures forall i :: 0 <= i < |tails| ==> tails[i] == if at[i] < froms[i] then tail0 else f.tail
    ensures forall i :: 0 <= i < |tails| && at[i] < froms[i] ==> stops[i] == before[i]
  {
    hide Reaches;
    stops, tails := [], [];
    for i := 0 to |f.tables|
      invariant |stops| == |tails| == i && forall j :: 0 <= j < i ==> Reaches(stops[j], alls[j], lo, tails[j])
      invariant forall j :: 0 <= j < i ==> tails[j] == if at[j] < froms[j] then tail0 else f.tail
      invariant forall j :: 0 <= j < i && at[j] < froms[j] ==> stops[j] == before[j]
    {
      assert Reaches(f.tables[i].disk, alls[i], lo, f.tail) && f.KeptThroughout(i, alls[i], lo, f.tail, froms[i]);
      var d := if at[i] < froms[i] then before[i]
               else if at[i] < |f.tables[i].trace| then f.tables[i].trace[at[i]] else f.tables[i].disk;
      stops := stops + [d];
      tails := tails + [if at[i] < froms[i] then tail0 else f.tail];
    }
  }

  /** Loses what a crash takes and opens the rest. */
  method Revive(stops: seq<Disk>, lose: (nat, Disk) -> Disk, sizes: seq<nat>, ghost alls: seq<seq<Blob>>, ghost lo: nat,
      ghost tails: seq<nat>)
    returns (ds: seq<Disk>, g: Freezer, ok: bool)
    requires |sizes| == |stops| == |alls| == |tails| && stops != [] && AllReach(stops, alls, lo, tails) && Losing(lose)
    requires forall i :: 0 <= i < |stops| ==> sizes[i] < 0x1_0000_0000 && |alls[i]| <= MAX_UINT64
    requires forall i :: 0 <= i < |stops| ==> tails[i] < Greatest(tails) ==> Hidable(stops[i], Greatest(tails))
    ensures |ds| == |g.tables| == |stops| && forall i :: 0 <= i < |ds| ==> ds[i] == lose(i, stops[i])
    ensures ok <==> Opens(ds, tails)
    ensures ok ==> g.Valid() && Holding(g, ds, alls) && g.tail == Greatest(tails)
    ensures forall i :: 0 <= i < |ds| && ds[i] == stops[i] ==> lo <= Survivors(ds[i])
  {
    hide Survivors, Loss, Greatest, Least, Hidable, Freezer.Valid, Opens, Holding, Window;
    ds := LoseAll(stops, lose);
    forall i | 0 <= i < |ds| ensures Loss(ds[i], stops[i]) {
      ReachNewest(stops[i], alls[i], lo, tails[i]);
    }
    forall i | 0 <= i < |ds| && ds[i] == stops[i] ensures lo <= Survivors(ds[i]) {
      AllSurvive(ds[i], alls[i], lo, tails[i]);
    }
    g, ok := OpenLost(ds, sizes, stops, alls, lo, tails);
  }

  lemma ReachNewest(d: Disk, all: seq<Blob>, lo: nat, hidden: nat)
    requires Reaches(d, all, lo, hidden)
    ensures exists top :: NewestAt(d, top)
  {
    hide Parse;
    var m, top :| lo <= m <= |all| && Window(d, all[..m], top, hidden);
    assert NewestAt(d, top);
  }

  lemma OneTail(tails: seq<nat>, t: nat)
    requires tails != [] && forall i :: 0 <= i < |tails| ==> tails[i] == t
    ensures Same(tails) && Greatest(tails) == t
  {
  }

  // ---------- A crash in each operation ----------

  /** What all tables hold after the appends, if none is undone. */
  ghost function AllWritten(ops: seq<Append>, vs: seq<View>): (alls: seq<seq<Blob>>)
    ensures |alls| == |vs|
    ensures forall i :: 0 <= i < |vs| ==> alls[i] == Written(ops, i, vs[i].items)
  {
    seq(|vs|, i requires 0 <= i < |vs| => Written(ops, i, vs[i].items))
  }

  /**
   * A write that is stopped in every table after any of its file operations (or before the first or after the last),
   * and then loses bytes. The freezer opens again if and only if no table is left with fewer items than are hidden, or
   * all with the same number; and then all tables are in lockstep on the first items of what was there and was
   * written, as many as survived in all. Where nothing is lost, all that was there survives.
   */
  method CrashDuringWrite(f: Freezer, ops: seq<Append>, succeeds: bool, at: seq<nat>, lose: (nat, Disk) -> Disk)
    returns (stops: seq<Disk>, ds: seq<Disk>, g: Freezer, ok: bool)
    requires f.Valid() && f.tables != [] && |at| == |f.tables| && f.CanModify(ops) && Losing(lose)
    modifies f, f.tables, f.batches
    ensures |ds| == |g.tables| == |stops| == |f.tables| && forall i :: 0 <= i < |ds| ==> ds[i] == lose(i, stops[i])
    ensures ok <==> old(f.tail) <= Least(AllSurvivors(ds)) || Same(AllSurvivors(ds))
    ensures ok ==> g.Valid() && g.tail == old(f.tail) && Holding(g, ds, AllWritten(ops, old(f.Views())))
    ensures forall i :: 0 <= i < |ds| && ds[i] == stops[i] ==> old(f.frozen) <= Survivors(ds[i])
  {
    hide Survivors, Least, Greatest, Losing, Written, Reaches, Holding, Same, Opens, Freezer.Lockstep, Freezer.Apart,
      DisksReach, AllReach, Freezer.CanModify, Freezer.KeptThroughout;
    ghost var lo, alls := f.frozen, AllWritten(ops, f.Views());
    StartReach(f, ops);
    var before, froms, sizes := Disks(f);
    AllReached(f, before, alls, lo);
    WriteReach(f, ops, succeeds, froms, alls);
    var tails;
    stops, tails := Stop(f, before, at, froms, f.tail, alls, lo);
    OneTail(tails, f.tail);
    ds, g, ok := Revive(stops, lose, sizes, alls, lo, tails);
    assert ok <==> Opens(ds, tails);
    OpensOne(ds, tails);
  }

  lemma OpensOne(ds: seq<Disk>, tails: seq<nat>)
    requires |ds| == |tails| && ds != [] && Same(tails)
    ensures Opens(ds, tails) <==> Greatest(tails) <= Least(AllSurvivors(ds)) || Same(AllSurvivors(ds))
  {
  }

  lemma AllReached(f: Freezer, before: seq<Disk>, alls: seq<seq<Blob>>, lo: nat)
    requires |before| == |alls| == |f.tables| && DisksReach(f, alls, lo)
    requires forall i :: 0 <= i < |alls| ==> before[i] == f.tables[i].disk
    ensures forall i :: 0 <= i < |alls| ==> Reaches(before[i], alls[i], lo, f.tail)
  {
    hide Reaches;
  }

  lemma StartReach(f: Freezer, ops: seq<Append>)
    requires f.Valid() && f.CanModify(ops)
    ensures DisksReach(f, AllWritten(ops, f.Views()), f.frozen)
    ensures forall i :: 0 <= i < |f.tables| ==>
      |AllWritten(ops, f.Views())[i]| <= MAX_UINT64 && f.tables[i].maxFileSize < 0x1_0000_0000
  {
    hide Written, Reaches, Sound, Freezer.Shows, Loaded, Place;
    f.LockstepFacts();
    var alls, parts := AllWritten(ops, f.Views()), f.Drafts(ops);
    assert forall i :: 0 <= i < |alls| ==> parts[i].all == alls[i];
    ShownReach(f, alls, f.frozen);
  }

  method WriteReach(f: Freezer, ops: seq<Append>, succeeds: bool, ghost froms: seq<nat>, ghost alls: seq<seq<Blob>>)
    requires f.Valid() && f.CanModify(ops) && |froms| == |f.tables| && alls == AllWritten(ops, f.Views())
    requires forall i :: 0 <= i < |froms| ==> froms[i] == |f.tables[i].trace|
    modifies f`frozen, f.tables, f.batches
    ensures DisksReach(f, alls, old(f.frozen))
    ensures forall i :: 0 <= i < |alls| ==> f.KeptThroughout(i, alls[i], old(f.frozen), f.tail, froms[i])
  {
    hide Written, TakenAll, Left, Whole, Sound, Reaches, Finished, Freezer.Shows, Freezer.KeptThroughout, DisksReach,
      Even, Unflushed, Freezer.Restored;
    f.LockstepFacts();
    ghost var lo, vs, parts := f.frozen, f.Views(), f.Drafts(ops);
    var done := f.ModifyAncients(ops, succeeds);
    forall i | 0 <= i < |alls|
      ensures f.Shows(i, ViewOf(f.tables[i])) && f.tables[i].itemHidden == f.tail && f.tables[i].history <= alls[i]
    {
      assert parts[i].start == vs[i] && parts[i].all == alls[i];
      assert !done ==> ViewOf(f.tables[i]) == Left(parts[i]);
    }
    ShownReach(f, alls, lo);
  }

  /** A head cut that is stopped and loses bytes: the same, on the first items of what was there. Where nothing is lost
      all that the cut was to leave survives. */
  method CrashDuringCutHead(f: Freezer, n: nat, at: seq<nat>, lose: (nat, Disk) -> Disk)
    returns (stops: seq<Disk>, ds: seq<Disk>, g: Freezer, ok: bool)
    requires f.Valid() && f.tables != [] && |at| == |f.tables| && f.frozen <= MAX_UINT64 && Losing(lose)
    modifies f, f.tables, f.batches
    ensures |ds| == |g.tables| == |stops| == |f.tables| && forall i :: 0 <= i < |ds| ==> ds[i] == lose(i, stops[i])
    ensures ok <==> old(f.tail) <= Least(AllSurvivors(ds)) || Same(AllSurvivors(ds))
    ensures ok ==> g.Valid() && g.tail == old(f.tail) && Holding(g, ds, old(f.Histories()))
    ensures forall i :: 0 <= i < |ds| && ds[i] == stops[i] ==> f.frozen <= Survivors(ds[i])
  {
    hide Survivors, Least, Greatest, Losing, Reaches, Holding, Same, Opens, DisksReach, AllReach, Freezer.Lockstep,
      Freezer.Apart, Freezer.KeptThroughout;
    ghost var alls, lo := f.Histories(), if f.tail <= n < f.frozen then n else f.frozen;
    ValidReach(f, lo);
    var before, froms, sizes := Disks(f);
    AllReached(f, before, alls, lo);
    CutHeadReach(f, n, froms, alls);
    var tails;
    stops, tails := Stop(f, before, at, froms, f.tail, alls, lo);
    OneTail(tails, f.tail);
    ds, g, ok := Revive(stops, lose, sizes, alls, lo, tails);
    OpensOne(ds, tails);
  }

  lemma ValidReach(f: Freezer, lo: nat)
    requires f.Valid() && lo <= f.frozen
    ensures DisksReach(f, f.Histories(), lo)
    ensures forall i :: 0 <= i < |f.tables| ==> |f.tables[i].history| == f.frozen
    ensures forall i :: 0 <= i < |f.tables| ==> f.tables[i].maxFileSize < 0x1_0000_0000
  {
    hide Reaches, Sound, Freezer.Shows;
    f.LockstepFacts();
    ShownReach(f, f.Histories(), lo);
  }

  method CutHeadReach(f: Freezer, n: nat, ghost froms: seq<nat>, ghost alls: seq<seq<Blob>>)
    requires f.Valid() && f.tables != [] && |froms| == |f.tables| && alls == f.Histories()
    requires forall i :: 0 <= i < |froms| ==> froms[i] == |f.tables[i].trace|
    modifies f`frozen, f.tables
    ensures f.frozen == if old(f.tail <= n < f.frozen) then n else old(f.frozen)
    ensures DisksReach(f, alls, f.frozen)
    ensures forall i :: 0 <= i < |alls| ==> f.KeptThroughout(i, alls[i], f.frozen, f.tail, froms[i])
  {
    hide Reaches, Sound, Freezer.Shows, Freezer.KeptThroughout, DisksReach, HeadCut;
    ghost var vs := f.Views();
    var _ := f.TruncateHead(n);
    forall i | 0 <= i < |alls| ensures f.tables[i].history <= alls[i] {
      HeadCutPrefix(vs[i], n);
    }
    f.LockstepFacts();
    ShownReach(f, alls, f.frozen);
  }

  lemma HeadCutPrefix(v: View, n: nat)
    requires Sound(v)
    ensures HeadCut(v, n).items <= v.items
  {
  }

  /** A tail cut that is stopped and loses bytes: the same, with the new tail if any table has got that far. Where
      nothing is lost every item survives. */
  method CrashDuringCutTail(f: Freezer, n: nat, at: seq<nat>, lose: (nat, Disk) -> Disk)
    returns (stops: seq<Disk>, tails: seq<nat>, ds: seq<Disk>, g: Freezer, ok: bool)
    requires f.Valid() && f.tables != [] && |at| == |f.tables| && f.frozen <= MAX_UINT64 && Losing(lose)
    requires forall i :: 0 <= i < |f.tables| ==> TailInWidth(ViewOf(f.tables[i]), n)
    modifies f, f.tables, f.batches
    ensures |ds| == |g.tables| == |stops| == |tails| == |f.tables|
    ensures forall i :: 0 <= i < |ds| ==> ds[i] == lose(i, stops[i])
    ensures forall i :: 0 <= i < |tails| ==>
      tails[i] == if at[i] < |old(f.tables[i].trace)| then old(f.tail) else f.tail
    ensures ok <==> Opens(ds, tails)
    ensures ok ==> g.Valid() && g.tail == Greatest(tails) && Holding(g, ds, old(f.Histories()))
    ensures forall i :: 0 <= i < |ds| && ds[i] == stops[i] ==> f.frozen <= Survivors(ds[i])
  {
    hide Survivors, Least, Greatest, Losing, Reaches, Holding, Same, Opens, DisksReach, AllReach, Freezer.Lockstep,
      Freezer.Apart, Freezer.KeptThroughout, Hidable, TailInWidth;
    ghost var alls := f.Histories();
    ValidReach(f, f.frozen);
    var before, froms, sizes := Disks(f);
    AllReached(f, before, alls, f.frozen);
    ValidHidable(f, n, before);
    var tail0 := f.tail;
    CutTailReach(f, n, froms, alls);
    stops, tails := Stop(f, before, at, froms, tail0, alls, f.frozen);
    ds, g, ok := Revive(stops, lose, sizes, alls, f.frozen, tails);
  }

  /** Where a tail cut takes effect the disks from before can be cut too. */
  lemma ValidHidable(f: Freezer, n: nat, before: seq<Disk>)
    requires f.Valid() && |before| == |f.tables|
    requires forall i :: 0 <= i < |f.tables| ==> before[i] == f.tables[i].disk && TailInWidth(ViewOf(f.tables[i]), n)
    ensures f.tail < n <= f.frozen ==> forall i :: 0 <= i < |before| ==> Hidable(before[i], n)
  {
    hide Parse, TailFits, Sound;
    f.LockstepFacts();
    if f.tail < n <= f.frozen {
      forall i | 0 <= i < |before| ensures Hidable(before[i], n) {
        assert f.Shows(i, ViewOf(f.tables[i]));
        var t := f.tables[i];
        WindowLength(t.disk, t.history, t.headId, t.itemHidden);
        assert TailFits(Layout(Entries(before[i]), t.headId, t.headBytes), n);
      }
    }
  }

  method CutTailReach(f: Freezer, n: nat, ghost froms: seq<nat>, ghost alls: seq<seq<Blob>>)
    requires f.Valid() && f.tables != [] && |froms| == |f.tables| && alls == f.Histories()
    requires forall i :: 0 <= i < |froms| ==> froms[i] == |f.tables[i].trace|
    requires forall i :: 0 <= i < |f.tables| ==> TailInWidth(ViewOf(f.tables[i]), n)
    modifies f`tail, f.tables
    ensures f.tail == if old(f.tail < n <= f.frozen) then n else old(f.tail)
    ensures DisksReach(f, alls, f.frozen)
    ensures forall i :: 0 <= i < |alls| ==> f.KeptThroughout(i, alls[i], f.frozen, f.tail, froms[i])
  {
    hide Reaches, Sound, Freezer.Shows, Freezer.KeptThroughout, DisksReach, TailInWidth, TailCut;
    ghost var vs := f.Views();
    f.LockstepFacts();
    f.TailLengths(vs, n, f.frozen, f.tail);
    var _ := f.TruncateTail(n);
    f.LockstepFacts();
    ShownReach(f, alls, f.frozen);
  }

  // ---------- A write that fails with the tail above the items ----------

  /** One append of a write that fails, when the tail lies above the items frozen: an item larger than the buffer is
      written at once and not taken back, a smaller one leaves nothing behind. */
  method FailedWrite(f: Freezer, blob: Blob) returns (ok: bool)
    requires f.Valid() && f.tables != [] && f.tail > f.frozen
    requires |blob| < 0x1_0000_0000 && f.frozen + 1 < MAX_UINT64
    requires Place(f.tables[0].Lies(), |blob|, f.tables[0].maxFileSize).head < 0x1_0000
    modifies f, f.tables, f.batches
    ensures !ok && f.frozen == old(f.frozen)
    ensures f.tables[0].history == old(f.tables[0].history) + if |blob| > BUFFER_LIMIT then [blob] else []
  {
    hide Parse, Window, Reaches, Freezer.KeptThroughout, Even, Unflushed, Freezer.Restored, Written, Table.Valid;
    f.LockstepFacts();
    var op := Append(0, f.frozen, blob);
    HeadsFit(f);
    ghost var d := f.Drafts([op])[0];
    OneAppend(f, op);
    ok := f.ModifyAncients([op], false);
    LeftSame(d);
    assert d.all[..|d.all|] == d.all && d.all[..f.frozen] == d.start.items;
  }

  lemma HeadsFit(f: Freezer)
    requires f.Valid()
    ensures forall i :: 0 <= i < |f.tables| ==> f.tables[i].headId < 0x1_0000
  {
    hide Parse, Window;
    f.LockstepFacts();
    assert forall i :: 0 <= i < |f.tables| ==> f.Shows(i, ViewOf(f.tables[i]));
  }

  lemma OneAppend(f: Freezer, op: Append)
    requires f.Lockstep()
    ensures forall i :: 0 <= i < |f.tables| ==> Sound(ViewOf(f.tables[i]))
    ensures forall i :: 0 <= i < |f.tables| ==>
      f.Drafts([op])[i] == Taken(Begun(ViewOf(f.tables[i])), op, i, f.tables[i].maxFileSize)
  {
    hide Parse, Window;
    f.LockstepFacts();
    forall i | 0 <= i < |f.tables|
      ensures f.Drafts([op])[i] == Taken(Begun(ViewOf(f.tables[i])), op, i, f.tables[i].maxFileSize)
    {
      assert [op][..0] == [];
      assert TakenAll(ViewOf(f.tables[i]), [], i, f.tables[i].maxFileSize) == Begun(ViewOf(f.tables[i]));
    }
  }

  /** The most bytes in one data file. */
  const TABLE_SIZE: nat := 2 * 1000 * 1000 * 1000

  /** A table with one item, which is hidden. */
  method HiddenItem() returns (t: Table)
    ensures fresh(t) && t.Valid() && t.history == [[7]] && t.itemHidden == 1 && t.headId == 0
    ensures Entries(t.disk) == [IndexEntry(0, 0), IndexEntry(0, 1)]
  {
    hide Window, Table.Valid, MarshalAll, NewEntries, Parse;
    t := CreateTable(TABLE_SIZE);
    var b := new TableBatch(t);
    var blobs := [[7]];
    ghost var l := Layout([IndexEntry(0, 0)], 0, 0);
    assert blobs[..0] == [] && PlaceAll(l, blobs[..0], TABLE_SIZE) == l;
    assert PlaceAll(l, blobs, TABLE_SIZE) == Place(l, 1, TABLE_SIZE)
      == Layout([IndexEntry(0, 0), IndexEntry(0, 1)], 0, 1);
    WriteAll(b, blobs);
    ItemCount(t);
    var _ := t.TruncateTail(1);
  }

  /** One item is written and hidden, and a crash takes its index entry: the tail is above the items. */
  method LostItem() returns (t: Table)
    ensures fresh(t) && t.Valid() && t.history == [] && t.itemHidden == 1 && t.maxFileSize == TABLE_SIZE
    ensures t.Lies() == Layout([IndexEntry(0, 0)], 0, 0) && t.items == 0
  {
    hide Window, Table.Valid, Parse, Kept, Crashed;
    var whole := HiddenItem();
    ItemsIn(whole);
    var d := whole.disk;
    OneEntry(d);
    t := new Table(d.(index := d.index[..ENTRY_SIZE]), TABLE_SIZE);
    ghost var d' := t.disk;
    var ok := t.Reopen(d, [[7]], 0, 1);
    assert Entries(d')[..1] == [IndexEntry(0, 0)];
    ItemCount(t);
  }

  lemma ItemsIn(t: Table)
    requires t.Valid()
    ensures Window(t.disk, t.history, t.headId, t.itemHidden)
  {
  }

  lemma OneEntry(d: Disk)
    requires Window(d, [[7]], 0, 1) && Entries(d)[0] == IndexEntry(0, 0)
    ensures var d' := d.(index := d.index[..ENTRY_SIZE]);
            && |d.index| >= ENTRY_SIZE && Crashed(d', d, 0) && Entries(d') == [IndexEntry(0, 0)]
            && Kept(d'.files, Entries(d')) == 1
  {
    hide Parse;
    WindowLength(d, [[7]], 0, 1);
    ParsePrefix(d.index, ENTRY_SIZE);
  }

  method TailAboveFrozen() returns (f: Freezer)
    ensures fresh(f) && f.Valid() && |f.tables| == 1 && f.frozen == 0 && f.tail == 1
    ensures fresh(f.tables[0]) && f.tables[0].maxFileSize == TABLE_SIZE
    ensures f.tables[0].history == [] && f.tables[0].Lies() == Layout([IndexEntry(0, 0)], 0, 0)
    ensures forall i :: 0 <= i < |f.batches| ==> fresh(f.batches[i])
  {
    hide Window, Table.Valid, Parse, KeepBelow, HideBelow;
    var t := LostItem();
    f := new Freezer([t]);
    ViewSound(t);
    assert f.Shows(0, ViewOf(t)) && f.Heads() == [0] && f.Tails() == [1];
    var ok := f.Open();
  }

  /** A failed write leaves the freezer's one table with an item it did not have if the item is large, and without it if
      it is small. */
  method FailedWriteHappens(blob: Blob) returns (f: Freezer, ok: bool)
    requires |blob| <= TABLE_SIZE
    ensures !ok && f.frozen == 0 && |f.tables| == 1
    ensures f.tables[0].history == if |blob| > BUFFER_LIMIT then [blob] else []
  {
    hide Window, MarshalAll, NewEntries, Parse, Flatten, Freezer.Lockstep, Freezer.Apart;
    f := TailAboveFrozen();
    ok := FailedWrite(f, blob);
  }
}
