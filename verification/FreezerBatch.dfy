/** Batched appends to one freezer table. */
module FreezerBatch {
  import opened Bytes
  import opened FreezerIndex
  import opened FreezerDisk
  import opened FreezerTable
  import opened Wrappers

  /** Bytes buffered in memory before a batch writes them out by itself. */
  const BUFFER_LIMIT: nat := 2 * 1024 * 1024

  /** The index entries of blobs written to file f from offset size on. */
  function NewEntries(bs: seq<Blob>, f: nat, size: nat): (es: seq<IndexEntry>)
    ensures |es| == |bs|
  {
    if bs == [] then [] else NewEntries(bs[..|bs| - 1], f, size) + [IndexEntry(f, size + |Flatten(bs)|)]
  }

  function MarshalAll(es: seq<IndexEntry>): (b: seq<byte>)
    ensures |b| == ENTRY_SIZE * |es|
  {
    if es == [] then [] else MarshalAll(es[..|es| - 1]) + Marshal(es[|es| - 1])
  }

  lemma {:induction false} ParseMarshalAll(es: seq<IndexEntry>)
    requires forall i :: 0 <= i < |es| ==> Fits(es[i])
    ensures Parse(MarshalAll(es)) == es
  {
    hide Parse, Marshal;
    if es == [] {
      ParseLength([]);
    } else {
      var n := |es| - 1;
      ParseMarshalAll(es[..n]);
      ParseOne(es[n]);
      ParseConcat(MarshalAll(es[..n]), Marshal(es[n]));
    }
  }

  /** Blobs lying in the head file after the last item join the history one by one. */
  lemma {:induction false} StoresNewEntries(files: map<nat, seq<byte>>, es: seq<IndexEntry>, h: seq<Blob>,
      top: nat, bs: seq<Blob>)
    requires |es| >= 1 && Stores(files, es, h, top)
    requires top in files
    requires var size := HeadSize(es, top);
      size + |Flatten(bs)| <= |files[top]| && files[top][size..size + |Flatten(bs)|] == Flatten(bs)
    ensures Stores(files, es + NewEntries(bs, top, HeadSize(es, top)), h + bs, top)
    ensures bs != [] ==>
              Last(es + NewEntries(bs, top, HeadSize(es, top))) == IndexEntry(top, HeadSize(es, top) + |Flatten(bs)|)
  {
    hide Stores;
    var size := HeadSize(es, top);
    if bs == [] {
      assert es + NewEntries(bs, top, size) == es && h + bs == h;
    } else {
      var n := |bs| - 1;
      var bs0, b := bs[..n], bs[n];
      var all := files[top][size..size + |Flatten(bs)|];
      assert Flatten(bs) == Flatten(bs0) + b;
      assert files[top][size..size + |Flatten(bs0)|] == all[..|Flatten(bs0)|];
      assert files[top][size + |Flatten(bs0)|..size + |Flatten(bs)|] == all[|Flatten(bs0)|..];
      StoresNewEntries(files, es, h, top, bs0);
      var es0 := es + NewEntries(bs0, top, size);
      StoresAppended(files, es0, h + bs0, top, size + |Flatten(bs0)|, b);
      assert es0 + [IndexEntry(top, size + |Flatten(bs)|)] == es + NewEntries(bs, top, size);
      assert h + bs0 + [b] == h + bs;
    }
  }

  /** The disk after the buffered data is written, and after the buffered index entries are. */
  lemma CommitWindows(d: Disk, h: seq<Blob>, top: nat, hidden: nat, bs: seq<Blob>)
    requires Window(d, h, top, hidden)
    requires top < 0x1_0000 && top in d.files
    requires |d.files[top]| == HeadSize(Entries(d), top)
    requires |d.files[top]| + |Flatten(bs)| < 0x1_0000_0000
    ensures var size := |d.files[top]|;
            var d1 := d.(files := d.files[top := d.files[top] + Flatten(bs)]);
            var d2 := d1.(index := d1.index + MarshalAll(NewEntries(bs, top, size)));
            && Window(d1, h, top, hidden)
            && Window(d2, h + bs, top, hidden)
            && Entries(d2) == Entries(d) + NewEntries(bs, top, size)
            && HeadSize(Entries(d2), top) == |d2.files[top]|
  {
    hide Parse, Stores, Marshal, MarshalAll, Flatten;
    WindowLength(d, h, top, hidden);
    var size, es := |d.files[top]|, Entries(d);
    var added := NewEntries(bs, top, size);
    var files1 := d.files[top := d.files[top] + Flatten(bs)];
    StoresGrown(d.files, es, h, top, files1);
    assert files1[top][size..size + |Flatten(bs)|] == Flatten(bs);
    StoresNewEntries(files1, es, h, top, bs);
    NewEntriesFit(bs, top, size);
    ParseMarshalAll(added);
    ParseConcat(d.index, MarshalAll(added));
    assert Parse(d.index + MarshalAll(added)) == es + added;
    if bs == [] {
      FlattenEmpty();
      assert es + added == es;
    }
  }

  lemma FlattenEmpty()
    ensures Flatten([]) == []
  {
  }

  lemma StoresGrown(files: map<nat, seq<byte>>, es: seq<IndexEntry>, h: seq<Blob>, top: nat,
      files': map<nat, seq<byte>>)
    requires Stores(files, es, h, top)
    requires top in files && top in files' && files[top] <= files'[top] && files' == files[top := files'[top]]
    ensures Stores(files', es, h, top)
  {
    StoresFrame(files, es, h, top, files');
  }

  lemma {:induction false} NewEntriesFit(bs: seq<Blob>, f: nat, size: nat)
    requires f < 0x1_0000 && size + |Flatten(bs)| < 0x1_0000_0000
    ensures forall i :: 0 <= i < |bs| ==> Fits(NewEntries(bs, f, size)[i])
  {
    if bs != [] {
      NewEntriesFit(bs[..|bs| - 1], f, size);
    }
  }

  /** The disk shows some prefix of `all` that is at least lo items long. */
  ghost predicate Reaches(d: Disk, all: seq<Blob>, lo: nat, hidden: nat) {
    exists m, top :: lo <= m <= |all| && Window(d, all[..m], top, hidden)
  }

  /** Every disk since file operation `from` shows a prefix of `all` that is at least lo items long. */
  ghost predicate Traced(trace: seq<Disk>, all: seq<Blob>, lo: nat, hidden: nat, from: nat) {
    from <= |trace| && forall k :: from <= k < |trace| ==> Reaches(trace[k], all, lo, hidden)
  }

  lemma TracedStep(trace: seq<Disk>, d: Disk, h: seq<Blob>, top: nat, all: seq<Blob>, lo: nat, hidden: nat, from: nat)
    requires Traced(trace, all, lo, hidden, from) && Window(d, h, top, hidden) && h <= all && lo <= |h|
    ensures Traced(trace + [d], all, lo, hidden, from)
  {
    hide Window, Reaches;
    ReachesPrefix(d, h, top, hidden, all, lo);
  }

  lemma TracedMore(trace: seq<Disk>, all: seq<Blob>, lo: nat, hidden: nat, from: nat, all': seq<Blob>)
    requires Traced(trace, all, lo, hidden, from) && all <= all'
    ensures Traced(trace, all', lo, hidden, from)
  {
    hide Window, Reaches;
    forall k | from <= k < |trace| ensures Reaches(trace[k], all', lo, hidden) {
      ReachesMore(trace[k], all, lo, hidden, all', lo);
    }
  }

  lemma ReachesPrefix(d: Disk, h: seq<Blob>, top: nat, hidden: nat, all: seq<Blob>, lo: nat)
    requires Window(d, h, top, hidden)
    requires h <= all && lo <= |h|
    ensures Reaches(d, all, lo, hidden)
  {
    assert all[..|h|] == h;
  }

  lemma ReachesMore(d: Disk, all: seq<Blob>, lo: nat, hidden: nat, all': seq<Blob>, lo': nat)
    requires Reaches(d, all, lo, hidden)
    requires all <= all' && lo' <= lo
    ensures Reaches(d, all', lo', hidden)
  {
    hide Window;
    var m, top :| lo <= m <= |all| && Window(d, all[..m], top, hidden);
    assert all'[..m] == all[..m];
  }

  lemma HeadBytesFit(t: Table)
    requires t.Valid()
    ensures t.headBytes < 0x1_0000_0000
  {
    hide Parse, Stores;
    WindowLength(t.disk, t.history, t.headId, t.itemHidden);
    LastFits(t.disk.index);
  }

  /** Where an item of n bytes goes: behind the last one, or at the start of a new file if that would
      make the current one larger than max. */
  function Place(l: Layout, n: nat, max: nat): Layout {
    if l.size + n > max then Layout(l.es + [IndexEntry(l.head + 1, n)], l.head + 1, n)
    else Layout(l.es + [IndexEntry(l.head, l.size + n)], l.head, l.size + n)
  }

  function PlaceAll(l: Layout, bs: seq<Blob>, max: nat): (r: Layout)
    ensures |r.es| == |l.es| + |bs| && l.es <= r.es && l.head <= r.head
  {
    if bs == [] then l else Place(PlaceAll(l, bs[..|bs| - 1], max), |bs[|bs| - 1]|, max)
  }

  lemma PlaceNext(l: Layout, bs: seq<Blob>, max: nat, k: nat)
    requires k <= |bs|
    ensures PlaceAll(l, bs[..0], max) == l
    ensures k < |bs| ==> PlaceAll(l, bs[..k + 1], max) == Place(PlaceAll(l, bs[..k], max), |bs[k]|, max)
  {
    if k < |bs| {
      assert bs[..k + 1][..k] == bs[..k];
    }
  }

  /** File numbers only grow while items are placed. */
  lemma {:induction false} PlaceGrows(l: Layout, bs: seq<Blob>, max: nat, k: nat)
    requires k <= |bs|
    ensures PlaceAll(l, bs[..k], max).head <= PlaceAll(l, bs, max).head
    decreases |bs|
  {
    if k == |bs| {
      assert bs[..k] == bs;
    } else {
      PlaceGrows(l, bs[..|bs| - 1], max, k);
      assert bs[..|bs| - 1][..k] == bs[..k];
    }
  }

  /** How far a batch has got: the items that are on disk, and the bytes of those after them. */
  datatype Load = Load(flushed: nat, bytes: nat)

  /** How far it is after an item of n bytes more, the count-th, if the head file would hold `size` bytes without
      it: before a new file is begun, and when the buffer is full, everything is written. */
  function Loaded(l: Load, count: nat, size: nat, n: nat, max: nat): Load {
    var begun := if size + n > max then Load(count, 0) else l;
    if begun.bytes + n > BUFFER_LIMIT then Load(count + 1, 0) else Load(begun.flushed, begun.bytes + n)
  }

  /** Where the items on disk lie, of count items that lie as l or are going to. */
  ghost function OnDisk(l: Layout, count: nat, load: Load): Layout
    requires load.flushed <= count <= load.flushed + |l.es| && load.bytes <= l.size
  {
    Layout(l.es[..|l.es| - (count - load.flushed)], l.head, l.size - load.bytes)
  }

  class TableBatch {
    const t: Table
    var dataBuffer: seq<byte>
    var indexBuffer: seq<byte>
    var curItem: nat

    /** The blobs appended and not yet written. */
    ghost var pending: seq<Blob>

    /** The items of the table when the batch was last reset, and the file operations made until then. */
    ghost var base: seq<Blob>
    ghost var started: nat

    /** The table and the buffers are in step. */
    ghost predicate Valid()
      reads this, t
    {
      && t.Valid()
      && t.maxFileSize < 0x1_0000_0000
      && curItem == t.items + |pending|
      && dataBuffer == Flatten(pending)
      && indexBuffer == MarshalAll(NewEntries(pending, t.headId, t.headBytes))
      && t.headBytes + |dataBuffer| < 0x1_0000_0000
      && base <= t.history
      && Traced(t.trace, All(), |base|, t.itemHidden, started)
    }

    /** Everything appended: the items of the table and those pending. */
    ghost function All(): seq<Blob>
      reads this, t
    {
      t.history + pending
    }

    /** Where everything appended lies or is going to. */
    ghost function Lies(): Layout
      reads this, t
    {
      Layout(Entries(t.disk) + NewEntries(pending, t.headId, t.headBytes), t.headId, t.headBytes + |dataBuffer|)
    }

    ghost function Gauge(): Load
      reads this, t
    {
      Load(|t.history|, |dataBuffer|)
    }

    /** What is on disk follows from what was appended and how far the batch has got. */
    lemma FlushedLayout()
      requires Valid()
      ensures Gauge().flushed <= |All()| <= Gauge().flushed + |Lies().es| && Gauge().bytes <= Lies().size
      ensures t.Lies() == OnDisk(Lies(), |All()|, Gauge()) && t.history == All()[..Gauge().flushed]
    {
      hide Parse, Stores, MarshalAll, Flatten, Traced;
      assert Lies().es[..|Entries(t.disk)|] == Entries(t.disk);
    }

    constructor (t: Table)
      requires t.Valid() && t.maxFileSize < 0x1_0000_0000
      ensures this.t == t && Valid() && pending == [] && Lies() == t.Lies()
    {
      HeadBytesFit(t);
      this.t := t;
      dataBuffer, indexBuffer, curItem, pending := [], [], t.items, [];
      base, started := t.history, |t.trace|;
    }

    /** Forgets what was appended and not written. */
    method Reset()
      requires t.Valid() && t.maxFileSize < 0x1_0000_0000
      modifies this
      ensures Valid() && pending == [] && Lies() == t.Lies() && base == t.history && started == |t.trace|
      ensures Gauge() == Load(|t.history|, 0)
    {
      HeadBytesFit(t);
      dataBuffer, indexBuffer, curItem, pending := [], [], t.items, [];
      base, started := t.history, |t.trace|;
    }

    /** Writes the data buffered, then the index entries for it. In between the disk shows the
        items from before. */
    method Commit()
      requires Valid()
      modifies this, t
      ensures Valid() && pending == [] && curItem == old(curItem) && base == old(base) && started == old(started)
      ensures t.history == old(All()) && t.items == |t.history|
      ensures t.Lies() == old(Lies()) == Lies()
      ensures t.headId == old(t.headId) && t.headId in old(t.disk.files)
      ensures t.disk.index == old(t.disk.index) + old(indexBuffer)
      ensures t.disk.files == old(t.disk.files)[t.headId := old(t.disk.files)[t.headId] + old(dataBuffer)]
      ensures old(t.Tidy()) ==> t.Tidy()
      ensures t.itemHidden == old(t.itemHidden) && t.itemOffset == old(t.itemOffset)
      ensures |t.trace| == |old(t.trace)| + 2 && old(t.trace) <= t.trace
      ensures Window(t.trace[|old(t.trace)|], old(t.history), t.headId, t.itemHidden)
      ensures t.trace[|old(t.trace)| + 1] == t.disk
    {
      hide Parse, Stores, Marshal, MarshalAll, NewEntries, Flatten, Traced;
      WindowLength(t.disk, t.history, t.headId, t.itemHidden);
      CommitWindows(t.disk, t.history, t.headId, t.itemHidden, pending);
      ghost var all := All();
      ghost var tr := t.trace;
      t.Put(t.disk.(files := t.disk.files[t.headId := t.disk.files[t.headId] + dataBuffer]));
      TracedStep(tr, t.disk, t.history, t.headId, all, |base|, t.itemHidden, started);
      var dataSize := |dataBuffer|;
      dataBuffer := [];
      tr := t.trace;
      t.Put(t.disk.(index := t.disk.index + indexBuffer));
      TracedStep(tr, t.disk, all, t.headId, all, |base|, t.itemHidden, started);
      indexBuffer := [];
      t.headBytes := t.headBytes + dataSize;
      t.items := curItem;
      t.history := t.history + pending;
      pending := [];
      NothingPending(t.headId, t.headBytes);
      assert All() == all;
    }

    /** Puts an item into the buffers, starting a new data file first where it does not fit into
        the current one, and writing the buffers out when they are full. */
    method AppendItem(data: Blob)
      requires Valid()
      requires |data| < 0x1_0000_0000 // offsets are stored in 32 bits
      requires Place(Lies(), |data|, t.maxFileSize).head < 0x1_0000 // file numbers in 16
      modifies this, t
      ensures Valid()
      ensures All() == old(All()) + [data] && curItem == old(curItem) + 1
      ensures t.itemHidden == old(t.itemHidden) && t.itemOffset == old(t.itemOffset)
      ensures Gauge() == Loaded(old(Gauge()), |old(All())|, old(Lies()).size, |data|, t.maxFileSize)
      ensures Lies() == Place(old(Lies()), |data|, t.maxFileSize) && base == old(base) && started == old(started)
      ensures old(t.headBytes) + |old(dataBuffer)| + |data| > t.maxFileSize ==>
                t.headId == old(t.headId) + 1 && t.headBytes + |dataBuffer| == |data|
      ensures old(t.headBytes) + |old(dataBuffer)| + |data| <= t.maxFileSize ==>
                t.headId == old(t.headId)
                && t.headBytes + |dataBuffer| == old(t.headBytes) + |old(dataBuffer)| + |data|
      ensures var full := old(t.headBytes) + |old(dataBuffer)| + |data| > t.maxFileSize;
              var bytes := |data| + if full then 0 else |old(dataBuffer)|;
              && |dataBuffer| == (if bytes > 2097152 then 0 else bytes)
              && |t.history| == if bytes > 2097152 then |old(All())| + 1
                                else if full then |old(All())| else |old(t.history)|
      ensures old(t.Tidy()) ==> t.Tidy()
      ensures old(t.history) <= t.history && old(t.trace) <= t.trace
      ensures forall k :: |old(t.trace)| <= k < |t.trace| ==> Reaches(t.trace[k], All(), |old(t.history)|, t.itemHidden)
    {
      hide Parse, Marshal, MarshalAll, NewEntries, Flatten, Reaches, Window, Table.Valid, Traced;
      var itemOffset := t.headBytes + |dataBuffer|;
      if itemOffset + |data| > t.maxFileSize {
        CommitAndAdvance();
        itemOffset := 0;
      }
      Buffer(data, itemOffset);
      ghost var lo := |old(t.history)|;
      forall k | |old(t.trace)| <= k < |t.trace| ensures Reaches(t.trace[k], All(), lo, t.itemHidden) {
        ReachesMore(t.trace[k], old(All()), lo, t.itemHidden, All(), lo);
      }
      if |dataBuffer| > BUFFER_LIMIT {
        Spill(lo);
      }
    }

    /** Puts an item into the buffers. */
    method Buffer(data: Blob, itemOffset: nat)
      requires Valid() && itemOffset == t.headBytes + |dataBuffer|
      requires itemOffset + |data| < 0x1_0000_0000
      modifies this
      ensures Valid() && All() == old(All()) + [data] && curItem == old(curItem) + 1
      ensures base == old(base) && started == old(started) && |dataBuffer| == |old(dataBuffer)| + |data|
      ensures Lies()
              == Layout(old(Lies()).es + [IndexEntry(t.headId, itemOffset + |data|)], t.headId, itemOffset + |data|)
    {
      hide Parse, Marshal, MarshalAll, NewEntries, Flatten, Window, Table.Valid, Traced;
      PendingOne(pending, t.headId, t.headBytes, data);
      TracedMore(t.trace, All(), |base|, t.itemHidden, started, t.history + (pending + [data]));
      dataBuffer := dataBuffer + data;
      indexBuffer := indexBuffer + Marshal(IndexEntry(t.headId, itemOffset + |data|));
      curItem := curItem + 1;
      pending := pending + [data];
    }

    /** Writes full buffers out. */
    method Spill(ghost lo: nat)
      requires Valid() && lo <= |t.history|
      modifies this, t
      ensures Valid() && dataBuffer == [] && curItem == old(curItem) && t.history == All()
      ensures old(t.Tidy()) ==> t.Tidy()
      ensures All() == old(All()) && Lies() == old(Lies()) && base == old(base) && started == old(started)
      ensures t.itemHidden == old(t.itemHidden) && t.itemOffset == old(t.itemOffset)
      ensures old(t.history) <= t.history && old(t.trace) <= t.trace
      ensures forall k :: |old(t.trace)| <= k < |t.trace| ==> Reaches(t.trace[k], All(), lo, t.itemHidden)
    {
      hide Parse, Marshal, MarshalAll, NewEntries, Flatten, Reaches, Stores, Traced;
      ghost var all, n, h := All(), |t.trace|, t.history;
      Commit();
      NothingPending(t.headId, t.headBytes);
      ReachesPrefix(t.trace[n], h, t.headId, t.itemHidden, all, lo);
      ReachesPrefix(t.trace[n + 1], t.history, t.headId, t.itemHidden, all, lo);
    }

    method CommitAndAdvance()
      requires Valid()
      requires t.headId + 1 < 0x1_0000
      modifies this, t
      ensures Valid() && pending == [] && curItem == old(curItem)
      ensures t.history == old(All()) && t.headBytes == 0 && dataBuffer == []
      ensures base == old(base) && started == old(started)
      ensures t.Lies() == Layout(old(Lies()).es, old(t.headId) + 1, 0)
      ensures old(t.Tidy()) ==> t.Tidy()
      ensures t.itemHidden == old(t.itemHidden) && t.itemOffset == old(t.itemOffset)
      ensures old(t.trace) <= t.trace
      ensures forall k :: |old(t.trace)| <= k < |t.trace| ==>
                Reaches(t.trace[k], t.history, |old(t.history)|, t.itemHidden)
    {
      hide Parse, Marshal, MarshalAll, NewEntries, Flatten, Reaches, Stores, Traced;
      Commit();
      assert All() == t.history;
      ghost var tr := t.trace;
      t.AdvanceHead();
      assert All() == t.history;
      TracedStep(tr, t.disk, t.history, t.headId, t.history, |base|, t.itemHidden, started);
      NothingPending(t.headId, 0);
      ghost var n, lo := |old(t.trace)|, |old(t.history)|;
      ReachesPrefix(t.trace[n], old(t.history), old(t.headId), t.itemHidden, t.history, lo);
      ReachesPrefix(t.trace[n + 1], t.history, old(t.headId), t.itemHidden, t.history, lo);
      ReachesPrefix(t.trace[n + 2], t.history, t.headId, t.itemHidden, t.history, lo);
    }

    /** Appends an item with its number, which must be the next one. */
    method AppendRaw(item: nat, blob: Blob) returns (ok: bool)
      requires Valid()
      requires item == curItem ==> |blob| < 0x1_0000_0000 && Place(Lies(), |blob|, t.maxFileSize).head < 0x1_0000
      modifies this, t
      ensures Valid()
      ensures ok <==> item == old(curItem)
      ensures All() == (if ok then old(All()) + [blob] else old(All()))
      ensures curItem == (if ok then old(curItem) + 1 else old(curItem))
      ensures Gauge() == if ok then Loaded(old(Gauge()), |old(All())|, old(Lies()).size, |blob|, t.maxFileSize)
                        else old(Gauge())
      ensures base == old(base) && started == old(started)
      ensures t.itemHidden == old(t.itemHidden) && t.itemOffset == old(t.itemOffset)
      ensures Lies() == if ok then Place(old(Lies()), |blob|, t.maxFileSize) else old(Lies())
      ensures old(t.Tidy()) ==> t.Tidy()
      ensures old(t.history) <= t.history && old(t.trace) <= t.trace
      ensures forall k :: |old(t.trace)| <= k < |t.trace| ==> Reaches(t.trace[k], All(), |old(t.history)|, t.itemHidden)
    {
      hide Reaches, Window, Flatten, MarshalAll, NewEntries;
      if item != curItem {
        return false;
      }
      AppendItem(blob);
      return true;
    }
  }

  lemma NothingPending(f: nat, size: nat)
    ensures Flatten([]) == [] && NewEntries([], f, size) == [] && MarshalAll(NewEntries([], f, size)) == []
  {
  }

  lemma PendingOne(bs: seq<Blob>, f: nat, size: nat, b: Blob)
    ensures Flatten(bs + [b]) == Flatten(bs) + b
    ensures NewEntries(bs + [b], f, size) == NewEntries(bs, f, size) + [IndexEntry(f, size + |Flatten(bs)| + |b|)]
    ensures MarshalAll(NewEntries(bs + [b], f, size))
      == MarshalAll(NewEntries(bs, f, size)) + Marshal(IndexEntry(f, size + |Flatten(bs)| + |b|))
  {
    hide Marshal;
    FlattenAppend(bs, b);
    assert (bs + [b])[..|bs|] == bs;
    var es := NewEntries(bs + [b], f, size);
    assert es[..|bs|] == NewEntries(bs, f, size);
  }

  // ---------- Whole runs ----------

  /** One thing a caller does with a table. */
  datatype Command = Write(blobs: seq<Blob>) | CutHead(n: nat) | CutTail(n: nat)

  /** What a table shows, its items of which the first `hidden` cannot be read, and where it keeps them. */
  datatype View = View(items: seq<Blob>, hidden: nat, lies: Layout)

  ghost predicate Sound(v: View) {
    LayoutFits(v.lies, v.items, v.hidden)
  }

  /** The items from n on are cut off, unless that would reach below the hidden ones. */
  ghost function HeadCut(v: View, n: nat): (r: View)
    requires Sound(v)
    ensures Sound(r)
  {
    if v.hidden <= n < |v.items| then View(v.items[..n], v.hidden, KeepBelow(v.lies, n)) else v
  }

  /** The items below n are hidden, unless there are fewer. */
  ghost function TailCut(v: View, n: nat): (r: View)
    requires Sound(v)
    ensures Sound(r)
  {
    if v.hidden < n <= |v.items| then View(v.items, n, HideBelow(v.lies, n)) else v
  }

  /** If that takes effect then the index can store it. */
  ghost predicate TailInWidth(v: View, n: nat) {
    v.hidden < n <= |v.items| ==> TailFits(v.lies, n)
  }

  ghost function Apply(v: View, c: Command, max: nat): (r: View)
    requires Sound(v)
    ensures Sound(r)
  {
    match c
    case Write(blobs) => View(v.items + blobs, v.hidden, PlaceAll(v.lies, blobs, max))
    case CutHead(n) => HeadCut(v, n)
    case CutTail(n) => TailCut(v, n)
  }

  ghost function ApplyAll(v: View, cs: seq<Command>, max: nat): (r: View)
    requires Sound(v)
    ensures Sound(r)
  {
    if cs == [] then v else Apply(ApplyAll(v, cs[..|cs| - 1], max), cs[|cs| - 1], max)
  }

  /** An item once written stays what it was until a head truncation cuts it off, and the tail
      never moves back. */
  lemma {:induction false} ItemsAreImmutable(v: View, cs: seq<Command>, max: nat, i: nat)
    requires Sound(v) && i < |v.items|
    requires forall k :: 0 <= k < |cs| && cs[k].CutHead? ==> i < cs[k].n
    ensures i < |ApplyAll(v, cs, max).items| && ApplyAll(v, cs, max).items[i] == v.items[i]
    ensures v.hidden <= ApplyAll(v, cs, max).hidden
  {
    if cs != [] {
      ItemsAreImmutable(v, cs[..|cs| - 1], max, i);
    }
  }

  /** The numbers a command makes the index store fit: offsets and deleted items in 32 bits, file numbers
      in 16. */
  ghost predicate InWidth(v: View, c: Command, max: nat) {
    match c
    case Write(blobs) =>
      && (forall j :: 0 <= j < |blobs| ==> |blobs[j]| < 0x1_0000_0000)
      && PlaceAll(v.lies, blobs, max).head < 0x1_0000
    case CutHead(_) => true
    case CutTail(n) => TailInWidth(v, n)
  }

  /** One write: the blobs are appended under their numbers and committed. */
  method WriteAll(b: TableBatch, blobs: seq<Blob>)
    requires b.t.Valid() && b.t.maxFileSize < 0x1_0000_0000
    requires forall k :: 0 <= k < |blobs| ==> |blobs[k]| < 0x1_0000_0000
    requires PlaceAll(b.t.Lies(), blobs, b.t.maxFileSize).head < 0x1_0000
    modifies b, b.t
    ensures b.t.Valid()
    ensures b.t.history == old(b.t.history) + blobs && b.t.itemHidden == old(b.t.itemHidden)
    ensures b.t.Lies() == PlaceAll(old(b.t.Lies()), blobs, b.t.maxFileSize)
    ensures old(b.t.Tidy()) ==> b.t.Tidy()
  {
    hide Window, Reaches, MarshalAll, NewEntries, Flatten, Table.Valid, Place, Table.Lies, TableBatch.Lies, Table.Tidy,
      Loaded, TableBatch.Gauge, PlaceAll;
    ItemCount(b.t);
    b.Reset();
    assert blobs[..|blobs|] == blobs;
    ghost var l := b.t.Lies();
    PlaceNext(l, blobs, b.t.maxFileSize, 0);
    for k := 0 to |blobs|
      invariant b.Valid() && b.All() == old(b.t.history) + blobs[..k] && b.curItem == |b.All()|
      invariant b.t.itemHidden == old(b.t.itemHidden)
      invariant b.Lies() == PlaceAll(l, blobs[..k], b.t.maxFileSize)
      invariant old(b.t.Tidy()) ==> b.t.Tidy()
    {
      assert blobs[..k + 1] == blobs[..k] + [blobs[k]];
      PlaceGrows(l, blobs, b.t.maxFileSize, k + 1);
      PlaceNext(l, blobs, b.t.maxFileSize, k);
      var ok := b.AppendRaw(b.curItem, blobs[k]);
    }
    b.Commit();
  }

  /** What a table shows. */
  ghost function ViewOf(t: Table): View
    reads t
  {
    View(t.history, t.itemHidden, t.Lies())
  }

  /** After every run of writes and truncations the files hold exactly what the commands, applied one
      after the other, leave, and where they leave it. */
  method RunTable(b: TableBatch, cs: seq<Command>)
    requires b.t.Valid() && b.t.maxFileSize < 0x1_0000_0000 && Sound(ViewOf(b.t)) // see ViewSound
    requires forall k :: 0 <= k < |cs| ==>
               InWidth(ApplyAll(ViewOf(b.t), cs[..k], b.t.maxFileSize), cs[k], b.t.maxFileSize)
    modifies b, b.t
    ensures b.t.Valid()
    ensures ViewOf(b.t) == ApplyAll(old(ViewOf(b.t)), cs, b.t.maxFileSize)
    ensures old(b.t.Tidy()) ==> b.t.Tidy()
  {
    hide Window, Table.Valid, Sound, PlaceAll, KeepBelow, HideBelow, Table.Tidy;
    assert cs[..|cs|] == cs;
    ghost var v := ViewOf(b.t);
    for k := 0 to |cs|
      invariant b.t.Valid()
      invariant ViewOf(b.t) == ApplyAll(v, cs[..k], b.t.maxFileSize)
      invariant old(b.t.Tidy()) ==> b.t.Tidy()
    {
      assert cs[..k + 1][..k] == cs[..k];
      ItemCount(b.t);
      assert InWidth(ViewOf(b.t), cs[k], b.t.maxFileSize);
      match cs[k] {
        case Write(blobs) =>
          WriteAll(b, blobs);
        case CutHead(n) =>
          var _ := b.t.TruncateHead(n);
        case CutTail(n) =>
          var _ := b.t.TruncateTail(n);
      }
    }
  }

  /** What a table over an empty directory shows. */
  function Nothing(): View {
    View([], 0, Layout([IndexEntry(0, 0)], 0, 0))
  }

  /** A run from an empty directory: any writes and truncations, whatever their number, as long as the
      index can store their numbers. */
  method RunFromEmpty(cs: seq<Command>, maxFileSize: nat) returns (t: Table)
    requires maxFileSize < 0x1_0000_0000
    requires forall k :: 0 <= k < |cs| ==> InWidth(ApplyAll(Nothing(), cs[..k], maxFileSize), cs[k], maxFileSize)
    ensures t.Valid() && ViewOf(t) == ApplyAll(Nothing(), cs, maxFileSize)
    ensures forall f :: f in t.disk.files <==> t.tailId <= f <= t.headId
    ensures var es := Entries(t.disk);
            forall i :: 2 <= i < |es| ==>
              if es[i].filenum == es[i - 1].filenum then es[i - 1].offset <= es[i].offset <= maxFileSize
              else es[i].filenum == es[i - 1].filenum + 1 && es[i - 1].offset + es[i].offset > maxFileSize
  {
    hide Window, Table.Valid;
    t := CreateTable(maxFileSize);
    var b := new TableBatch(t);
    RunTable(b, cs);
    RunPacked(cs, maxFileSize);
    OpenFiles(t);
  }

  lemma OpenFiles(t: Table)
    requires t.Valid()
    ensures forall f :: f in t.open <==> t.tailId <= f <= t.headId
  {
  }

  /** Files are filled one after the other: an item in the file of the one before it ends within max, and an item in
      another is in the next one, and would have made the one before larger than max. The last item ends the head. */
  ghost predicate Packed(l: Layout, max: nat) {
    && (forall i :: 2 <= i < |l.es| ==>
          if l.es[i].filenum == l.es[i - 1].filenum then l.es[i - 1].offset <= l.es[i].offset <= max
          else l.es[i].filenum == l.es[i - 1].filenum + 1 && l.es[i - 1].offset + l.es[i].offset > max)
    && (|l.es| >= 2 ==> l.es[|l.es| - 1] == IndexEntry(l.head, l.size))
  }

  lemma {:induction false} PlacePacked(l: Layout, bs: seq<Blob>, max: nat)
    requires |l.es| >= 1 && Packed(l, max)
    ensures Packed(PlaceAll(l, bs, max), max)
  {
    if bs != [] {
      PlacePacked(l, bs[..|bs| - 1], max);
    }
  }

  lemma {:induction false} RunPacked(cs: seq<Command>, max: nat)
    ensures Packed(ApplyAll(Nothing(), cs, max).lies, max)
  {
    if cs != [] {
      RunPacked(cs[..|cs| - 1], max);
      ApplyPacked(ApplyAll(Nothing(), cs[..|cs| - 1], max), cs[|cs| - 1], max);
    }
  }

  lemma ApplyPacked(v: View, c: Command, max: nat)
    requires Sound(v) && Packed(v.lies, max)
    ensures Packed(Apply(v, c, max).lies, max)
  {
    match c
    case Write(blobs) => PlacePacked(v.lies, blobs, max);
    case CutHead(_) =>
    case CutTail(_) =>
  }

  /** Appending, stopping after file operation k and opening the files: the new table shows all items
      from before and, of those appended since the last commit, some of the first. */
  method StopAppend(b: TableBatch, data: Blob, k: nat) returns (stopped: Option<Table>)
    requires b.Valid()
    requires |data| < 0x1_0000_0000 && Place(b.Lies(), |data|, b.t.maxFileSize).head < 0x1_0000
    modifies b, b.t
    ensures b.Valid() && b.All() == old(b.All()) + [data]
    ensures stopped.Some? <==> |old(b.t.trace)| <= k < |b.t.trace|
    ensures stopped.Some? ==> stopped.value.Valid() && stopped.value.itemHidden == old(b.t.itemHidden)
    ensures stopped.Some? ==> old(b.t.history) <= stopped.value.history <= b.All()
  {
    hide Window, Table.Valid, MarshalAll, NewEntries, Flatten, Place;
    var start := |b.t.trace|;
    b.AppendItem(data);
    stopped := None;
    if start <= k < |b.t.trace| {
      ghost var all := b.All();
      ghost var m, top :| |old(b.t.history)| <= m <= |all| && Window(b.t.trace[k], all[..m], top, b.t.itemHidden);
      var s := OpenTable(b.t.trace[k], b.t.maxFileSize, all[..m], top, b.t.itemHidden);
      stopped := Some(s);
      assert old(b.t.history) <= b.t.history <= all;
    }
  }

  /** The view of an open table is sound. */
  lemma ViewSound(t: Table)
    requires t.Valid()
    ensures Sound(ViewOf(t))
  {
    WindowLength(t.disk, t.history, t.headId, t.itemHidden);
  }

  lemma ItemCount(t: Table)
    requires t.Valid()
    ensures t.items == |t.history|
  {
  }
}
