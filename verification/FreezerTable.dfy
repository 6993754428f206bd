/** One freezer table: appends, truncation from both ends, and repair on opening. */
module FreezerTable {
  import opened Bytes
  import opened FreezerIndex
  import opened FreezerDisk
  import opened Wrappers

  /** files' has the same bytes as files, and perhaps some more files that are empty. */
  ghost predicate PlusEmpty(files: map<nat, seq<byte>>, files': map<nat, seq<byte>>) {
    && files.Keys <= files'.Keys
    && forall f :: f in files' ==> files'[f] == if f in files then files[f] else []
  }

  ghost predicate Listed(es: seq<IndexEntry>, f: nat) {
    exists i :: 0 <= i < |es| && es[i].filenum == f
  }

  /** No file is new but those that index entries name. */
  ghost predicate NoStray(files: map<nat, seq<byte>>, files': map<nat, seq<byte>>, es: seq<IndexEntry>) {
    forall f :: f in files' ==> f in files || Listed(es, f)
  }

  lemma LastListed(es: seq<IndexEntry>, n: nat)
    requires 1 <= n <= |es|
    ensures Listed(es, Last(es[..n]).filenum)
  {
    assert es[if n == 1 then 0 else n - 1].filenum == Last(es[..n]).filenum;
  }

  /** d' differs from d in data files outside tail..num only. */
  ghost predicate SameUpTo(d: Disk, d': Disk, tail: nat, num: nat) {
    && d'.index == d.index
    && d'.meta == d.meta
    && forall f: nat :: tail <= f <= num && f in d.files ==> f in d'.files && d'.files[f] == d.files[f]
  }

  /** d' is d without some of the data files in `gone`. */
  ghost predicate Fewer(d: Disk, d': Disk, gone: set<nat>) {
    && d'.index == d.index
    && d'.meta == d.meta
    && d.files.Keys - gone <= d'.files.Keys <= d.files.Keys
    && forall f :: f in d'.files ==> d'.files[f] == d.files[f]
  }

  function Over(s: set<nat>, n: nat): set<nat> {
    set f | f in s && f > n
  }

  function Under(s: set<nat>, n: nat): set<nat> {
    set f | f in s && f < n
  }

  lemma OnlyHead(head: nat, tail: nat)
    ensures Over({head}, head) == {}
    ensures Under({head}, tail) == if head < tail then {head} else {}
  {
  }

  lemma WindowLength(d: Disk, h: seq<Blob>, top: nat, hidden: nat)
    requires Window(d, h, top, hidden)
    ensures |Entries(d)| >= 1 && |d.index| == ENTRY_SIZE * |Entries(d)|
    ensures |h| == Entries(d)[0].offset + |Entries(d)| - 1
    ensures Entries(d)[0].filenum <= top && top in d.files
  {
    TopBound(d.files, Entries(d), h, top, 0);
  }

  lemma WindowFrame(d: Disk, d': Disk, h: seq<Blob>, top: nat, hidden: nat)
    requires Window(d, h, top, hidden)
    requires SameUpTo(d, d', Entries(d)[0].filenum, top)
    ensures Window(d', h, top, hidden)
  {
    StoresFrame(d.files, Entries(d), h, top, d'.files);
  }

  /** Cutting the index to n items shows the history without the newest items. */
  lemma WindowCutIndex(d: Disk, h: seq<Blob>, top: nat, hidden: nat, n: nat)
    requires Window(d, h, top, hidden)
    requires n < |Entries(d)|
    ensures var d' := d.(index := Resize(d.index, ENTRY_SIZE * (n + 1)));
            var last := Last(Entries(d)[..n + 1]);
            && |d'.index| == ENTRY_SIZE * (n + 1)
            && Entries(d') == Entries(d)[..n + 1]
            && (n > 0 ==> ReadEntry(d'.index, ENTRY_SIZE * n) == last)
            && last.filenum <= top
            && Window(d', h[..Entries(d)[0].offset + n], last.filenum, hidden)
  {
    StoresPrefix(d.files, Entries(d), h, top, n);
    ParsePrefix(d.index, ENTRY_SIZE * (n + 1));
    TopBound(d.files, Entries(d), h, top, n);
  }

  /** Cutting the head file after the last item shows the same history. */
  lemma WindowCutHead(d: Disk, h: seq<Blob>, top: nat, hidden: nat)
    requires Window(d, h, top, hidden)
    requires Last(Entries(d)).filenum == top
    ensures Window(d.(files := d.files[top := Resize(d.files[top], Last(Entries(d)).offset)]), h, top, hidden)
  {
    StoresCutHead(d.files, Entries(d), h, top);
  }

  /** Opening the next data file from scratch shows the same history. */
  lemma WindowNewHead(d: Disk, h: seq<Blob>, top: nat, hidden: nat)
    requires Window(d, h, top, hidden)
    ensures Window(d.(files := d.files[top + 1 := []]), h, top + 1, hidden)
  {
    StoresNewHead(d.files, Entries(d), h, top);
  }

  /** The index after k items are dropped from the tail. */
  function DropTail(index: seq<byte>, k: nat, marker: IndexEntry): seq<byte>
    requires ENTRY_SIZE * (k + 1) <= |index|
  {
    Marshal(marker) + index[ENTRY_SIZE * (k + 1)..]
  }

  /** Dropping hidden items from the tail of the index shows the same history. */
  lemma WindowDropTail(d: Disk, h: seq<Blob>, top: nat, hidden: nat, k: nat, tail: nat)
    requires Window(d, h, top, hidden)
    requires k < |Entries(d)| && Entries(d)[0].offset + k <= hidden
    requires Entries(d)[0].filenum <= tail <= top
    requires forall i :: k < i < |Entries(d)| ==> tail <= Entries(d)[i].filenum
    requires 1 <= k < |Entries(d)| - 1 ==> Entries(d)[k].filenum != Entries(d)[k + 1].filenum
    requires Fits(IndexEntry(tail, Entries(d)[0].offset + k))
    ensures var marker := IndexEntry(tail, Entries(d)[0].offset + k);
            var d' := d.(index := DropTail(d.index, k, marker));
            Entries(d') == [marker] + Entries(d)[k + 1..] && Window(d', h, top, hidden)
  {
    hide Parse, Marshal;
    var es := Entries(d);
    var marker := IndexEntry(tail, es[0].offset + k);
    StoresSuffix(d.files, es, h, top, k, tail);
    ParseOne(marker);
    ParseSuffix(d.index, k + 1);
    ParseConcat(Marshal(marker), d.index[ENTRY_SIZE * (k + 1)..]);
  }

  /** The size the head file must have: up to the last item in it, or nothing. */
  function HeadSize(es: seq<IndexEntry>, head: nat): nat
    requires |es| >= 1
  {
    if Last(es).filenum == head then Last(es).offset else 0
  }

  /** Where the items of a table lie: the index entries, the head file and the bytes in it. */
  datatype Layout = Layout(es: seq<IndexEntry>, head: nat, size: nat)

  /** The last of the first m items that is not in file f; 0 if all are. */
  ghost function LastElsewhere(es: seq<IndexEntry>, m: nat, f: nat): (drop: nat)
    requires m < |es|
    ensures drop <= m
  {
    if m == 0 || es[m].filenum != f then m else LastElsewhere(es, m - 1, f)
  }

  lemma {:induction false} LastElsewhereIs(es: seq<IndexEntry>, m: nat, f: nat, drop: nat)
    requires drop <= m < |es|
    requires forall i :: drop < i <= m ==> es[i].filenum == f
    requires drop > 0 ==> es[drop].filenum != f
    ensures LastElsewhere(es, m, f) == drop
  {
    if drop < m {
      LastElsewhereIs(es, m - 1, f, drop);
    }
  }

  /** The layout with the items below n hidden: entries go with the files that hold hidden items only. */
  ghost function HideBelow(l: Layout, n: nat): (r: Layout)
    requires |l.es| >= 1 && l.es[0].offset <= n < l.es[0].offset + |l.es|
    ensures |r.es| >= 1 && r.head == l.head && r.size == l.size
    ensures r.es[0].offset <= n && r.es[0].offset + |r.es| == l.es[0].offset + |l.es|
  {
    var m := n - l.es[0].offset;
    var tail := if m + 1 == |l.es| then l.head else l.es[m + 1].filenum;
    if tail == l.es[0].filenum then l else
      var drop := LastElsewhere(l.es, m, tail);
      Layout([IndexEntry(tail, l.es[0].offset + drop)] + l.es[drop + 1..], l.head, l.size)
  }

  /** The items below n can be hidden: n is kept in 64 bits, and the number of items deleted with their files
      in the 32 bits that an index entry has for an offset. */
  ghost predicate TailFits(l: Layout, n: nat) {
    |l.es| >= 1 && l.es[0].offset <= n < l.es[0].offset + |l.es|
    && n <= MAX_UINT64 && HideBelow(l, n).es[0].offset < 0x1_0000_0000
  }

  lemma SameTail(l: Layout, n: nat)
    requires |l.es| >= 1 && l.es[0].offset <= n < l.es[0].offset + |l.es|
    requires var m := n - l.es[0].offset;
      l.es[0].filenum == if m + 1 == |l.es| then l.head else l.es[m + 1].filenum
    ensures HideBelow(l, n) == l
  {
  }

  lemma HiddenLayout(l: Layout, n: nat, tail: nat, drop: nat)
    requires |l.es| >= 1 && l.es[0].offset <= n < l.es[0].offset + |l.es| && tail != l.es[0].filenum
    requires var m := n - l.es[0].offset;
      && tail == (if m + 1 == |l.es| then l.head else l.es[m + 1].filenum)
      && drop <= m && (forall i :: drop < i <= m ==> l.es[i].filenum == tail)
      && (drop > 0 ==> l.es[drop].filenum != tail)
    ensures HideBelow(l, n) == Layout([IndexEntry(tail, l.es[0].offset + drop)] + l.es[drop + 1..], l.head, l.size)
  {
    LastElsewhereIs(l.es, n - l.es[0].offset, tail, drop);
  }

  ghost predicate LayoutFits(l: Layout, h: seq<Blob>, hidden: nat) {
    |l.es| >= 1 && l.es[0].offset <= hidden && |h| == l.es[0].offset + |l.es| - 1
  }

  /** The layout with the first n items kept. */
  ghost function KeepBelow(l: Layout, n: nat): (r: Layout)
    requires |l.es| >= 1 && l.es[0].offset <= n < l.es[0].offset + |l.es|
    ensures |r.es| >= 1 && r.es[0] == l.es[0] && r.es[0].offset + |r.es| == n + 1
  {
    var es := l.es[..n - l.es[0].offset + 1];
    Layout(es, Last(es).filenum, Last(es).offset)
  }

  function ReadEntry(index: seq<byte>, off: nat): IndexEntry
    requires off + ENTRY_SIZE <= |index|
  {
    Unmarshal(index[off..off + ENTRY_SIZE])
  }

  /** From the drop point on, items lie in the new tail file or above it. */
  lemma TailAbove(d: Disk, h: seq<Blob>, top: nat, n: nat, newTailId: nat, drop: nat)
    requires Holds(d, h, top)
    requires var es := Entries(d);
      && es[0].offset < n <= |h|
      && drop <= n - es[0].offset
      && newTailId == (if n == |h| then top else es[n - es[0].offset + 1].filenum)
      && newTailId != es[0].filenum
      && (forall i :: drop < i <= n - es[0].offset ==> es[i].filenum == newTailId)
      && (drop > 0 ==> es[drop].filenum != newTailId)
    ensures Entries(d)[0].filenum <= newTailId <= top
    ensures forall i :: drop < i < |Entries(d)| ==> newTailId <= Entries(d)[i].filenum
    ensures 1 <= drop < |Entries(d)| - 1 ==> Entries(d)[drop].filenum != Entries(d)[drop + 1].filenum
    ensures HeadSize([IndexEntry(newTailId, Entries(d)[0].offset + drop)] + Entries(d)[drop + 1..], top)
      == HeadSize(Entries(d), top)
  {
    hide Parse;
    var es := Entries(d);
    var m := n - es[0].offset;
    if m + 1 < |es| {
      TopBound(d.files, es, h, top, m + 1);
      forall i | m < i < |es| ensures newTailId <= es[i].filenum {
        assert Before(es[m + 1], es[i]);
      }
      if 1 <= drop == m {
        assert Before(es[drop], es[drop + 1]);
      }
    }
  }

  /** Of the entries after the first, exactly the first `drop` are of files below the tail. */
  ghost predicate Parted(es: seq<IndexEntry>, drop: nat, tail: nat) {
    forall i :: 1 <= i < |es| ==> (es[i].filenum < tail <==> i <= drop)
  }

  lemma DropParts(d: Disk, h: seq<Blob>, top: nat, n: nat, newTailId: nat, drop: nat)
    requires Holds(d, h, top)
    requires var es := Entries(d);
      && es[0].offset < n <= |h|
      && drop <= n - es[0].offset
      && newTailId == (if n == |h| then top else es[n - es[0].offset + 1].filenum)
      && newTailId != es[0].filenum
      && (forall i :: drop < i <= n - es[0].offset ==> es[i].filenum == newTailId)
      && (drop > 0 ==> es[drop].filenum != newTailId)
    ensures Parted(Entries(d), drop, newTailId)
  {
    hide Parse;
    var es := Entries(d);
    TailAbove(d, h, top, n, newTailId, drop);
    forall i | 1 <= i <= drop ensures es[i].filenum < newTailId {
      assert Before(es[i], es[drop]);
      if drop + 1 < |es| {
        assert Before(es[drop], es[drop + 1]);
      } else {
        TopBound(d.files, es, h, top, drop);
      }
    }
  }

  lemma NoneParted(d: Disk, h: seq<Blob>, top: nat)
    requires Holds(d, h, top)
    ensures Parted(Entries(d), 0, Entries(d)[0].filenum)
  {
    hide Parse;
  }

  /** The index rewritten by a tail truncation at item n shows the same history above n. */
  lemma DroppedTail(d: Disk, h: seq<Blob>, top: nat, n: nat, newTailId: nat, drop: nat)
    requires Window(d, h, top, n)
    requires top < 0x1_0000 && Entries(d)[0].offset + drop < 0x1_0000_0000
    requires var es := Entries(d);
      && es[0].offset < n <= |h|
      && drop <= n - es[0].offset
      && newTailId == (if n == |h| then top else es[n - es[0].offset + 1].filenum)
      && newTailId != es[0].filenum
      && (forall i :: drop < i <= n - es[0].offset ==> es[i].filenum == newTailId)
      && (drop > 0 ==> es[drop].filenum != newTailId)
    ensures ENTRY_SIZE * (drop + 1) <= |d.index| && Entries(d)[0].filenum < newTailId <= top
    ensures var marker := IndexEntry(newTailId, Entries(d)[0].offset + drop);
            var d' := d.(index := DropTail(d.index, drop, marker));
            && Entries(d') == [marker] + Entries(d)[drop + 1..]
            && Window(d', h, top, n)
            && HeadSize(Entries(d'), top) == HeadSize(Entries(d), top)
  {
    hide Parse, Stores, DropTail;
    WindowLength(d, h, top, n);
    TailAbove(d, h, top, n, newTailId, drop);
    WindowDropTail(d, h, top, n, drop, newTailId);
  }

  // ---------- Reading ----------

  /** The bytes of `blobs` are those read so far and, after them, `unread` bytes of file f. */
  ghost predicate Reading(files: map<nat, seq<byte>>, output: seq<byte>, f: nat, readStart: nat, unread: nat,
      blobs: seq<Blob>)
  {
    && (unread > 0 ==> f in files && readStart + unread <= |files[f]|)
    && Flatten(blobs) == output + if unread > 0 then files[f][readStart..readStart + unread] else []
  }

  /** Moving on to another file once nothing is left unread. */
  lemma ReadingMove(files: map<nat, seq<byte>>, output: seq<byte>, f: nat, readStart: nat, unread: nat,
      blobs: seq<Blob>, f': nat)
    requires Reading(files, output, f, readStart, unread, blobs)
    ensures unread == 0 ==> Reading(files, output, f', 0, 0, blobs)
    ensures unread > 0 ==> f in files && readStart + unread <= |files[f]|
    ensures unread > 0 ==> Reading(files, output + files[f][readStart..readStart + unread], f', 0, 0, blobs)
  {
    hide Flatten;
  }

  /** The final read. */
  lemma ReadingDone(files: map<nat, seq<byte>>, output: seq<byte>, f: nat, readStart: nat, unread: nat,
      blobs: seq<Blob>)
    requires Reading(files, output, f, readStart, unread, blobs)
    ensures unread > 0 ==> f in files && readStart + unread <= |files[f]|
    ensures unread == 0 ==> Flatten(blobs) == output
    ensures f in files && readStart + unread <= |files[f]| ==>
      Flatten(blobs) == output + files[f][readStart..readStart + unread]
  {
    hide Flatten;
  }

  /** n of the available blobs are what a reader asking for at most maxBytes bytes (no limit when
      0) gets: as many as fit, but at least one. */
  ghost predicate RightCount(blobs: seq<Blob>, maxBytes: nat, n: nat) {
    && 1 <= n <= |blobs|
    && (n > 1 && maxBytes != 0 ==> |Flatten(blobs[..n])| <= maxBytes)
    && (n < |blobs| ==> maxBytes != 0 && |Flatten(blobs[..n + 1])| > maxBytes)
  }

  /** Stopping after the last item available, or after a first item that is too large by itself. */
  lemma CountAtEnd(blobs: seq<Blob>, maxBytes: nat, n: nat)
    requires 1 <= n <= |blobs|
    requires n > 1 && maxBytes != 0 ==> |Flatten(blobs[..n])| <= maxBytes
    requires n == |blobs| || (maxBytes != 0 && |Flatten(blobs[..n])| > maxBytes)
    ensures RightCount(blobs, maxBytes, n)
  {
    if n < |blobs| {
      assert blobs[..n + 1] == blobs[..n] + [blobs[n]];
      FlattenAppend(blobs[..n], blobs[n]);
    }
  }

  /** One more item, right after the unread bytes of the same file. */
  lemma ReadingItem(files: map<nat, seq<byte>>, output: seq<byte>, f: nat, readStart: nat, unread: nat,
      blobs: seq<Blob>, i: nat)
    requires i < |blobs|
    requires Reading(files, output, f, readStart, unread, blobs[..i])
    requires f in files && readStart + unread + |blobs[i]| <= |files[f]|
    requires files[f][readStart + unread..readStart + unread + |blobs[i]|] == blobs[i]
    ensures Reading(files, output, f, readStart, unread + |blobs[i]|, blobs[..i + 1])
    ensures |Flatten(blobs[..i + 1])| == |Flatten(blobs[..i])| + |blobs[i]|
  {
    hide Flatten;
    assert blobs[..i + 1] == blobs[..i] + [blobs[i]];
    FlattenAppend(blobs[..i], blobs[i]);
    if unread > 0 {
      assert files[f][readStart..readStart + unread] + blobs[i] == files[f][readStart..readStart + unread + |blobs[i]|];
    } else if |blobs[i]| > 0 {
      assert Flatten(blobs[..i]) == output;
    }
  }

  /** The entries bound the blob in an open file. */
  ghost predicate Located(files: map<nat, seq<byte>>, open: set<nat>, first: IndexEntry, second: IndexEntry,
      blob: Blob)
  {
    var (from, to, f) := Bounds(first, second);
    f in open && f in files && from <= to <= |files[f]| && files[f][from..to] == blob
  }

  /** Reads from one open data file. */
  method ReadData(files: map<nat, seq<byte>>, open: set<nat>, fileId: nat, start: nat, length: nat)
    returns (b: seq<byte>)
    requires fileId in open && fileId in files && start + length <= |files[fileId]|
    ensures b == files[fileId][start..start + length]
  {
    b := files[fileId][start..start + length];
  }

  /** Reads the blobs the entries bound as one byte string, with one read per file where it can:
      reads are put off until a file ends or the items do. */
  method ReadItems(files: map<nat, seq<byte>>, open: set<nat>, indices: seq<IndexEntry>, maxBytes: nat,
      ghost blobs: seq<Blob>)
    returns (output: seq<byte>, sizes: seq<nat>)
    requires |indices| == |blobs| + 1 && blobs != []
    requires forall i :: 0 <= i < |blobs| ==> Located(files, open, indices[i], indices[i + 1], blobs[i])
    ensures RightCount(blobs, maxBytes, |sizes|)
    ensures output == Flatten(blobs[..|sizes|])
    ensures forall k :: 0 <= k < |sizes| ==> sizes[k] == |blobs[k]|
  {
    hide Flatten, Reading;
    output, sizes := [], [];
    var totalSize: nat, readStart: nat, unreadSize: nat, i: nat := 0, indices[0].offset, 0, 0;
    ReadingStart(files, indices[0].filenum, readStart, blobs);
    while true
      invariant 0 <= i < |blobs| && |sizes| == i
      invariant readStart + unreadSize == indices[i].offset
      invariant Reading(files, output, indices[i].filenum, readStart, unreadSize, blobs[..i])
      invariant unreadSize > 0 ==> indices[i].filenum in open
      invariant totalSize == |Flatten(blobs[..i])|
      invariant forall k :: 0 <= k < i ==> sizes[k] == |blobs[k]|
      invariant i > 0 && maxBytes != 0 ==> totalSize <= maxBytes
      decreases |blobs| - i
    {
      assert Located(files, open, indices[i], indices[i + 1], blobs[i]);
      var (offset1, offset2, f) := Bounds(indices[i], indices[i + 1]);
      var size: nat := offset2 - offset1;
      if indices[i + 1].filenum != indices[i].filenum {
        ReadingMove(files, output, indices[i].filenum, readStart, unreadSize, blobs[..i], f);
        if unreadSize > 0 {
          var b := ReadData(files, open, indices[i].filenum, readStart, unreadSize);
          output := output + b;
          unreadSize := 0;
        }
        readStart := 0;
      }
      ReadingItem(files, output, f, readStart, unreadSize, blobs, i);
      if i > 0 && totalSize + size > maxBytes && maxBytes != 0 {
        ReadingDone(files, output, f, readStart, unreadSize, blobs[..i]);
        if unreadSize > 0 {
          var b := ReadData(files, open, indices[i + 1].filenum, readStart, unreadSize);
          output := output + b;
        }
        return;
      }
      unreadSize := unreadSize + size;
      totalSize := totalSize + size;
      sizes := sizes + [size];
      if i == |indices| - 2 || (totalSize > maxBytes && maxBytes != 0) {
        ReadingDone(files, output, f, readStart, unreadSize, blobs[..i + 1]);
        CountAtEnd(blobs, maxBytes, i + 1);
        var b := ReadData(files, open, indices[i + 1].filenum, readStart, unreadSize);
        output := output + b;
        return;
      }
      i := i + 1;
    }
  }

  /** Slices the bytes read into items. */
  method SliceUp(diskData: seq<byte>, sizes: seq<nat>, maxBytes: nat, ghost blobs: seq<Blob>)
    returns (output: seq<Blob>)
    requires RightCount(blobs, maxBytes, |sizes|)
    requires diskData == Flatten(blobs[..|sizes|])
    requires forall k :: 0 <= k < |sizes| ==> sizes[k] == |blobs[k]|
    ensures output == blobs[..|sizes|]
  {
    output := [];
    var offset, outputSize := 0, 0;
    for i := 0 to |sizes|
      invariant output == blobs[..i]
      invariant offset == outputSize == |Flatten(blobs[..i])|
    {
      FlattenSlice(blobs[..|sizes|], i);
      assert blobs[..|sizes|][..i] == blobs[..i] && blobs[..|sizes|][..i + 1] == blobs[..i + 1];
      var item := diskData[offset..offset + sizes[i]];
      offset := offset + sizes[i];
      FlattenGrows(blobs, i + 1, |sizes|);
      if i > 0 && maxBytes != 0 && outputSize + sizes[i] > maxBytes {
        break; // never taken: without compression the sizes were counted before
      }
      output := output + [item];
      outputSize := outputSize + sizes[i];
    }
  }

  lemma {:induction false} FlattenGrows(blobs: seq<Blob>, i: nat, n: nat)
    requires i <= n <= |blobs|
    ensures |Flatten(blobs[..i])| <= |Flatten(blobs[..n])|
    decreases n - i
  {
    if i < n {
      FlattenGrows(blobs, i, n - 1);
      assert blobs[..n] == blobs[..n - 1] + [blobs[n - 1]];
      FlattenAppend(blobs[..n - 1], blobs[n - 1]);
    }
  }

  lemma {:induction false} FlattenSlice(blobs: seq<Blob>, i: nat)
    requires i < |blobs|
    ensures |Flatten(blobs[..i + 1])| == |Flatten(blobs[..i])| + |blobs[i]| <= |Flatten(blobs)|
    ensures Flatten(blobs)[|Flatten(blobs[..i])|..|Flatten(blobs[..i])| + |blobs[i]|] == blobs[i]
    decreases |blobs|
  {
    var n := |blobs| - 1;
    if i < n {
      FlattenSlice(blobs[..n], i);
      assert blobs[..n][..i] == blobs[..i] && blobs[..n][..i + 1] == blobs[..i + 1];
    } else {
      assert blobs[..i + 1] == blobs;
    }
  }

  lemma ReadingStart(files: map<nat, seq<byte>>, f: nat, readStart: nat, blobs: seq<Blob>)
    ensures Reading(files, [], f, readStart, 0, blobs[..0]) && Flatten(blobs[..0]) == []
  {
  }

  /** Where item `start + i` lies, from the entries that bound it. */
  lemma ItemBounds(d: Disk, h: seq<Blob>, top: nat, start: nat, indices: seq<IndexEntry>, i: nat)
    requires Holds(d, h, top)
    requires var es := Entries(d);
      && es[0].offset <= start && |indices| >= 2 && start + |indices| - 1 <= |h|
      && (forall k :: 0 < k < |indices| ==> indices[k] == es[start - es[0].offset + k])
      && indices[0] == (if start == es[0].offset then IndexEntry(es[1].filenum, 0) else es[start - es[0].offset])
    requires i < |indices| - 1
    ensures var (from, to, f) := Bounds(indices[i], indices[i + 1]);
            && Entries(d)[0].filenum <= f <= top
            && f in d.files
            && from <= to <= |d.files[f]|
            && d.files[f][from..to] == h[start + i]
  {
    hide Parse;
    var es := Entries(d);
    var j := start - es[0].offset + i + 1;
    assert Backed(d.files, es, j, h);
    TopBound(d.files, es, h, top, j);
  }

  /** Start and end offset, and file, of the item two neighbouring entries bound. */
  function Bounds(first: IndexEntry, second: IndexEntry): (nat, nat, nat) {
    if first.filenum != second.filenum
    then (0, second.offset, second.filenum)
    else (first.offset, second.offset, second.filenum)
  }

  /** The count of items to read, as the source clips it in 64 bits. */
  function Clip(start: nat, count: nat, items: nat): nat
    requires start < items
  {
    if (start + count) % (MAX_UINT64 + 1) > items then items - start else count
  }

  /** The clipped count never reads past the head exactly when start + count does not wrap. */
  lemma ClipCorrect(start: nat, count: nat, items: nat)
    requires start < items <= MAX_UINT64 && count <= MAX_UINT64
    ensures Clip(start, count, items) == (if count <= items - start then count else items - start)
      <==> start + count <= MAX_UINT64
  {
    if start + count > MAX_UINT64 {
      assert (start + count) % (MAX_UINT64 + 1) == start + count - (MAX_UINT64 + 1);
    }
  }

  // ---------- Repair ----------

  lemma KeptPlusEmpty(files: map<nat, seq<byte>>, files': map<nat, seq<byte>>, es: seq<IndexEntry>)
    requires |es| >= 1
    requires PlusEmpty(files, files')
    ensures Kept(files, es) == Kept(files', es)
    decreases |es|
  {
    if |es| > 1 && !Stored(files, es, |es| - 1) {
      KeptPlusEmpty(files, files', es[..|es| - 1]);
    }
  }

  /** Dropping a last entry that points past its file does not change what repair keeps. */
  lemma KeptStep(files: map<nat, seq<byte>>, es: seq<IndexEntry>, n: nat)
    requires 1 < n <= |es|
    requires !Stored(files, es, n - 1)
    ensures Kept(files, es[..n]) == Kept(files, es[..n - 1])
  {
    assert es[..n][..n - 1] == es[..n - 1];
  }

  /** Entries repair would keep anyway decide what it keeps. */
  lemma {:induction false} KeptPrefix(files: map<nat, seq<byte>>, es: seq<IndexEntry>, n: nat)
    requires |es| >= 1
    requires Kept(files, es) <= n <= |es|
    ensures Kept(files, es[..n]) == Kept(files, es)
    decreases |es|
  {
    if n == |es| {
      assert es[..n] == es;
    } else {
      KeptPrefix(files, es[..|es| - 1], n);
      assert es[..|es| - 1][..n] == es[..n];
    }
  }

  /** d' is the disk at some moment of a repair of d. */
  ghost predicate Repairing(d': Disk, d: Disk)
    requires |Entries(d)| >= 1
  {
    && d'.index <= d.index
    && ENTRY_SIZE * Kept(d.files, Entries(d)) <= |d'.index|
    && (d'.meta == d.meta || d'.meta == Some(RepairedHidden(d)))
    && (PlusEmpty(d.files, d'.files) ||
        (|d'.index| == ENTRY_SIZE * Kept(d.files, Entries(d)) && PlusEmpty(Repaired(d).files, d'.files)))
  }

  lemma KeptCut(files: map<nat, seq<byte>>, es: seq<IndexEntry>)
    requires |es| >= 1
    ensures var es' := es[..Kept(files, es)];
            Kept(CutAt(files, Last(es')), es') == |es'|
            && CutAt(CutAt(files, Last(es')), Last(es')) == CutAt(files, Last(es'))
  {
    KeptFacts(files, es);
    var last := Last(es[..Kept(files, es)]);
    var cut := CutAt(files, last);
    assert cut[last.filenum][..last.offset] == cut[last.filenum];
  }

  lemma CutPlusEmpty(files: map<nat, seq<byte>>, files': map<nat, seq<byte>>, last: IndexEntry)
    requires PlusEmpty(files, files')
    requires last.offset <= SizeOf(files, last.filenum)
    ensures PlusEmpty(CutAt(files, last), CutAt(files', last))
  {
  }

  /** The entry repair ends the table at. */
  ghost function LastKept(d: Disk): IndexEntry
    requires |Entries(d)| >= 1
  {
    Last(Entries(d)[..Kept(d.files, Entries(d))])
  }

  /** Repair drops entries that point past the end of their files, until one does not. */
  lemma RepairedIndex(d: Disk)
    requires |Entries(d)| >= 1
    ensures var es, es' := Entries(d), Entries(Repaired(d));
            && 1 <= |es'| <= |es| && es' == es[..|es'|]
            && (|es'| > 1 ==> es[|es'| - 1].offset <= SizeOf(d.files, es[|es'| - 1].filenum))
            && (forall i :: |es'| <= i < |es| ==> es[i].offset > SizeOf(d.files, es[i].filenum))
  {
    hide Parse, Kept, Repaired;
    RepairedEntries(d);
    KeptFacts(d.files, Entries(d));
    DroppedUnstored(d.files, Entries(d));
    forall i | Kept(d.files, Entries(d)) <= i < |Entries(d)|
      ensures Entries(d)[i].offset > SizeOf(d.files, Entries(d)[i].filenum)
    {
      assert !Stored(d.files, Entries(d), i);
    }
  }

  /** It cuts the file of the last entry kept to its end and leaves all others as they are. */
  lemma RepairedFiles(d: Disk, last: IndexEntry)
    requires |Entries(d)| >= 1 && |Entries(Repaired(d))| >= 1
    requires var es' := Entries(Repaired(d));
      last == if |es'| == 1 then IndexEntry(es'[0].filenum, 0) else es'[|es'| - 1]
    ensures var files := Repaired(d).files;
            && files.Keys == d.files.Keys + {last.filenum}
            && |files[last.filenum]| == last.offset
            && (last.filenum in d.files ==> files[last.filenum] <= d.files[last.filenum])
            && (forall f :: f in d.files && f != last.filenum ==> files[f] == d.files[f])
  {
    hide Parse, Kept;
    RepairedEntries(d);
    KeptFacts(d.files, Entries(d));
    assert last == LastKept(d);
  }

  /** The items hidden are those the metadata says, but all that are deleted. */
  lemma RepairedMeta(d: Disk)
    requires |Entries(d)| >= 1
    ensures Repaired(d).meta.Some? && Repaired(d).meta.value >= Entries(d)[0].offset
    ensures d.meta.Some? && d.meta.value >= Entries(d)[0].offset ==> Repaired(d).meta == d.meta
    ensures d.meta.None? || d.meta.value < Entries(d)[0].offset ==> Repaired(d).meta.value == Entries(d)[0].offset
  {
    hide Parse, Kept, CutAt;
  }

  lemma {:induction false} DroppedUnstored(files: map<nat, seq<byte>>, es: seq<IndexEntry>)
    requires |es| >= 1
    ensures forall i :: Kept(files, es) <= i < |es| ==> !Stored(files, es, i)
    decreases |es|
  {
    if |es| > 1 && !Stored(files, es, |es| - 1) {
      var es' := es[..|es| - 1];
      DroppedUnstored(files, es');
      forall i | Kept(files, es) <= i < |es| ensures !Stored(files, es, i) {
        assert i < |es'| ==> !Stored(files, es', i);
      }
    }
  }

  /** The last entry kept lies in a file below the tail. Repair then removes the head file it has just
      brought in step. */
  ghost predicate Fallen(d: Disk)
    requires |Entries(d)| >= 1
  {
    LastKept(d).filenum < Entries(d)[0].filenum
  }

  /** Repair leaves the head file it counts on, or one that is to be empty anyway. */
  ghost predicate Upright(d: Disk)
    requires |Entries(d)| >= 1
  {
    Fallen(d) ==> LastKept(d).offset == 0
  }

  /** The data files repair ends with: a head below the tail is removed and opened anew. */
  ghost function LeftFiles(d: Disk): map<nat, seq<byte>>
    requires |Entries(d)| >= 1
  {
    if Fallen(d) then Repaired(d).files[LastKept(d).filenum := []] else Repaired(d).files
  }

  /** d' is the disk after repair of d has removed a head below the tail. */
  ghost predicate Beheaded(d': Disk, d: Disk)
    requires |Entries(d)| >= 1
  {
    && Fallen(d)
    && d'.index == Repaired(d).index
    && d'.meta == Repaired(d).meta
    && PlusEmpty(Repaired(d).files - {LastKept(d).filenum}, d'.files)
  }

  /** d' is the disk after some file operation of a repair of d. */
  ghost predicate Moment(d': Disk, d: Disk)
    requires |Entries(d)| >= 1
  {
    Repairing(d', d) || Beheaded(d', d)
  }

  /** Repairing d' brings index, metadata and data to where repairing d brings them. */
  ghost predicate Resumes(d': Disk, d: Disk)
    requires |Entries(d)| >= 1
  {
    && |Entries(d')| >= 1
    && Repaired(d').index == Repaired(d).index
    && Repaired(d').meta == Repaired(d).meta
    && PlusEmpty(Repaired(d).files, Repaired(d').files)
  }

  /** A repair stopped after any file operation and started again ends with the same files as one
      that was not stopped, if and only if it does not remove the head file it counts on. */
  lemma RepairResumes(d: Disk)
    requires |Entries(d)| >= 1
    ensures Upright(d) <==> forall d' :: Moment(d', d) ==> Resumes(d', d)
  {
    hide Parse, Repaired, Repairing;
    if Upright(d) {
      forall d' | Moment(d', d) ensures Resumes(d', d) {
        if Repairing(d', d) {
          RepairingResumes(d', d);
        } else {
          BeheadedResumes(d', d);
        }
      }
    } else {
      var d' := Repaired(d).(files := Repaired(d).files - {LastKept(d).filenum});
      assert Moment(d', d);
      BeheadedLoses(d', d);
    }
  }

  /** A removed head that is to be empty is opened anew. */
  lemma BeheadedResumes(d': Disk, d: Disk)
    requires |Entries(d)| >= 1 && Beheaded(d', d) && LastKept(d).offset == 0
    ensures Resumes(d', d)
  {
    hide Parse;
    var es, kept, last := Entries(d), Kept(d.files, Entries(d)), LastKept(d);
    RepairedEntries(d);
    assert Entries(d') == es[..kept] && es[..kept][..kept] == es[..kept];
    assert Kept(d'.files, es[..kept]) == kept;
    EntriesBytes(d, kept);
    assert d'.index[..ENTRY_SIZE * kept] == d'.index;
  }

  /** A removed head that held bytes takes its last item with it. */
  lemma BeheadedLoses(d': Disk, d: Disk)
    requires |Entries(d)| >= 1 && !Upright(d)
    requires d' == Repaired(d).(files := Repaired(d).files - {LastKept(d).filenum})
    ensures !Resumes(d', d)
  {
    hide Parse;
    var es, kept := Entries(d), Kept(d.files, Entries(d));
    RepairedEntries(d);
    assert Entries(d') == es[..kept];
    assert kept > 1;
    assert !Stored(d'.files, es[..kept], kept - 1);
    assert Kept(d'.files, es[..kept]) < kept;
    EntriesBytes(d, kept);
    EntriesBytes(d', Kept(d'.files, es[..kept]));
  }

  lemma EntriesBytes(d: Disk, n: nat)
    requires n <= |Entries(d)|
    ensures ENTRY_SIZE * n <= |d.index|
  {
  }

  lemma RepairingResumes(d': Disk, d: Disk)
    requires |Entries(d)| >= 1
    requires Repairing(d', d)
    ensures Resumes(d', d)
  {
    hide Parse, Resize, CutAt;
    var es, kept := Entries(d), Kept(d.files, Entries(d));
    RepairingEntries(d', d);
    var es' := Entries(d');
    var last := Last(es[..kept]);
    KeptFacts(d.files, es);
    KeptPrefix(d.files, es, |es'|);
    assert last.offset <= SizeOf(d.files, last.filenum);
    if PlusEmpty(d.files, d'.files) {
      KeptPlusEmpty(d.files, d'.files, es');
      assert es'[..kept] == es[..kept];
      CutPlusEmpty(d.files, d'.files, last);
    } else {
      KeptCut(d.files, es);
      KeptPlusEmpty(CutAt(d.files, last), d'.files, es');
      assert es' == es[..kept] && es'[..kept] == es';
      CutSize(d.files, last);
      CutPlusEmpty(CutAt(d.files, last), d'.files, last);
    }
  }

  lemma CutSize(files: map<nat, seq<byte>>, last: IndexEntry)
    requires last.offset <= SizeOf(files, last.filenum)
    ensures SizeOf(CutAt(files, last), last.filenum) == last.offset
  {
  }

  lemma RepairingEntries(d': Disk, d: Disk)
    requires |Entries(d)| >= 1
    requires Repairing(d', d)
    ensures var kept := Kept(d.files, Entries(d));
            && kept <= |Entries(d')| <= |Entries(d)| && Entries(d') == Entries(d)[..|Entries(d')|]
            && (|d'.index| == ENTRY_SIZE * kept ==> |Entries(d')| == kept)
    ensures d'.index[..ENTRY_SIZE * Kept(d.files, Entries(d))] == d.index[..ENTRY_SIZE * Kept(d.files, Entries(d))]
  {
    hide Kept, Repaired, RepairedHidden;
    ParsePrefix(d.index, |d'.index|);
    assert d.index[..|d'.index|] == d'.index;
  }

  /** A repair of d has cut the index to n entries so far, and no data yet. */
  ghost predicate Popped(d': Disk, d: Disk, n: nat) {
    && |d.index| % ENTRY_SIZE == 0
    && 1 <= n <= |Entries(d)|
    && |d'.index| == ENTRY_SIZE * n
    && d'.index <= d.index
    && d'.meta == d.meta
    && PlusEmpty(d.files, d'.files)
    && Kept(d.files, Entries(d)[..n]) == Kept(d.files, Entries(d))
  }

  lemma PoppedEntries(d': Disk, d: Disk, n: nat)
    requires Popped(d', d, n)
    ensures Repairing(d', d) && Entries(d') == Entries(d)[..n]
  {
    hide Resize;
    ParsePrefix(d.index, |d'.index|);
    assert d.index[..|d'.index|] == d'.index;
  }

  /** Dropping a last entry that points past the end of its file. */
  lemma PopOne(d': Disk, d: Disk, n: nat)
    requires Popped(d', d, n)
    requires var last := Last(Entries(d)[..n]);
      last.filenum in d'.files && |d'.files[last.filenum]| < last.offset
    ensures n > 1
    ensures Popped(d'.(index := Resize(d'.index, ENTRY_SIZE * (n - 1))), d, n - 1)
  {
    hide Parse;
    KeptStep(d.files, Entries(d), n);
  }

  /** Cutting the head after the last entry, which points inside it, ends the repair. */
  lemma CutOne(d': Disk, d: Disk, n: nat)
    requires Popped(d', d, n)
    requires var last := Last(Entries(d)[..n]);
      last.filenum in d'.files && last.offset <= |d'.files[last.filenum]|
    ensures Kept(d.files, Entries(d)) == n
    ensures var last := Last(Entries(d)[..n]);
            var files := d'.files[last.filenum := Resize(d'.files[last.filenum], last.offset)];
            PlusEmpty(CutAt(d.files, last), files) && Repairing(d'.(files := files), d)
            && (last.offset == |d'.files[last.filenum]| ==> files == d'.files)
  {
    hide Parse;
    var es := Entries(d);
    var last := Last(es[..n]);
    assert Kept(d.files, es[..n]) == n;
    if last.offset == |d'.files[last.filenum]| {
      assert d'.files[last.filenum][..last.offset] == d'.files[last.filenum];
    }
  }

  /** A new table starts with the zero entry in its index. */
  function Initial(d: Disk): Disk {
    if d.index == [] then d.(index := Marshal(IndexEntry(0, 0))) else d
  }

  lemma InitialEntries(d: Disk)
    requires d.index == [] || ENTRY_SIZE <= |d.index|
    ensures |Entries(Initial(d))| >= 1
    ensures d.index == [] ==> Entries(Initial(d)) == [IndexEntry(0, 0)]
  {
    ParseOne(IndexEntry(0, 0));
  }

  /** Cutting a torn entry off does not change what the index lists, nor the repair. */
  lemma CutTorn(d: Disk)
    requires ENTRY_SIZE <= |d.index|
    ensures var d' := d.(index := d.index[..|d.index| - |d.index| % ENTRY_SIZE]);
            && Entries(d') == Entries(d)
            && |Entries(d)| >= 1
            && Repairing(d', d)
            && Repaired(d') == Repaired(d)
  {
    hide Kept, CutAt;
    ParsePrefix(d.index, |d.index| - |d.index| % ENTRY_SIZE);
    var d' := d.(index := d.index[..|d.index| - |d.index| % ENTRY_SIZE]);
    assert Entries(d') == Entries(d);
    var kept := Kept(d.files, Entries(d));
    assert d'.index[..ENTRY_SIZE * kept] == d.index[..ENTRY_SIZE * kept];
  }

  /** What the moments of a repair of d' have in common holds for the repair of d as well, when d'
      is d without its torn entry, or with its metadata written. */
  lemma RepairingSame(d2: Disk, d1: Disk, d: Disk)
    requires |Entries(d)| >= 1 && Entries(d1) == Entries(d)
    requires d1.index <= d.index && d1.files == d.files
    requires d1.meta == d.meta || d1.meta == Some(RepairedHidden(d))
    requires Repairing(d2, d1)
    ensures Repairing(d2, d)
  {
    hide Parse, CutAt, Kept;
  }

  lemma RepairingSelf(d: Disk)
    requires |Entries(d)| >= 1
    ensures Repairing(d, d)
  {
  }

  lemma MetaWritten(d1: Disk, d: Disk)
    requires |Entries(d)| >= 1 && Entries(d1) == Entries(d)
    requires d1.index <= d.index && ENTRY_SIZE * |Entries(d)| <= |d1.index|
    requires d1.files == d.files
    requires d1.meta == Some(RepairedHidden(d))
    ensures Repairing(d1, d)
    ensures RepairedHidden(d1) == RepairedHidden(d)
    ensures Repaired(d1) == Repaired(d)
  {
    hide Parse, CutAt;
    var kept := Kept(d.files, Entries(d));
    assert d1.index[..ENTRY_SIZE * kept] == d.index[..ENTRY_SIZE * kept];
  }

  /** The history a crashed disk is repaired to. */
  lemma RecoveredWindow(d': Disk, d: Disk, h: seq<Blob>, top: nat, hidden: nat) returns (h': seq<Blob>)
    requires Window(d, h, top, hidden) && Crashed(d', d, top)
    ensures |Entries(d')| >= 1 && Initial(d') == d' && |d'.index| >= ENTRY_SIZE
    ensures Entries(d')[0] == Entries(d)[0]
    ensures var n := Entries(d)[0].offset + Kept(d'.files, Entries(d')) - 1;
            n <= |h| && h' == h[..n]
    ensures Window(Repaired(d'), h', Last(Entries(Repaired(d'))).filenum, hidden)
    ensures Entries(Repaired(d')) == Entries(d')[..Kept(d'.files, Entries(d'))]
    ensures Last(Entries(Repaired(d'))).filenum < 0x1_0000
  {
    hide Parse, Kept, CutAt, Stores;
    RepairRecovers(d', d, h, top);
    RepairedEntries(d');
    h' := h[..Entries(d)[0].offset + Kept(d'.files, Entries(d')) - 1];
    LastFits(Repaired(d').index);
  }

  lemma LastFits(index: seq<byte>)
    requires |Parse(index)| >= 1
    ensures Fits(Last(Parse(index)))
  {
  }

  /** Empty files beside those of a table do not matter. */
  lemma PlusEmptyWindow(d: Disk, d': Disk, h: seq<Blob>, top: nat, hidden: nat)
    requires Window(d, h, top, hidden)
    requires d'.index == d.index && d'.meta == d.meta && PlusEmpty(d.files, d'.files)
    ensures Window(d', h, top, hidden)
    ensures forall f: nat :: Entries(d)[0].filenum <= f <= top ==> f in d'.files
    ensures |h| == Entries(d)[0].offset + |Entries(d)| - 1
    ensures Entries(d)[0].filenum <= top
  {
    TopBound(d.files, Entries(d), h, top, 0);
    StoresFrame(d.files, Entries(d), h, top, d'.files);
  }

  lemma Unchanged(d: Disk, d': Disk)
    requires Fewer(d, d', {})
    ensures d' == d
  {
    assert d'.files == d.files;
  }

  /** Removing a head below the tail from a disk in step, or nothing. */
  lemma FewerMoment(d0: Disk, d': Disk, d: Disk)
    requires |Entries(d)| >= 1
    requires d0.index == Repaired(d).index && d0.meta == Repaired(d).meta
    requires PlusEmpty(Repaired(d).files, d0.files) && LastKept(d).filenum in d0.files
    requires Fewer(d0, d', {}) || (Fallen(d) && Fewer(d0, d', {LastKept(d).filenum}))
    ensures Moment(d', d)
    ensures Fallen(d) && LastKept(d).filenum !in d'.files ==> Beheaded(d', d)
  {
    hide Parse, Kept, CutAt;
    EntriesBytes(d, Kept(d.files, Entries(d)));
    if LastKept(d).filenum in d'.files {
      assert d'.files == d0.files;
    }
  }

  /** Opening the files of a repaired table ends the repair of d. */
  lemma Opened(d2: Disk, d1: Disk, d: Disk)
    requires |Entries(d)| >= 1 && d2 == d1.(files := d2.files)
    requires PlusEmpty(d1.files, d2.files) && d2.files.Keys <= d1.files.Keys + {LastKept(d).filenum}
    requires d1.index == Repaired(d).index && d1.meta == Repaired(d).meta
    requires if Fallen(d) then Beheaded(d1, d) else
      PlusEmpty(Repaired(d).files, d1.files) && LastKept(d).filenum in d1.files
      && |d1.files[LastKept(d).filenum]| == LastKept(d).offset
    ensures Moment(d2, d)
    ensures LastKept(d).filenum in d2.files ==> PlusEmpty(LeftFiles(d), d2.files)
    ensures LastKept(d).filenum in d2.files ==>
              (|d2.files[LastKept(d).filenum]| == LastKept(d).offset <==> Upright(d))
    ensures !Fallen(d) ==> d2 == d1
    ensures LastKept(d).filenum in LeftFiles(d)
  {
    hide Parse, Kept;
    var f := LastKept(d).filenum;
    assert f in Repaired(d).files;
    if !Fallen(d) {
      assert d2.files == d1.files;
      EntriesBytes(d, Kept(d.files, Entries(d)));
    }
  }

  lemma ParseLength(index: seq<byte>)
    ensures |Parse(index)| == |index| / ENTRY_SIZE
  {
  }

  lemma EntryAt(index: seq<byte>, i: nat)
    requires i < |index| / ENTRY_SIZE
    ensures ReadEntry(index, ENTRY_SIZE * i) == Parse(index)[i]
  {
  }

  lemma RunOf(h: seq<Blob>, lo: nat, hi: nat, n: nat)
    requires lo <= hi <= |h| && n <= hi - lo
    ensures h[lo..hi][..n] == h[lo..lo + n]
  {
  }

  lemma SliceOfSlice(s: seq<byte>, lo: nat, hi: nat, off: nat, n: nat)
    requires lo <= hi <= |s| && off + n <= hi - lo
    ensures s[lo..hi][off..off + n] == s[lo + off..lo + off + n]
  {
    var a, b := s[lo..hi][off..off + n], s[lo + off..lo + off + n];
    assert forall k :: 0 <= k < n ==> a[k] == b[k];
  }

  class Table {
    // In-memory counters (core/rawdb/freezer_table.go, type freezerTable)
    var items: nat
    var itemOffset: nat
    var itemHidden: nat
    var headId: nat
    var tailId: nat
    var headBytes: nat
    const maxFileSize: nat

    /** The files on disk, and the numbers of the data files held open. */
    var disk: Disk
    var open: set<nat>

    /** Every blob ever appended and not truncated from the head, in order. */
    ghost var history: seq<Blob>

    /** The disk after every single file operation so far. */
    var trace: seq<Disk>

    /** The table is open and in step with its files. The head file may be one that holds no item
        yet; it is then empty. */
    ghost predicate Valid()
      reads this
    {
      && Window(disk, history, headId, itemHidden)
      && headId < 0x1_0000
      && items == |history|
      && tailId == Entries(disk)[0].filenum
      && itemOffset == Entries(disk)[0].offset
      && (forall f :: f in open <==> tailId <= f <= headId)
      && headBytes == |disk.files[headId]|
      && headBytes == HeadSize(Entries(disk), headId)
    }

    /** There are no data files but those from tail to head. */
    ghost predicate Tidy()
      reads this
    {
      disk.files.Keys == open
    }

    ghost function Lies(): Layout
      reads this
    {
      Layout(Entries(disk), headId, headBytes)
    }

    constructor (d: Disk, maxFileSize: nat)
      ensures disk == d && open == {} && trace == [] && this.maxFileSize == maxFileSize
    {
      disk, trace := d, [];
      this.maxFileSize := maxFileSize;
      items, itemOffset, itemHidden, headId, tailId, headBytes := 0, 0, 0, 0, 0, 0;
      open, history := {}, [];
    }

    /** One file operation. */
    method Put(d: Disk)
      modifies this`disk, this`trace
      ensures disk == d && trace == old(trace) + [d]
    {
      disk := d;
      trace := trace + [d];
    }

    /** Closes and removes the open data files with a number above num, in any order. */
    method ReleaseFilesAfter(num: nat)
      modifies this`disk, this`trace, this`open
      ensures open == set f | f in old(open) && f <= num
      ensures var gone := Over(old(open), num);
              Fewer(old(disk), disk, gone) && gone !! disk.files.Keys
              && forall k :: |old(trace)| <= k < |trace| ==> Fewer(old(disk), trace[k], gone)
      ensures old(trace) <= trace
      ensures SameUpTo(old(disk), disk, 0, num)
      ensures forall k :: |old(trace)| <= k < |trace| ==> SameUpTo(old(disk), trace[k], 0, num)
    {
      var remove := Over(open, num);
      ghost var gone := remove;
      while remove != {}
        invariant open == old(open) && remove <= gone && forall f :: f in remove ==> f > num
        invariant Fewer(old(disk), disk, gone) && gone - remove !! disk.files.Keys
        invariant forall k :: |old(trace)| <= k < |trace| ==> Fewer(old(disk), trace[k], gone)
        invariant old(trace) <= trace
        invariant SameUpTo(old(disk), disk, 0, num)
        invariant forall k :: |old(trace)| <= k < |trace| ==> SameUpTo(old(disk), trace[k], 0, num)
        decreases remove
      {
        var f :| f in remove;
        remove := remove - {f};
        Put(disk.(files := disk.files - {f}));
      }
      open := set f | f in open && f <= num;
    }

    /** Closes and removes the open data files with a number below num, in any order. */
    method ReleaseFilesBefore(num: nat, ghost top: nat)
      modifies this`disk, this`trace, this`open
      ensures open == set f | f in old(open) && num <= f
      ensures var gone := Under(old(open), num);
              Fewer(old(disk), disk, gone) && gone !! disk.files.Keys
              && forall k :: |old(trace)| <= k < |trace| ==> Fewer(old(disk), trace[k], gone)
      ensures old(trace) <= trace
      ensures SameUpTo(old(disk), disk, num, top)
      ensures forall k :: |old(trace)| <= k < |trace| ==> SameUpTo(old(disk), trace[k], num, top)
    {
      var remove := Under(open, num);
      ghost var gone := remove;
      while remove != {}
        invariant open == old(open) && remove <= gone && forall f :: f in remove ==> f < num
        invariant Fewer(old(disk), disk, gone) && gone - remove !! disk.files.Keys
        invariant forall k :: |old(trace)| <= k < |trace| ==> Fewer(old(disk), trace[k], gone)
        invariant old(trace) <= trace
        invariant SameUpTo(old(disk), disk, num, top)
        invariant forall k :: |old(trace)| <= k < |trace| ==> SameUpTo(old(disk), trace[k], num, top)
        decreases remove
      {
        var f :| f in remove;
        remove := remove - {f};
        Put(disk.(files := disk.files - {f}));
      }
      open := set f | f in open && num <= f;
    }

    /** Discards items from number n on. Fails, changing nothing, when that would cut below the
        hidden items. Every disk on the way already shows the shorter history. */
    method TruncateHead(n: nat) returns (ok: bool)
      requires Valid()
      modifies this
      ensures Valid()
      ensures ok <==> old(items) <= n || old(itemHidden) <= n
      ensures history == (if ok && n < old(items) then old(history)[..n] else old(history)) && items == |history|
      ensures itemHidden == old(itemHidden) && itemOffset == old(itemOffset) && tailId == old(tailId)
      ensures headId <= old(headId)
      ensures LayoutFits(old(Lies()), old(history), old(itemHidden))
      ensures ok && n < old(items) ==> Lies() == KeepBelow(old(Lies()), n)
      ensures ok && n < old(items) ==> Entries(disk) == Entries(old(disk))[..n - itemOffset + 1]
      ensures forall f :: headId < f <= old(headId) ==> f !in disk.files
      ensures old(Tidy()) ==> Tidy()
      ensures old(items) <= n || !ok ==>
        trace == old(trace) && disk == old(disk) && headId == old(headId) && headBytes == old(headBytes)
      ensures old(trace) <= trace
      ensures forall k :: |old(trace)| <= k < |trace| ==> Window(trace[k], history, headId, itemHidden)
    {
      hide Parse, Stores, Resize;
      WindowLength(disk, history, headId, itemHidden);
      if items <= n {
        return true;
      }
      if n < itemHidden {
        return false;
      }
      var length := n - itemOffset;
      WindowCutIndex(disk, history, headId, itemHidden, length);
      ghost var last := Last(Entries(disk)[..length + 1]);
      Put(disk.(index := Resize(disk.index, ENTRY_SIZE * (length + 1))));
      history := history[..n];
      var expected := IndexEntry(tailId, 0);
      if length != 0 {
        expected := ReadEntry(disk.index, ENTRY_SIZE * length);
      }
      assert expected == last;
      CutData(expected);
      headBytes := expected.offset;
      items := n;
      return true;
    }

    /** Makes the file of the last index entry the head and cuts it after that entry. */
    method CutData(expected: IndexEntry)
      requires Window(disk, history, expected.filenum, itemHidden)
      requires expected == Last(Entries(disk)) && expected.filenum <= headId
      requires tailId == Entries(disk)[0].filenum
      requires forall f :: f in open <==> tailId <= f <= headId
      modifies this`disk, this`trace, this`open, this`headId
      ensures headId == expected.filenum
      ensures forall f :: f in open <==> tailId <= f <= headId
      ensures disk.index == old(disk.index)
      ensures Window(disk, history, headId, itemHidden)
      ensures |disk.files[headId]| == expected.offset
      ensures forall f :: headId < f <= old(headId) ==> f !in disk.files
      ensures old(Tidy()) ==> Tidy()
      ensures old(trace) <= trace
      ensures forall k :: |old(trace)| <= k < |trace| ==> Window(trace[k], history, headId, itemHidden)
    {
      if expected.filenum != headId {
        open := open - {expected.filenum};
        open := open + {expected.filenum};
        ReleaseFilesAfter(expected.filenum);
        headId := expected.filenum;
        forall k | |old(trace)| <= k < |trace| ensures Window(trace[k], history, headId, itemHidden) {
          WindowFrame(old(disk), trace[k], history, headId, itemHidden);
        }
        WindowFrame(old(disk), disk, history, headId, itemHidden);
      }
      WindowCutHead(disk, history, headId, itemHidden);
      Put(disk.(files := disk.files[headId := Resize(disk.files[headId], expected.offset)]));
    }

    /** The first item that can be deleted with everything before it, so that item n stays: all
        items from it to n lie in file newTailId. The loop counts down in 64 bits; when nothing was
        ever deleted it wraps below zero, reads the marker entry and stops there. */
    method CountDeleted(n: nat, newTailId: nat) returns (newDeleted: nat)
      requires |disk.index| % ENTRY_SIZE == 0
      requires itemOffset < n <= itemOffset + |Entries(disk)| - 1
      requires n <= MAX_UINT64
      requires newTailId != Entries(disk)[0].filenum
      ensures itemOffset <= newDeleted <= n
      ensures forall i :: newDeleted - itemOffset < i <= n - itemOffset ==> Entries(disk)[i].filenum == newTailId
      ensures newDeleted > itemOffset ==> Entries(disk)[newDeleted - itemOffset].filenum != newTailId
    {
      newDeleted := n;
      var deleted := itemOffset;
      var current := n - 1;
      while current >= deleted
        invariant current + 1 == newDeleted || (deleted == newDeleted == 0 && current == MAX_UINT64)
        invariant itemOffset <= newDeleted <= n
        invariant forall i :: newDeleted - itemOffset < i <= n - itemOffset ==> Entries(disk)[i].filenum == newTailId
        decreases if current == MAX_UINT64 then 0 else current + 1
      {
        var slot := if current == MAX_UINT64 then 0 else current - deleted + 1;
        var pre := ReadEntry(disk.index, ENTRY_SIZE * slot);
        assert pre == Entries(disk)[slot];
        if pre.filenum != newTailId {
          break;
        }
        newDeleted := current;
        current := if current == 0 then MAX_UINT64 else current - 1;
      }
    }

    /** Hides the items below n, and deletes the files that hold hidden items only. Fails, changing
        nothing, when n is above the head. Every disk on the way already shows the new tail. */
    method TruncateTail(n: nat) returns (ok: bool)
      requires Valid()
      requires itemHidden < n <= items ==> TailFits(Lies(), n)
      modifies this
      ensures Valid()
      ensures ok <==> n <= old(itemHidden) || n <= old(items)
      ensures history == old(history) && headId == old(headId) && headBytes == old(headBytes) && items == |history|
      ensures itemHidden == if ok && old(itemHidden) < n then n else old(itemHidden)
      ensures LayoutFits(old(Lies()), old(history), old(itemHidden))
      ensures old(itemHidden) < n <= items ==> Lies() == HideBelow(old(Lies()), n)
      ensures old(itemHidden) < n <= items ==>
        tailId == if n == items then headId else Entries(old(disk))[n - old(itemOffset) + 1].filenum
      ensures old(itemOffset) <= itemOffset && Parted(Entries(old(disk)), itemOffset - old(itemOffset), tailId)
      ensures forall f :: old(tailId) <= f < tailId ==> f !in disk.files
      ensures old(Tidy()) ==> Tidy()
      ensures !ok || n <= old(itemHidden) ==> trace == old(trace) && disk == old(disk)
      ensures old(trace) <= trace
      ensures forall k :: |old(trace)| <= k < |trace| ==> Window(trace[k], history, headId, itemHidden)
    {
      hide Parse, Stores, Parted, HideBelow, TailFits;
      WindowLength(disk, history, headId, itemHidden);
      NoneParted(disk, history, headId);
      if itemHidden >= n {
        return true;
      }
      if items < n {
        return false;
      }
      var newTailId := headId;
      if items != n {
        newTailId := ReadEntry(disk.index, ENTRY_SIZE * (n - itemOffset + 1)).filenum;
        EntryAt(disk.index, n - itemOffset + 1);
      }
      itemHidden := n;
      Put(disk.(meta := Some(n)));
      assert Window(disk, history, headId, itemHidden);
      if tailId == newTailId {
        SameTail(Lies(), n);
        return true;
      }
      DropFiles(n, newTailId);
      return true;
    }

    method DropFiles(n: nat, newTailId: nat)
      requires Valid()
      requires itemHidden == n && itemOffset < n <= items
      requires TailFits(Lies(), n)
      requires newTailId == if n == items then headId else Entries(disk)[n - itemOffset + 1].filenum
      requires newTailId != tailId
      modifies this`disk, this`trace, this`open, this`tailId, this`itemOffset
      ensures Valid()
      ensures LayoutFits(old(Lies()), history, n) && Lies() == HideBelow(old(Lies()), n)
      ensures tailId == newTailId && old(itemOffset) <= itemOffset
      ensures Parted(Entries(old(disk)), itemOffset - old(itemOffset), tailId)
      ensures forall f :: old(tailId) <= f < tailId ==> f !in disk.files
      ensures old(Tidy()) ==> Tidy()
      ensures old(trace) <= trace
      ensures forall k :: |old(trace)| <= k < |trace| ==> Window(trace[k], history, headId, itemHidden)
    {
      hide Parse, Stores, HideBelow, Parted;
      Shorten(n, newTailId);
      ShedFiles(old(tailId));
    }

    /** Rewrites the index without the entries of the files below the new tail. */
    method Shorten(n: nat, newTailId: nat)
      requires Valid()
      requires itemHidden == n && itemOffset < n <= items && TailFits(Lies(), n)
      requires newTailId == if n == items then headId else Entries(disk)[n - itemOffset + 1].filenum
      requires newTailId != tailId
      modifies this`disk, this`trace, this`tailId, this`itemOffset
      ensures Window(disk, history, headId, itemHidden) && disk.files == old(disk.files)
      ensures tailId == newTailId == Entries(disk)[0].filenum
      ensures old(itemOffset) <= itemOffset == Entries(disk)[0].offset
      ensures old(tailId) <= tailId <= headId && headBytes == HeadSize(Entries(disk), headId)
      ensures LayoutFits(old(Lies()), history, n) && Lies() == HideBelow(old(Lies()), n)
      ensures Parted(Entries(old(disk)), itemOffset - old(itemOffset), tailId)
      ensures trace == old(trace) + [disk]
    {
      hide Parse, Marshal, Stores, Resize, DropTail, HideBelow, Parted;
      WindowLength(disk, history, headId, itemHidden);
      var newDeleted := CountDeleted(n, newTailId);
      ghost var drop := newDeleted - itemOffset;
      HiddenLayout(Lies(), n, newTailId, drop);
      DropParts(disk, history, headId, n, newTailId, drop);
      DroppedTail(disk, history, headId, n, newTailId, drop);
      Put(disk.(index := DropTail(disk.index, newDeleted - itemOffset, IndexEntry(newTailId, newDeleted))));
      tailId, itemOffset := newTailId, newDeleted;
    }

    /** Removes the open files below the tail. */
    method ShedFiles(ghost tail: nat)
      requires Window(disk, history, headId, itemHidden) && tailId == Entries(disk)[0].filenum
      requires tail <= tailId && forall f :: f in open <==> tail <= f <= headId
      modifies this`disk, this`trace, this`open
      ensures Window(disk, history, headId, itemHidden) && disk.index == old(disk.index)
      ensures headId in disk.files && disk.files[headId] == old(disk.files)[headId]
      ensures forall f :: f in open <==> tailId <= f <= headId
      ensures forall f :: tail <= f < tailId ==> f !in disk.files
      ensures old(Tidy()) ==> Tidy()
      ensures old(trace) <= trace
      ensures forall k :: |old(trace)| <= k < |trace| ==> Window(trace[k], history, headId, itemHidden)
    {
      hide Parse, Stores, Fewer;
      WindowLength(disk, history, headId, itemHidden);
      ghost var d := disk;
      ReleaseFilesBefore(tailId, headId);
      forall k | |old(trace)| <= k < |trace| ensures Window(trace[k], history, headId, itemHidden) {
        WindowFrame(d, trace[k], history, headId, itemHidden);
      }
      WindowFrame(d, disk, history, headId, itemHidden);
    }

    /** Starts a new, empty head file. */
    method AdvanceHead()
      requires Valid()
      requires headId + 1 < 0x1_0000
      modifies this`disk, this`trace, this`open, this`headId, this`headBytes
      ensures Valid()
      ensures headId == old(headId) + 1 && headBytes == 0 && disk.index == old(disk.index)
      ensures old(Tidy()) ==> Tidy()
      ensures trace == old(trace) + [disk]
    {
      var nextID := headId + 1;
      WindowNewHead(disk, history, headId, itemHidden);
      Put(disk.(files := disk.files[nextID := []]));
      open := open + {nextID};
      headBytes := 0;
      headId := nextID;
    }

    /** Opens a data file for append, creating it when it does not exist. */
    method OpenForAppend(f: nat) returns (size: nat)
      modifies this`disk, this`trace, this`open
      ensures open == old(open) + {f}
      ensures disk == old(disk).(files := disk.files)
      ensures f in disk.files && size == |disk.files[f]| == SizeOf(old(disk.files), f)
      ensures disk.files.Keys == old(disk.files).Keys + {f}
      ensures PlusEmpty(old(disk.files), disk.files)
      ensures trace == old(trace) || trace == old(trace) + [disk]
    {
      if f !in disk.files {
        Put(disk.(files := disk.files[f := []]));
      }
      open := open + {f};
      size := |disk.files[f]|;
    }

    /** Cuts index entries and head bytes off until the last entry ends where the head file does. */
    method AlignHead() returns (offsetsSize: nat, lastIndex: IndexEntry)
      requires |disk.index| % ENTRY_SIZE == 0 && |disk.index| >= ENTRY_SIZE
      requires tailId == Entries(disk)[0].filenum && open == {}
      modifies this`disk, this`trace, this`open
      ensures offsetsSize == |disk.index| && offsetsSize == ENTRY_SIZE * Kept(old(disk.files), Entries(old(disk)))
      ensures disk.index == old(disk.index)[..offsetsSize] && disk.meta == old(disk.meta)
      ensures lastIndex == Last(Entries(old(disk))[..Kept(old(disk.files), Entries(old(disk)))])
      ensures lastIndex.filenum in disk.files && |disk.files[lastIndex.filenum]| == lastIndex.offset
      ensures PlusEmpty(CutAt(old(disk.files), lastIndex), disk.files)
      ensures NoStray(old(disk.files), disk.files, Entries(old(disk)))
      ensures open == {lastIndex.filenum}
      ensures old(trace) <= trace
      ensures forall k :: |old(trace)| <= k < |trace| ==> Repairing(trace[k], old(disk))
    {
      hide Parse, Resize, Kept, Repairing, CutAt, Listed;
      ghost var d, es := disk, Entries(disk);
      offsetsSize := |disk.index|;
      ghost var n := |es|;
      ParseLength(disk.index);
      assert es[..n] == es;
      lastIndex := LastIndex(offsetsSize);
      LastListed(es, n);
      var contentSize := OpenForAppend(lastIndex.filenum);
      PoppedEntries(disk, d, n);
      var contentExp := lastIndex.offset;
      while contentExp != contentSize
        invariant 1 <= n <= |es| && offsetsSize == ENTRY_SIZE * n == |disk.index|
        invariant disk.index <= d.index && disk.meta == d.meta
        invariant lastIndex == Last(es[..n]) && contentExp == lastIndex.offset
        invariant lastIndex.filenum in disk.files && contentSize == |disk.files[lastIndex.filenum]|
        invariant NoStray(d.files, disk.files, es)
        invariant open == {lastIndex.filenum}
        invariant Popped(disk, d, n) ||
          (contentExp == contentSize && n == Kept(d.files, es) && PlusEmpty(CutAt(d.files, lastIndex), disk.files))
        invariant old(trace) <= trace
        invariant forall k :: |old(trace)| <= k < |trace| ==> Repairing(trace[k], d)
        decreases n, contentSize
      {
        if contentExp < contentSize {
          CutOne(disk, d, n);
          Put(disk.(files := disk.files[lastIndex.filenum := Resize(disk.files[lastIndex.filenum], contentExp)]));
          contentSize := contentExp;
        } else {
          offsetsSize, lastIndex, contentSize := PopIndex(offsetsSize, lastIndex, contentSize, d, n);
          contentExp := lastIndex.offset;
          n := n - 1;
        }
      }
      if Popped(disk, d, n) {
        CutOne(disk, d, n);
      }
    }

    /** Cuts the last index entry off and, where the one before it ends in an earlier data file,
        makes that file the head. */
    method PopIndex(offsetsSize: nat, lastIndex: IndexEntry, contentSize: nat, ghost d: Disk, ghost n: nat)
      returns (offsetsSize': nat, lastIndex': IndexEntry, contentSize': nat)
      requires Popped(disk, d, n) && offsetsSize == |disk.index|
      requires lastIndex == Last(Entries(d)[..n]) && lastIndex.filenum in disk.files
      requires contentSize == |disk.files[lastIndex.filenum]| < lastIndex.offset
      requires tailId == Entries(d)[0].filenum && open == {lastIndex.filenum}
      modifies this`disk, this`trace, this`open
      ensures n > 1 && Popped(disk, d, n - 1) && offsetsSize' == |disk.index|
      ensures lastIndex' == Last(Entries(d)[..n - 1]) && lastIndex'.filenum in disk.files
      ensures contentSize' == |disk.files[lastIndex'.filenum]| && open == {lastIndex'.filenum}
      ensures NoStray(old(disk.files), disk.files, Entries(d))
      ensures old(trace) <= trace
      ensures forall k :: |old(trace)| <= k < |trace| ==> Repairing(trace[k], d)
    {
      hide Parse, Resize, Kept, Repairing, Repaired, Listed;
      PopOne(disk, d, n);
      offsetsSize' := offsetsSize - ENTRY_SIZE;
      Put(disk.(index := Resize(disk.index, offsetsSize')));
      PoppedEntries(disk, d, n - 1);
      lastIndex' := LastIndex(offsetsSize');
      contentSize' := contentSize;
      if lastIndex'.filenum != lastIndex.filenum {
        open := open - {lastIndex.filenum};
        LastListed(Entries(d), n - 1);
        contentSize' := OpenForAppend(lastIndex'.filenum);
        PoppedEntries(disk, d, n - 1);
      }
    }

    /** The last entry of the index, or the start of the tail file when it lists no item. */
    method LastIndex(offsetsSize: nat) returns (e: IndexEntry)
      requires offsetsSize == |disk.index| && offsetsSize % ENTRY_SIZE == 0 && offsetsSize >= ENTRY_SIZE
      requires tailId == Entries(disk)[0].filenum
      ensures e == Last(Entries(disk))
    {
      if offsetsSize == ENTRY_SIZE {
        e := IndexEntry(tailId, 0);
      } else {
        e := ReadEntry(disk.index, offsetsSize - ENTRY_SIZE);
        assert offsetsSize - ENTRY_SIZE == ENTRY_SIZE * (offsetsSize / ENTRY_SIZE - 1);
      }
    }

    /** Reads the virtual tail, raising it to the number of deleted items where it is lower or
        missing. */
    method LoadMetadata()
      modifies this`disk, this`trace, this`itemHidden
      ensures itemHidden == if old(disk.meta).Some? && old(disk.meta).value >= itemOffset
                            then old(disk.meta).value else itemOffset
      ensures disk == old(disk).(meta := Some(itemHidden))
      ensures trace == old(trace) || trace == old(trace) + [disk]
    {
      if disk.meta.Some? && disk.meta.value >= itemOffset {
        itemHidden := disk.meta.value;
      } else {
        itemHidden := itemOffset;
        Put(disk.(meta := Some(itemHidden)));
      }
    }

    /** Opens the data files from tail to head; fails when one before the head is missing. The head is
        created when it does not exist. */
    method Preopen() returns (ok: bool)
      requires open <= disk.files.Keys * {headId}
      modifies this`disk, this`trace, this`open
      ensures ok <==> forall f: nat :: tailId <= f < headId ==> f in old(disk).files
      ensures ok && tailId <= headId ==> forall f :: f in open <==> tailId <= f <= headId
      ensures disk == old(disk).(files := disk.files) && PlusEmpty(old(disk).files, disk.files)
      ensures disk.files.Keys <= old(disk).files.Keys + {headId} && (ok ==> headId in disk.files)
      ensures trace == old(trace) || trace == old(trace) + [disk]
    {
      open := set f | f in open && f <= 0;
      var i := tailId;
      while i < headId
        invariant disk == old(disk) && trace == old(trace)
        invariant tailId <= i && (tailId <= headId ==> i <= headId)
        invariant forall f :: f in open ==> tailId <= f < i || f == headId
        invariant forall f :: tailId <= f < i ==> f in open
        invariant forall f: nat :: tailId <= f < i ==> f in disk.files
      {
        if i !in disk.files {
          return false;
        }
        open := open + {i};
        i := i + 1;
      }
      var _ := OpenForAppend(headId);
      return true;
    }

    /** The table is in the state repair brings a disk d to. */
    ghost predicate RepairedFrom(d: Disk)
      requires |Entries(d)| >= 1
      reads this
    {
      var es := Entries(d);
      && disk.index == Repaired(d).index
      && disk.meta == Repaired(d).meta == Some(itemHidden)
      && PlusEmpty(LeftFiles(d), disk.files)
      && tailId == es[0].filenum
      && itemOffset == es[0].offset
      && items == itemOffset + Kept(d.files, es) - 1
      && headId == LastKept(d).filenum && headId in LeftFiles(d)
      && headBytes == LastKept(d).offset
    }

    /** Opens a table from the files it finds. An index with a torn first entry (1 to 5 bytes) is
        cut to nothing and the item count wraps around. Otherwise index and head are brought in
        step, and then the head is removed if it is below the tail: the bytes counted are those in the
        head file if and only if it is not, or is to be empty. */
    method Repair() returns (ok: bool)
      requires open == {}
      modifies this
      ensures 0 < |old(disk.index)| < ENTRY_SIZE ==> ok && items == MAX_UINT64 && disk.index == []
      ensures |old(disk.index)| == 0 || ENTRY_SIZE <= |old(disk.index)| ==>
        && |Entries(Initial(old(disk)))| >= 1
        && RepairedFrom(Initial(old(disk)))
        && NoStray(old(disk.files), disk.files, Entries(Initial(old(disk))))
        && (headId in disk.files && headBytes == |disk.files[headId]| <==> Upright(Initial(old(disk))))
        && (ok <==> forall f: nat :: tailId <= f < headId ==> f in disk.files)
        && (ok && tailId <= headId ==> forall f :: f in open <==> tailId <= f <= headId)
        && old(trace) <= trace
        && forall k :: |old(trace)| <= k < |trace| ==> Moment(trace[k], Initial(old(disk)))
    {
      hide Parse, Kept, Repaired, RepairedHidden, PlusEmpty, Repairing, CutAt, Marshal, Beheaded;
      if 0 < |disk.index| < ENTRY_SIZE {
        RepairTorn();
        return true;
      }
      ghost var d := Initial(disk);
      InitialEntries(disk);
      if |disk.index| == 0 {
        Put(disk.(index := Marshal(IndexEntry(0, 0))));
        RepairingSelf(disk);
      }
      RepairWhole();
      LastListed(Entries(d), Kept(d.files, Entries(d)));
      Reclaim(d);
      ghost var d1 := disk;
      ok := Preopen();
      Opened(disk, d1, d);
    }

    /** Removes a head below the tail. */
    method Reclaim(ghost d: Disk)
      requires |Entries(d)| >= 1 && Aligned(d) && open == {headId}
      modifies this`disk, this`trace, this`open
      ensures disk.index == Repaired(d).index && disk.meta == Repaired(d).meta
      ensures disk.files.Keys <= old(disk.files).Keys
      ensures if Fallen(d) then Beheaded(disk, d) && open == {} else disk == old(disk) && open == {headId}
      ensures old(trace) <= trace
      ensures forall k :: |old(trace)| <= k < |trace| ==> Moment(trace[k], d)
    {
      hide Parse, Kept, Repaired, RepairedHidden, CutAt, Moment, Repairing, PlusEmpty, SameUpTo, Fewer;
      ghost var d0 := disk;
      OnlyHead(headId, tailId);
      ReleaseFilesAfter(headId);
      Unchanged(d0, disk);
      assert open == {headId};
      ReleaseFilesBefore(tailId, headId);
      if !Fallen(d) {
        Unchanged(d0, disk);
      }
      forall k | |old(trace)| <= k < |trace| ensures Moment(trace[k], d) {
        FewerMoment(d0, trace[k], d);
      }
      FewerMoment(d0, disk, d);
    }

    /** Index and head of a disk d have been brought in step. */
    ghost predicate Aligned(d: Disk)
      requires |Entries(d)| >= 1
      reads this
    {
      var es := Entries(d);
      && disk.index == Repaired(d).index
      && disk.meta == Repaired(d).meta == Some(itemHidden)
      && PlusEmpty(Repaired(d).files, disk.files)
      && tailId == es[0].filenum
      && itemOffset == es[0].offset
      && items == itemOffset + Kept(d.files, es) - 1
      && headId == LastKept(d).filenum && headId in disk.files
      && headBytes == LastKept(d).offset == |disk.files[headId]|
    }

    /** The part of repair for an index that holds its first entry. */
    method RepairWhole()
      requires ENTRY_SIZE <= |disk.index| && open == {}
      modifies this
      ensures Aligned(old(disk)) && open == {headId}
      ensures NoStray(old(disk.files), disk.files, Entries(old(disk)))
      ensures old(trace) <= trace
      ensures forall k :: |old(trace)| <= k < |trace| ==> Repairing(trace[k], old(disk))
    {
      hide Parse, Kept, Repairing, CutAt, PlusEmpty, NoStray;
      ghost var d := disk;
      CutTorn(disk);
      var overflow := |disk.index| % ENTRY_SIZE;
      if overflow != 0 {
        Put(disk.(index := Resize(disk.index, |disk.index| - overflow)));
      } else {
        assert d.index[..|d.index|] == d.index;
      }
      var firstIndex := ReadEntry(disk.index, 0);
      EntryAt(disk.index, 0);
      tailId := firstIndex.filenum;
      itemOffset := firstIndex.offset;
      LoadMetadata();
      ghost var d1 := disk;
      MetaWritten(d1, d);
      var offsetsSize, lastIndex := AlignHead();
      forall k | |old(trace)| <= k < |trace| ensures Repairing(trace[k], d) {
        if Repairing(trace[k], d1) {
          RepairingSame(trace[k], d1, d);
        }
      }
      items := itemOffset + offsetsSize / ENTRY_SIZE - 1;
      headBytes := lastIndex.offset;
      headId := lastIndex.filenum;
    }

    /** The part of repair for an index torn inside its first entry: every read of it fails and
        leaves the buffer zero. */
    method RepairTorn()
      requires 0 < |disk.index| < ENTRY_SIZE
      modifies this
      ensures items == MAX_UINT64 && tailId == headId == itemOffset == headBytes == 0 && open == {0}
      ensures itemHidden == if old(disk.meta).Some? then old(disk.meta).value else 0
      ensures disk == Disk([], old(disk.files)[0 := []], Some(itemHidden))
    {
      Put(disk.(index := Resize(disk.index, 0)));
      tailId, itemOffset, open := 0, 0, {};
      LoadMetadata();
      var contentSize := OpenForAppend(0);
      if 0 < contentSize {
        Put(disk.(files := disk.files[0 := []]));
      }
      assert disk.files == old(disk.files)[0 := []];
      items := MAX_UINT64; // uint64(0 / 6 - 1)
      headBytes, headId := 0, 0;
    }

    /** Opens a table after a crash: it shows the history up to the longest run of items whose index
        entries and bytes both survived. */
    method Reopen(ghost d: Disk, ghost h: seq<Blob>, ghost top: nat, ghost hidden: nat) returns (ok: bool)
      requires open == {}
      requires Window(d, h, top, hidden) && Crashed(disk, d, top)
      modifies this
      ensures ok && Valid()
      ensures itemHidden == hidden && itemOffset == Entries(d)[0].offset
      ensures |Entries(old(disk))| >= 1
      ensures var n := itemOffset + Kept(old(disk.files), Entries(old(disk))) - 1;
              n <= |h| && history == h[..n]
      ensures Lies() == Layout(Entries(old(disk))[..Kept(old(disk.files), Entries(old(disk)))],
                               LastKept(old(disk)).filenum, LastKept(old(disk)).offset)
      ensures old(trace) <= trace
      ensures forall k :: |old(trace)| <= k < |trace| ==> Repairing(trace[k], old(disk))
    {
      hide Parse, Kept, RepairedHidden, PlusEmpty, Repairing, CutAt, Stores, Repaired;
      ghost var d' := disk;
      ghost var recovered := RecoveredWindow(d', d, h, top, hidden);
      ok := Repair();
      history := recovered;
      WindowLength(Repaired(d'), recovered, LastKept(d').filenum, hidden);
      PlusEmptyWindow(Repaired(d'), disk, history, headId, hidden);
    }

    /** The index entries that bound `count` items from item `from` on. The first entry of the
        index is a marker, so the bounds of the first item kept start at offset 0 of its file. */
    method GetIndices(from: nat, count: nat) returns (indices: seq<IndexEntry>)
      requires |disk.index| % ENTRY_SIZE == 0
      requires itemOffset <= from && 1 <= count && from + count - itemOffset < |Entries(disk)|
      ensures |indices| == count + 1
      ensures forall k :: 0 < k <= count ==> indices[k] == Entries(disk)[from - itemOffset + k]
      ensures indices[0] == if from == itemOffset
                            then IndexEntry(Entries(disk)[1].filenum, 0) else Entries(disk)[from - itemOffset]
    {
      hide Unmarshal;
      var slot := from - itemOffset;
      ParsePrefix(disk.index, ENTRY_SIZE * (slot + count + 1));
      var buffer := disk.index[ENTRY_SIZE * slot..ENTRY_SIZE * (slot + count + 1)];
      indices := [];
      var offset := 0;
      for i := slot to slot + count + 1
        invariant offset == ENTRY_SIZE * (i - slot) && |indices| == i - slot
        invariant forall k :: 0 <= k < i - slot ==> indices[k] == Entries(disk)[slot + k]
      {
        SliceOfSlice(disk.index, ENTRY_SIZE * slot, ENTRY_SIZE * (slot + count + 1), offset, ENTRY_SIZE);
        indices := indices + [Unmarshal(buffer[offset..offset + ENTRY_SIZE])];
        offset := offset + ENTRY_SIZE;
      }
      if slot == 0 {
        indices := [IndexEntry(indices[1].filenum, 0)] + indices[1..];
      }
    }

    /** The items a reader asking for `count` items from start on may get. */
    ghost function Available(start: nat, count: nat): seq<Blob>
      requires start <= |history|
      reads this
    {
      history[start..if count <= |history| - start then start + count else |history|]
    }

    /** Reads items as one byte string and their sizes. Fails when the first item is not visible or
        none is asked for. */
    method RetrieveRaw(start: nat, count: nat, maxBytes: nat) returns (ok: bool, output: seq<byte>, sizes: seq<nat>)
      requires Valid()
      requires items <= MAX_UINT64 && (itemHidden <= start < items ==> start + count <= MAX_UINT64) // see ClipCorrect
      ensures ok <==> itemHidden <= start < items && count > 0
      ensures ok ==> RightCount(Available(start, count), maxBytes, |sizes|)
      ensures ok ==> output == Flatten(Available(start, count)[..|sizes|])
      ensures ok ==> forall k :: 0 <= k < |sizes| ==> sizes[k] == |Available(start, count)[k]|
    {
      hide Parse, Flatten, Stores, RightCount;
      WindowLength(disk, history, headId, itemHidden);
      if items <= start || itemHidden > start || count == 0 {
        return false, [], [];
      }
      ok := true;
      var clipped := Clip(start, count, items);
      var indices := GetIndices(start, clipped);
      ghost var blobs := Available(start, count);
      forall i | 0 <= i < |blobs| ensures Located(disk.files, open, indices[i], indices[i + 1], blobs[i]) {
        ItemBounds(disk, history, headId, start, indices, i);
      }
      output, sizes := ReadItems(disk.files, open, indices, maxBytes, blobs);
    }

    /** Reads items from start on: as many as asked for, available and within maxBytes, but at least
        one. */
    method RetrieveItems(start: nat, count: nat, maxBytes: nat) returns (r: Option<seq<Blob>>)
      requires Valid()
      requires items <= MAX_UINT64 && (itemHidden <= start < items ==> start + count <= MAX_UINT64) // see ClipCorrect
      ensures r.Some? <==> itemHidden <= start < items && count > 0
      ensures r.Some? ==> RightCount(Available(start, count), maxBytes, |r.value|)
      ensures r.Some? ==> r.value == history[start..start + |r.value|]
    {
      var ok, diskData, sizes := RetrieveRaw(start, count, maxBytes);
      if !ok {
        return None;
      }
      var output := SliceUp(diskData, sizes, maxBytes, Available(start, count));
      ghost var end := if count <= |history| - start then start + count else |history|;
      RunOf(history, start, end, |sizes|);
      return Some(output);
    }

    /** Reads one item. */
    method Retrieve(item: nat) returns (r: Option<Blob>)
      requires Valid() && items <= MAX_UINT64
      ensures r == if itemHidden <= item < items then Some(history[item]) else None
    {
      var items' := RetrieveItems(item, 1, 0);
      r := if items'.None? then None else Some(items'.value[0]);
    }
  }

  // ---------- Opening ----------

  /** A table opened over an empty directory holds nothing. */
  method CreateTable(maxFileSize: nat) returns (t: Table)
    ensures fresh(t) && t.Valid() && t.history == [] && t.itemHidden == 0
    ensures t.Lies() == Layout([IndexEntry(0, 0)], 0, 0) && t.maxFileSize == maxFileSize && t.Tidy()
  {
    hide Parse, Kept, Marshal;
    var d := Disk([], map[], None);
    t := new Table(d, maxFileSize);
    InitialEntries(d);
    EmptyTable(Initial(d));
    var ok := t.Repair();
    WindowLength(Repaired(Initial(d)), [], 0, 0);
    PlusEmptyWindow(Repaired(Initial(d)), t.disk, [], 0, 0);
    t.history := [];
  }

  lemma EmptyTable(d: Disk)
    requires Entries(d) == [IndexEntry(0, 0)] && d.files == map[] && d.meta == None
    ensures Kept(d.files, Entries(d)) == 1 && LastKept(d) == IndexEntry(0, 0) && !Fallen(d)
    ensures Window(Repaired(d), [], 0, 0) && Entries(Repaired(d)) == [IndexEntry(0, 0)]
  {
    hide Parse;
    RepairedEntries(d);
    assert [IndexEntry(0, 0)][..1] == [IndexEntry(0, 0)];
  }

  /** A table opened over files that nothing was lost from shows what they hold. */
  method OpenTable(d: Disk, maxFileSize: nat, ghost h: seq<Blob>, ghost top: nat, ghost hidden: nat) returns (t: Table)
    requires Window(d, h, top, hidden)
    ensures fresh(t) && t.Valid() && t.history == h && t.itemHidden == hidden && t.maxFileSize == maxFileSize
  {
    hide Parse, Kept, Stores, Crashed, Table.Valid;
    t := new Table(d, maxFileSize);
    NothingLost(d, h, top);
    WindowLength(d, h, top, hidden);
    var ok := t.Reopen(d, h, top, hidden);
  }

  /** Cutting the head, stopping after file operation k of it and opening the files: the new table shows
      exactly what the cut was to leave. */
  method StopTruncateHead(t: Table, n: nat, k: nat) returns (ok: bool, stopped: Option<Table>)
    requires t.Valid()
    modifies t
    ensures ok <==> old(t.items) <= n || old(t.itemHidden) <= n
    ensures t.history == if ok && n < old(t.items) then old(t.history)[..n] else old(t.history)
    ensures stopped.Some? <==> |old(t.trace)| <= k < |t.trace|
    ensures stopped.Some? ==> stopped.value.Valid() && stopped.value.history == t.history
    ensures stopped.Some? ==> stopped.value.itemHidden == old(t.itemHidden)
  {
    hide Window, Table.Valid;
    var start := |t.trace|;
    ok := t.TruncateHead(n);
    stopped := None;
    if start <= k < |t.trace| {
      var s := OpenTable(t.trace[k], t.maxFileSize, t.history, t.headId, t.itemHidden);
      stopped := Some(s);
    }
  }

  /** Cutting the tail, stopping after file operation k of it and opening the files: no blob has changed
      and the new tail is in force. */
  method StopTruncateTail(t: Table, n: nat, k: nat) returns (ok: bool, stopped: Option<Table>)
    requires t.Valid() && (t.itemHidden < n <= t.items ==> TailFits(t.Lies(), n))
    modifies t
    ensures ok <==> n <= old(t.itemHidden) || n <= old(t.items)
    ensures stopped.Some? <==> |old(t.trace)| <= k < |t.trace|
    ensures stopped.Some? ==> stopped.value.Valid() && stopped.value.history == old(t.history)
    ensures stopped.Some? ==> stopped.value.itemHidden == n
  {
    hide Window, Table.Valid;
    var start := |t.trace|;
    ok := t.TruncateTail(n);
    stopped := None;
    if start <= k < |t.trace| {
      var s := OpenTable(t.trace[k], t.maxFileSize, t.history, t.headId, t.itemHidden);
      stopped := Some(s);
    }
  }

  /** An index that ends in a file below its first: the head file is removed with the byte that is still
      counted in it. */
  method FallenHead() returns (t: Table)
    ensures t.headId == 3 && t.headBytes == 1 && t.items == 1
    ensures 3 in t.disk.files && t.disk.files[3] == []
  {
    hide Parse, Marshal, Kept, PlusEmpty, Moment, Repaired;
    var d := Disk(Marshal(IndexEntry(5, 0)) + Marshal(IndexEntry(3, 1)), map[3 := [7]], None);
    FallenEntries(d);
    t := new Table(d, 1);
    var ok := t.Repair();
    LeftFallen(d, t.disk.files);
  }

  lemma FallenEntries(d: Disk)
    requires d == Disk(Marshal(IndexEntry(5, 0)) + Marshal(IndexEntry(3, 1)), map[3 := [7]], None)
    ensures Entries(d) == [IndexEntry(5, 0), IndexEntry(3, 1)] && |d.index| == 2 * ENTRY_SIZE
    ensures Kept(d.files, Entries(d)) == 2 && LastKept(d) == IndexEntry(3, 1) && Fallen(d) && !Upright(d)
  {
    hide Parse, Marshal;
    ParseOne(IndexEntry(5, 0));
    ParseOne(IndexEntry(3, 1));
    ParseConcat(Marshal(IndexEntry(5, 0)), Marshal(IndexEntry(3, 1)));
    var es := [IndexEntry(5, 0), IndexEntry(3, 1)];
    assert Entries(d) == es && es[..2] == es;
  }

  lemma LeftFallen(d: Disk, files: map<nat, seq<byte>>)
    requires |Entries(d)| >= 1 && Fallen(d) && PlusEmpty(LeftFiles(d), files)
    ensures LastKept(d).filenum in files && files[LastKept(d).filenum] == []
  {
    hide Repaired, Kept, Parse;
  }
}
