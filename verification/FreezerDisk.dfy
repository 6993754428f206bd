/** What a freezer table leaves on disk, what a crash may take away from it, and what
    opening the table again makes of the rest. */
module FreezerDisk {
  import opened Bytes
  import opened FreezerIndex
  import opened Wrappers

  type Blob = seq<byte>

  /** The blobs written one after the other. */
  function Flatten(bs: seq<Blob>): seq<byte> {
    if bs == [] then [] else Flatten(bs[..|bs| - 1]) + bs[|bs| - 1]
  }

  lemma FlattenAppend(bs: seq<Blob>, b: Blob)
    ensures Flatten(bs + [b]) == Flatten(bs) + b
  {
    assert (bs + [b])[..|bs|] == bs;
  }

  /** The files of one table: the index, the data files by number, and the virtual tail
      stored in the metadata file (None while that file is empty). */
  datatype Disk = Disk(index: seq<byte>, files: map<nat, seq<byte>>, meta: Option<nat>)

  function Entries(d: Disk): seq<IndexEntry> {
    Parse(d.index)
  }

  /** Size of a data file; opening a missing file for append creates it empty. */
  function SizeOf(files: map<nat, seq<byte>>, f: nat): nat {
    if f in files then |files[f]| else 0
  }

  /** Item i of the index, whose number is es[0].offset + i - 1, lies whole in its data file
      and is the blob of that number in h. */
  ghost predicate Backed(files: map<nat, seq<byte>>, es: seq<IndexEntry>, i: nat, h: seq<Blob>) {
    && 1 <= i < |es|
    && es[0].offset + i - 1 < |h|
    && es[i].filenum in files
    && Start(es, i) <= es[i].offset <= |files[es[i].filenum]|
    && files[es[i].filenum][Start(es, i)..es[i].offset] == h[es[0].offset + i - 1]
  }

  /** The files store the items of the history h from es[0].offset on; no item lies in a file
      above number top. */
  ghost predicate Stores(files: map<nat, seq<byte>>, es: seq<IndexEntry>, h: seq<Blob>, top: nat) {
    && Ordered(es)
    && Last(es).filenum <= top
    && |h| == es[0].offset + |es| - 1
    && (forall f: nat :: es[0].filenum <= f <= top ==> f in files)
    && (forall i :: 1 <= i < |es| ==> Backed(files, es, i, h))
  }

  /** The disk holds the items of the history h that its index lists. */
  ghost predicate Holds(d: Disk, h: seq<Blob>, top: nat) {
    |d.index| % ENTRY_SIZE == 0 && Stores(d.files, Entries(d), h, top)
  }

  /** A disk that opens as history h with the first `hidden` items hidden. */
  ghost predicate Window(d: Disk, h: seq<Blob>, top: nat, hidden: nat) {
    Holds(d, h, top) && d.meta == Some(hidden) && Entries(d)[0].offset <= hidden
  }

  lemma TopBound(files: map<nat, seq<byte>>, es: seq<IndexEntry>, h: seq<Blob>, top: nat, i: nat)
    requires Stores(files, es, h, top)
    requires i < |es|
    ensures es[i].filenum <= Last(es).filenum
  {
    if 1 <= i {
      assert Before(es[i], es[|es| - 1]);
    }
  }

  // ---------- The effect of single file operations ----------

  /** Only the bytes below each item's end matter: files may grow, or change elsewhere. */
  lemma StoresFrame(files: map<nat, seq<byte>>, es: seq<IndexEntry>, h: seq<Blob>, top: nat,
      files': map<nat, seq<byte>>)
    requires Stores(files, es, h, top)
    requires forall f: nat :: es[0].filenum <= f <= top ==> f in files' && files[f] <= files'[f]
    ensures Stores(files', es, h, top)
  {
    forall i | 1 <= i < |es| ensures Backed(files', es, i, h) {
      assert Backed(files, es, i, h);
      TopBound(files, es, h, top, i);
      var f := es[i].filenum;
      assert files[f][Start(es, i)..es[i].offset] == files'[f][Start(es, i)..es[i].offset];
    }
  }

  /** Keeping fewer entries drops the newest items and nothing else. */
  lemma StoresPrefix(files: map<nat, seq<byte>>, es: seq<IndexEntry>, h: seq<Blob>, top: nat, n: nat)
    requires Stores(files, es, h, top)
    requires n < |es|
    ensures Stores(files, es[..n + 1], h[..es[0].offset + n], Last(es[..n + 1]).filenum)
  {
    var es' := es[..n + 1];
    OrderedPrefix(es, n + 1);
    var h' := h[..es[0].offset + n];
    forall i | 1 <= i < |es'| ensures Backed(files, es', i, h') {
      assert Backed(files, es, i, h);
      assert Start(es', i) == Start(es, i);
    }
    TopBound(files, es, h, top, n);
  }

  /** Cutting the last file after the end of the last item loses nothing. */
  lemma StoresCutHead(files: map<nat, seq<byte>>, es: seq<IndexEntry>, h: seq<Blob>, top: nat)
    requires Stores(files, es, h, top)
    requires Last(es).filenum == top
    ensures Last(es).offset <= |files[top]|
    ensures Stores(files[top := files[top][..Last(es).offset]], es, h, top)
  {
    if |es| > 1 {
      assert Backed(files, es, |es| - 1, h);
    }
    var files' := files[top := files[top][..Last(es).offset]];
    forall i | 1 <= i < |es| ensures Backed(files', es, i, h) {
      assert Backed(files, es, i, h);
      assert Before(es[i], es[|es| - 1]);
      if es[i].filenum == top {
        assert files'[top][Start(es, i)..es[i].offset] == files[top][Start(es, i)..es[i].offset];
      }
    }
  }

  /** Opening a higher-numbered file from scratch loses nothing. */
  lemma StoresNewHead(files: map<nat, seq<byte>>, es: seq<IndexEntry>, h: seq<Blob>, top: nat)
    requires Stores(files, es, h, top)
    ensures Stores(files[top + 1 := []], es, h, top + 1)
    ensures Stores(files[top + 1 := []], es, h, top)
  {
    StoresFrame(files, es, h, top, files[top + 1 := []]);
  }

  /** Replacing the first k + 1 entries by a marker forgets items below k only, provided item k
      starts a file (or no item is dropped). */
  lemma StoresSuffix(files: map<nat, seq<byte>>, es: seq<IndexEntry>, h: seq<Blob>, top: nat, k: nat, tail: nat)
    requires Stores(files, es, h, top)
    requires k < |es|
    requires es[0].filenum <= tail <= top
    requires forall i :: k < i < |es| ==> tail <= es[i].filenum
    requires 1 <= k < |es| - 1 ==> es[k].filenum != es[k + 1].filenum
    ensures Stores(files, [IndexEntry(tail, es[0].offset + k)] + es[k + 1..], h, top)
  {
    var marker := IndexEntry(tail, es[0].offset + k);
    var es' := [marker] + es[k + 1..];
    OrderedSuffix(es, k, marker);
    forall i | 1 <= i < |es'| ensures Backed(files, es', i, h) {
      assert Backed(files, es, k + i, h);
      assert es'[i] == es[k + i];
      assert i > 1 ==> es'[i - 1] == es[k + i - 1];
      assert Start(es', i) == Start(es, k + i);
    }
  }

  lemma BackedAppended(files: map<nat, seq<byte>>, es: seq<IndexEntry>, e: IndexEntry, i: nat, h: seq<Blob>, blob: Blob)
    requires Backed(files, es, i, h)
    ensures Backed(files, es + [e], i, h + [blob])
  {
    var es' := es + [e];
    assert es'[i] == es[i] && es'[i - 1] == es[i - 1] && es'[0] == es[0];
    assert Start(es', i) == Start(es, i);
  }

  /** A blob written after the last item, and an entry for its end, add it to the history. The
      file may already hold more bytes after it. */
  lemma StoresAppended(files: map<nat, seq<byte>>, es: seq<IndexEntry>, h: seq<Blob>, top: nat, size: nat, blob: Blob)
    requires Stores(files, es, h, top)
    requires size + |blob| <= |files[top]|
    requires files[top][size..size + |blob|] == blob
    requires size == if Last(es).filenum == top then Last(es).offset else 0
    ensures Stores(files, es + [IndexEntry(top, size + |blob|)], h + [blob], top)
  {
    var e := IndexEntry(top, size + |blob|);
    OrderedAppended(es, e);
    var es' := es + [e];
    forall i | 1 <= i < |es'| ensures Backed(files, es', i, h + [blob]) {
      if i < |es| {
        assert Backed(files, es, i, h);
        BackedAppended(files, es, e, i, h, blob);
      } else {
        assert es'[i] == e && es'[i - 1] == es[i - 1];
        assert Start(es', i) == size;
      }
    }
  }

  // ---------- Crashes and repair ----------

  /** Item i lies whole in its data file. */
  predicate Stored(files: map<nat, seq<byte>>, es: seq<IndexEntry>, i: nat)
    requires i < |es|
  {
    es[i].offset <= SizeOf(files, es[i].filenum)
  }

  /** How many index entries repair keeps: it drops entries from the end until the last one
      points inside its data file, but never the first. */
  function Kept(files: map<nat, seq<byte>>, es: seq<IndexEntry>): (k: nat)
    requires |es| >= 1
    ensures 1 <= k <= |es|
    decreases |es|
  {
    if |es| == 1 || Stored(files, es, |es| - 1) then |es| else Kept(files, es[..|es| - 1])
  }

  lemma {:induction false} KeptFacts(files: map<nat, seq<byte>>, es: seq<IndexEntry>)
    requires |es| >= 1
    ensures var k := Kept(files, es);
            && (k > 1 ==> Stored(files, es, k - 1))
            && (k < |es| ==> !Stored(files, es, k))
    decreases |es|
  {
    if |es| > 1 && !Stored(files, es, |es| - 1) {
      KeptFacts(files, es[..|es| - 1]);
    }
  }

  /** The virtual tail repair settles on. */
  function RepairedHidden(d: Disk): nat
    requires |Entries(d)| >= 1
  {
    var first := Entries(d)[0].offset;
    if d.meta.Some? && d.meta.value >= first then d.meta.value else first
  }

  /** The data files once the head is opened and cut after the last entry. */
  function CutAt(files: map<nat, seq<byte>>, last: IndexEntry): map<nat, seq<byte>> {
    files[last.filenum := if last.filenum in files then Resize(files[last.filenum], last.offset) else []]
  }

  /** The files repair leaves: dangling index entries and dangling head bytes cut off. */
  function Repaired(d: Disk): Disk
    requires |Entries(d)| >= 1
  {
    var kept := Kept(d.files, Entries(d));
    Disk(d.index[..ENTRY_SIZE * kept], CutAt(d.files, Last(Entries(d)[..kept])), Some(RepairedHidden(d)))
  }

  /** The newest data file lost any number of bytes or vanished, older files from the tail on are
      intact, and any other file may hold anything. */
  ghost predicate LostBytes(files': map<nat, seq<byte>>, files: map<nat, seq<byte>>, tail: nat, top: nat) {
    && (forall f: nat :: tail <= f < top ==> f in files && f in files' && files'[f] == files[f])
    && (top in files' ==> top in files && files'[top] <= files[top])
  }

  /** d' is what may be left of d after a crash: the index lost any number of bytes from its end
      but kept its first entry, and the data files lost bytes of the newest one only. */
  ghost predicate Crashed(d': Disk, d: Disk, top: nat) {
    && ENTRY_SIZE <= |d'.index|
    && d'.index <= d.index
    && d'.meta == d.meta
    && LostBytes(d'.files, d.files, Entries(d)[0].filenum, top)
  }

  /** The first n items left their index entries and all their bytes on disk. */
  predicate Survive(files: map<nat, seq<byte>>, es: seq<IndexEntry>, n: nat) {
    n < |es| && forall i :: 1 <= i <= n ==> Stored(files, es, i)
  }

  /** Below an item that survived, every item survived. */
  lemma StoredBelow(files': map<nat, seq<byte>>, files: map<nat, seq<byte>>, es: seq<IndexEntry>, h: seq<Blob>,
      top: nat, i: nat, k: nat)
    requires Stores(files, es, h, top)
    requires LostBytes(files', files, es[0].filenum, top)
    requires 1 <= i <= k < |es|
    requires Stored(files', es, k)
    ensures Stored(files', es, i)
  {
    assert Backed(files, es, i, h);
    assert Before(es[i], es[k]);
    TopBound(files, es, h, top, k);
  }

  /** The entries kept are exactly the longest run of items that survived. */
  lemma KeptIsLongest(files': map<nat, seq<byte>>, files: map<nat, seq<byte>>, es': seq<IndexEntry>,
      es: seq<IndexEntry>, h: seq<Blob>, top: nat)
    requires Stores(files, es, h, top)
    requires LostBytes(files', files, es[0].filenum, top)
    requires 1 <= |es'| && es' <= es
    ensures forall n: nat :: Survive(files', es', n) <==> n < Kept(files', es')
  {
    var k := Kept(files', es');
    KeptFacts(files', es');
    forall i | 1 <= i < k ensures Stored(files', es', i) {
      assert es'[i] == es[i] && es'[k - 1] == es[k - 1];
      StoredBelow(files', files, es, h, top, i, k - 1);
    }
    assert k < |es'| ==> !Survive(files', es', k);
  }

  /** The bytes of item i that survived are those written, and repair leaves them in place. */
  lemma CutItem(files': map<nat, seq<byte>>, files: map<nat, seq<byte>>, es: seq<IndexEntry>, h: seq<Blob>,
      top: nat, i: nat, k: nat)
    requires Stores(files, es, h, top)
    requires LostBytes(files', files, es[0].filenum, top)
    requires 1 <= i <= k < |es|
    requires Stored(files', es, k)
    ensures Backed(CutAt(files', es[k]), es, i, h)
  {
    assert Backed(files, es, i, h);
    assert Before(es[i], es[k]);
    TopBound(files, es, h, top, k);
    StoredBelow(files', files, es, h, top, i, k);
    var f, cut := es[i].filenum, CutAt(files', es[k]);
    assert cut[f] <= files[f];
    assert cut[f][Start(es, i)..es[i].offset] == files[f][Start(es, i)..es[i].offset];
  }

  lemma BackedPrefix(files: map<nat, seq<byte>>, es: seq<IndexEntry>, i: nat, h: seq<Blob>,
      es': seq<IndexEntry>, h': seq<Blob>)
    requires Backed(files, es, i, h)
    requires es' <= es && i < |es'|
    requires h' <= h && es'[0].offset + i - 1 < |h'|
    ensures Backed(files, es', i, h')
  {
    assert es'[i] == es[i] && es'[i - 1] == es[i - 1] && es'[0] == es[0];
    assert Start(es', i) == Start(es, i);
  }

  /** Cutting index and head after item k leaves the history up to k. */
  lemma CutStores(files': map<nat, seq<byte>>, files: map<nat, seq<byte>>, es: seq<IndexEntry>, h: seq<Blob>,
      top: nat, k: nat)
    requires Stores(files, es, h, top)
    requires LostBytes(files', files, es[0].filenum, top)
    requires k < |es|
    requires k > 0 ==> Stored(files', es, k)
    ensures var last := Last(es[..k + 1]);
            Stores(CutAt(files', last), es[..k + 1], h[..es[0].offset + k], last.filenum)
  {
    var es', h' := es[..k + 1], h[..es[0].offset + k];
    var cut := CutAt(files', Last(es'));
    OrderedPrefix(es, k + 1);
    TopBound(files, es, h, top, k);
    forall i | 1 <= i < |es'| ensures Backed(cut, es', i, h') {
      CutItem(files', files, es, h, top, i, k);
      BackedPrefix(cut, es, i, h, es', h');
    }
  }

  /** A crash keeps a prefix of the index. */
  lemma CrashedEntries(d': Disk, d: Disk, top: nat)
    requires Crashed(d', d, top)
    ensures |Entries(d')| >= 1 && Entries(d') <= Entries(d)
  {
    ParsePrefix(d.index, |d'.index|);
    assert d.index[..|d'.index|] == d'.index;
  }

  /** After a crash, repair keeps exactly the longest run of items whose index entries and
      bytes both survived. */
  lemma LongestSurvivingPrefix(d': Disk, d: Disk, h: seq<Blob>, top: nat)
    requires Holds(d, h, top)
    requires Crashed(d', d, top)
    ensures |Entries(d')| >= 1
    ensures forall n: nat :: Survive(d'.files, Entries(d'), n) <==> n < Kept(d'.files, Entries(d'))
  {
    CrashedEntries(d', d, top);
    KeptIsLongest(d'.files, d.files, Entries(d'), Entries(d), h, top);
  }

  lemma RepairedEntries(d: Disk)
    requires |Entries(d)| >= 1
    ensures |Repaired(d).index| % ENTRY_SIZE == 0
    ensures Entries(Repaired(d)) == Entries(d)[..Kept(d.files, Entries(d))]
  {
    ParsePrefix(d.index, ENTRY_SIZE * Kept(d.files, Entries(d)));
  }

  /** Opening a crashed table shows the history up to the last surviving item. */
  lemma RepairRecovers(d': Disk, d: Disk, h: seq<Blob>, top: nat)
    requires Holds(d, h, top)
    requires Crashed(d', d, top)
    ensures |Entries(d')| >= 1 && Entries(d')[0] == Entries(d)[0]
    ensures var es := Entries(Repaired(d'));
            var n := es[0].offset + Kept(d'.files, Entries(d')) - 1;
            n <= |h| && Holds(Repaired(d'), h[..n], Last(es).filenum)
  {
    hide Parse, Marshal, Resize;
    CrashedEntries(d', d, top);
    RepairedEntries(d');
    var es, es' := Entries(d), Entries(d');
    var kept := Kept(d'.files, es');
    KeptFacts(d'.files, es');
    assert es'[..kept] == es[..kept] && (kept > 1 ==> Stored(d'.files, es, kept - 1));
    CutStores(d'.files, d.files, es, h, top, kept - 1);
  }

  /** Stopping without losing anything is a crash from which everything is recovered. */
  lemma NothingLost(d: Disk, h: seq<Blob>, top: nat)
    requires Holds(d, h, top)
    ensures Crashed(d, d, top)
    ensures Kept(d.files, Entries(d)) == |Entries(d)|
  {
    hide Parse;
    var es := Entries(d);
    EntriesLength(d);
    if |es| > 1 {
      assert Backed(d.files, es, |es| - 1, h);
    }
  }

  lemma EntriesLength(d: Disk)
    requires |Entries(d)| >= 1
    ensures ENTRY_SIZE <= |d.index|
  {
  }
}
