/** The freezer index file: six-byte entries, and the item bounds they describe. */
module FreezerIndex {
  import opened Bytes

  const ENTRY_SIZE := 6

  /** The data file an item ends in and the offset of its end in that file. */
  datatype IndexEntry = IndexEntry(filenum: nat, offset: nat)

  predicate Fits(e: IndexEntry) {
    e.filenum < 0x1_0000 && e.offset < 0x1_0000_0000
  }

  /** Serialises an entry; like the source, wider numbers are silently cut to 16 and 32 bits. */
  function Marshal(e: IndexEntry): (b: seq<byte>)
    ensures |b| == ENTRY_SIZE
  {
    BigEndian(e.filenum, 2) + BigEndian(e.offset, 4)
  }

  function Unmarshal(b: seq<byte>): (e: IndexEntry)
    requires |b| >= ENTRY_SIZE
    ensures Fits(e)
  {
    ValueBound(b[..2]);
    ValueBound(b[2..6]);
    assert Pow256(2) == 0x1_0000 && Pow256(4) == 0x1_0000_0000 by { Powers(); }
    IndexEntry(Value(b[..2]), Value(b[2..6]))
  }

  lemma Powers()
    ensures Pow256(2) == 0x1_0000 && Pow256(4) == 0x1_0000_0000
  {
    assert Pow256(1) == 256;
    assert Pow256(2) == 0x1_0000;
    assert Pow256(3) == 0x100_0000;
  }

  /** Two bytes of file number, then four of offset, both with the most significant first. */
  lemma MarshalBytes(e: IndexEntry)
    ensures var b: seq<int> := Marshal(e);
            && 0x100 * b[0] + b[1] == e.filenum % 0x1_0000
            && 0x100 * (0x100 * (0x100 * b[2] + b[3]) + b[4]) + b[5] == e.offset % 0x1_0000_0000
  {
    hide BigEndian;
    TwoBytes(e.filenum);
    TwoBytes(e.offset);
    TwoBytes(e.offset / 0x1_0000);
    FourBytes(e.offset);
  }

  lemma TwoBytes(n: nat)
    ensures BigEndian(n, 2) == [n / 256 % 256, n % 256] && 0x100 * (n / 256 % 256) + n % 256 == n % 0x1_0000
  {
    assert BigEndian(n / 256, 1) == BigEndian(n / 256 / 256, 0) + [n / 256 % 256];
  }

  lemma FourBytes(n: nat)
    ensures BigEndian(n, 4) == BigEndian(n / 0x1_0000, 2) + BigEndian(n, 2)
    ensures 0x1_0000 * (n / 0x1_0000 % 0x1_0000) + n % 0x1_0000 == n % 0x1_0000_0000
  {
    TwoBytes(n);
    TwiceShifted(n);
    assert BigEndian(n, 4) == BigEndian(n / 256 / 256, 2) + [n / 256 % 256] + [n % 256] by {
      assert BigEndian(n, 4) == BigEndian(n / 256, 3) + [n % 256];
    }
  }

  lemma TwiceShifted(n: nat)
    ensures n / 256 / 256 == n / 0x1_0000
  {
  }

  /** An entry survives serialisation exactly when both numbers fit their fields. */
  lemma MarshalRoundTrip(e: IndexEntry)
    ensures Unmarshal(Marshal(e)) == e <==> Fits(e)
  {
    if Fits(e) {
      Powers();
      ValueOfBigEndian(e.filenum, 2);
      ValueOfBigEndian(e.offset, 4);
      assert Marshal(e)[..2] == BigEndian(e.filenum, 2);
      assert Marshal(e)[2..6] == BigEndian(e.offset, 4);
    }
  }

  /** All whole entries of an index file; a torn last entry is ignored. */
  function Parse(index: seq<byte>): (es: seq<IndexEntry>)
    ensures |es| == |index| / ENTRY_SIZE
  {
    seq(|index| / ENTRY_SIZE, i requires 0 <= i < |index| / ENTRY_SIZE =>
      Unmarshal(index[ENTRY_SIZE * i..ENTRY_SIZE * i + ENTRY_SIZE]))
  }

  /** Keeping a prefix of the file keeps a prefix of the entries. */
  lemma ParsePrefix(index: seq<byte>, n: nat)
    requires n <= |index|
    ensures Parse(index[..n]) == Parse(index)[..n / ENTRY_SIZE]
  {
    forall i | 0 <= i < n / ENTRY_SIZE
      ensures Parse(index[..n])[i] == Parse(index)[i]
    {
      assert index[..n][ENTRY_SIZE * i..ENTRY_SIZE * i + ENTRY_SIZE]
          == index[ENTRY_SIZE * i..ENTRY_SIZE * i + ENTRY_SIZE];
    }
  }

  /** Dropping whole entries from the front of the file drops them from the list. */
  lemma ParseSuffix(index: seq<byte>, k: nat)
    requires ENTRY_SIZE * k <= |index|
    ensures Parse(index[ENTRY_SIZE * k..]) == Parse(index)[k..]
  {
    var rest := index[ENTRY_SIZE * k..];
    forall i | 0 <= i < |rest| / ENTRY_SIZE
      ensures Parse(rest)[i] == Parse(index)[k + i]
    {
      assert rest[ENTRY_SIZE * i..ENTRY_SIZE * i + ENTRY_SIZE]
          == index[ENTRY_SIZE * (k + i)..ENTRY_SIZE * (k + i) + ENTRY_SIZE];
    }
  }

  /** Writing more bytes after whole entries appends their entries. */
  lemma ParseConcat(a: seq<byte>, b: seq<byte>)
    requires |a| % ENTRY_SIZE == 0
    ensures Parse(a + b) == Parse(a) + Parse(b)
  {
    var k := |a| / ENTRY_SIZE;
    assert (a + b)[..|a|] == a;
    assert (a + b)[ENTRY_SIZE * k..] == b;
    ParsePrefix(a + b, |a|);
    ParseSuffix(a + b, k);
  }

  lemma ParseOne(e: IndexEntry)
    requires Fits(e)
    ensures Parse(Marshal(e)) == [e]
  {
    MarshalRoundTrip(e);
    assert Marshal(e)[0..6] == Marshal(e);
  }

  /** Where item i starts in the file of entry i: at 0 when it is the first item kept
      (the first entry is a marker, not an item) or the first item of its file. */
  function Start(es: seq<IndexEntry>, i: nat): nat
    requires 1 <= i < |es|
  {
    if i == 1 || es[i - 1].filenum != es[i].filenum then 0 else es[i - 1].offset
  }

  /** The last entry, or the start of the tail file when no item is stored. */
  function Last(es: seq<IndexEntry>): IndexEntry
    requires |es| >= 1
  {
    if |es| == 1 then IndexEntry(es[0].filenum, 0) else es[|es| - 1]
  }

  /** The end of an item in file order. */
  predicate Before(a: IndexEntry, b: IndexEntry) {
    a.filenum < b.filenum || (a.filenum == b.filenum && a.offset <= b.offset)
  }

  /** File numbers never decrease along the index, nor do offsets inside one file. */
  ghost predicate Ordered(es: seq<IndexEntry>) {
    && |es| >= 1
    && (forall i :: 1 <= i < |es| ==> es[0].filenum <= es[i].filenum)
    && (forall i, j {:trigger Before(es[i], es[j])} :: 1 <= i <= j < |es| ==> Before(es[i], es[j]))
  }

  /** Ordered depends on neighbours only. */
  lemma OrderedAppended(es: seq<IndexEntry>, e: IndexEntry)
    requires Ordered(es)
    requires Before(Last(es), e)
    ensures Ordered(es + [e])
  {
    var es' := es + [e];
    forall i, j | 1 <= i <= j < |es'| ensures Before(es'[i], es'[j]) {
      if j < |es| {
        assert Before(es[i], es[j]);
      } else if i < |es| {
        assert Before(es[i], es[|es| - 1]);
      }
    }
  }

  lemma OrderedPrefix(es: seq<IndexEntry>, n: nat)
    requires Ordered(es)
    requires 1 <= n <= |es|
    ensures Ordered(es[..n])
  {
    var es' := es[..n];
    forall i, j | 1 <= i <= j < |es'| ensures Before(es'[i], es'[j]) {
      assert Before(es[i], es[j]);
    }
  }

  lemma OrderedSuffix(es: seq<IndexEntry>, k: nat, marker: IndexEntry)
    requires Ordered(es)
    requires k < |es|
    requires forall i :: k < i < |es| ==> marker.filenum <= es[i].filenum
    ensures Ordered([marker] + es[k + 1..])
  {
    var es' := [marker] + es[k + 1..];
    forall i, j | 1 <= i <= j < |es'| ensures Before(es'[i], es'[j]) {
      assert Before(es[k + i], es[k + j]);
    }
  }
}
