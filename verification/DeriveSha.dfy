/** The order in which a list is fed to the trie hasher: the keys are the encoded indices, and they
    must come in increasing byte order. */
module DeriveSha {
  import opened Bytes
  import opened Rlp
  import opened RlpBuffer

  /** Byte strings in dictionary order. */
  predicate Less(a: seq<byte>, b: seq<byte>) {
    if b == [] then false
    else if a == [] then true
    else a[0] < b[0] || (a[0] == b[0] && Less(a[1..], b[1..]))
  }

  lemma {:induction false} LessExtended(a: seq<byte>, b: seq<byte>, c: seq<byte>, d: seq<byte>)
    requires |a| == |b| && Less(a, b)
    ensures Less(a + c, b + d)
  {
    if a[0] == b[0] {
      LessExtended(a[1..], b[1..], c, d);
      assert (a + c)[1..] == a[1..] + c && (b + d)[1..] == b[1..] + d;
    }
  }

  lemma {:induction false} LessAfter(p: seq<byte>, c: seq<byte>, d: seq<byte>)
    requires Less(c, d)
    ensures Less(p + c, p + d)
  {
    if p == [] {
      assert p + c == c && p + d == d;
    } else {
      LessAfter(p[1..], c, d);
      assert (p + c)[1..] == p[1..] + c && (p + d)[1..] == p[1..] + d;
    }
  }

  /** Numbers of the same width are ordered as their bytes are. */
  lemma {:induction false} BigEndianOrder(i: nat, j: nat, k: nat)
    requires i < j < Pow256(k)
    ensures Less(BigEndian(i, k), BigEndian(j, k))
  {
    if i / 256 < j / 256 {
      BigEndianOrder(i / 256, j / 256, k - 1);
      LessExtended(BigEndian(i / 256, k - 1), BigEndian(j / 256, k - 1), [i % 256], [j % 256]);
    } else {
      LessAfter(BigEndian(i / 256, k - 1), [i % 256], [j % 256]);
    }
  }

  /** The encoding of an integer: its shortest big-endian form as a string, empty for zero. */
  function EncodeUint(i: nat): seq<byte>
    requires i <= MAX_UINT64
  {
    EncodeStr(if i == 0 then [] else BigEndian(i, IntLen(i)))
  }

  /** Appends the encoding of an integer, one case per length. */
  method AppendUint64(b: seq<byte>, i: nat) returns (r: seq<byte>)
    requires i <= MAX_UINT64
    ensures r == b + EncodeUint(i)
  {
    hide BigEndian, IntLen, IntBytes;
    UintForm(i);
    if i == 0 {
      r := b + [0x80];
    } else if i < 128 {
      r := b + [i];
    } else {
      r := b + ([0x80 + |IntBytes(i)|] + IntBytes(i));
    }
  }

  lemma UintForm(i: nat)
    requires i <= MAX_UINT64
    ensures i == 0 ==> EncodeUint(i) == [0x80]
    ensures 0 < i < 128 ==> EncodeUint(i) == [i]
    ensures 128 <= i ==> IntLen(i) <= 8 && |IntBytes(i)| == IntLen(i)
    ensures 128 <= i ==> EncodeUint(i) == [0x80 + IntLen(i)] + BigEndian(i, IntLen(i))
    ensures IntBytes(i) == BigEndian(i, IntLen(i))
  {
    hide IntBytes;
    IntBytesMeaning(i);
    IntLen64(i);
    if i < 256 {
      IntBytesSmall(i);
      assert IntLen(i) == 1;
    }
  }

  /** The place of an index in the order of the keys: 0 comes after 127. */
  function Rank(i: nat): nat {
    if i == 0 then 0x80 else if i <= 0x7F then i else i + 1
  }

  /** Keys are in byte order exactly as their ranks are. */
  lemma KeyOrder(i: nat, j: nat)
    requires i <= MAX_UINT64 && j <= MAX_UINT64
    requires Rank(i) < Rank(j)
    ensures Less(EncodeUint(i), EncodeUint(j))
  {
    hide BigEndian, IntLen, EncodeUint, IntBytes;
    UintForm(i);
    UintForm(j);
    if 0x80 <= i {
      IntLenLeast(i);
      IntLenLeast(j);
      if IntLen(i) == IntLen(j) {
        BigEndianOrder(i, j, IntLen(i));
        LessAfter([0x80 + IntLen(i)], BigEndian(i, IntLen(i)), BigEndian(j, IntLen(j)));
      } else if IntLen(j) < IntLen(i) {
        PowMonotone(IntLen(j), IntLen(i) - 1);
      }
    }
  }

  /** One update of the hasher: a key and the value under it. */
  datatype Update = Update(key: seq<byte>, value: seq<byte>)

  /** The updates are those of the indices `fed`, in order of rank. */
  ghost predicate InOrder(list: seq<seq<byte>>, updates: seq<Update>, fed: seq<nat>) {
    && |updates| == |fed|
    && (forall k :: 0 <= k < |fed| ==>
         fed[k] < |list| <= MAX_UINT64 && updates[k] == Update(EncodeUint(fed[k]), list[fed[k]]))
    && (forall k, l :: 0 <= k < l < |fed| ==> Rank(fed[k]) < Rank(fed[l]))
  }

  lemma InOrderNext(list: seq<seq<byte>>, updates: seq<Update>, fed: seq<nat>, i: nat)
    requires InOrder(list, updates, fed)
    requires i < |list| <= MAX_UINT64
    requires forall k :: 0 <= k < |fed| ==> Rank(fed[k]) < Rank(i)
    ensures InOrder(list, updates + [Update(EncodeUint(i), list[i])], fed + [i])
  {
    hide EncodeUint;
  }

  lemma InOrderNone(list: seq<seq<byte>>)
    ensures InOrder(list, [], [])
  {
  }

  lemma InOrderKeys(list: seq<seq<byte>>, updates: seq<Update>, fed: seq<nat>)
    requires InOrder(list, updates, fed)
    ensures |updates| == |fed|
    ensures forall k :: 0 <= k < |fed| ==> fed[k] < |list| && updates[k] == Update(EncodeUint(fed[k]), list[fed[k]])
    ensures forall k, l :: 0 <= k < l < |updates| ==> Less(updates[k].key, updates[l].key)
  {
    hide EncodeUint, Less;
    forall k, l | 0 <= k < l < |updates| ensures Less(updates[k].key, updates[l].key) {
      KeyOrder(fed[k], fed[l]);
    }
  }

  /** Feeds a list to the hasher: first the indices 1 to 127, then 0, then the rest. Every index is
      fed once, with its own value, and the keys are strictly increasing. */
  method FeedList(list: seq<seq<byte>>) returns (updates: seq<Update>)
    requires |list| <= MAX_UINT64
    ensures |updates| == |list|
    ensures forall i :: 0 <= i < |list| ==> Update(EncodeUint(i), list[i]) in updates
    ensures forall k, l :: 0 <= k < l < |updates| ==> Less(updates[k].key, updates[l].key)
  {
    hide EncodeUint, Less, InOrder;
    updates := [];
    ghost var fed: seq<nat> := [];
    InOrderNone(list);
    var i := 1;
    while i < |list| && i <= 0x7F
      invariant 1 <= i <= 0x80 && (i <= |list| || i == 1)
      invariant InOrder(list, updates, fed) && |fed| == i - 1
      invariant forall k :: 0 <= k < |fed| ==> fed[k] == k + 1
    {
      InOrderNext(list, updates, fed, i);
      var key := AppendUint64([], i);
      assert [] + EncodeUint(i) == EncodeUint(i);
      updates, fed := updates + [Update(key, list[i])], fed + [i];
      i := i + 1;
    }
    ghost var low := i;
    if |list| > 0 {
      InOrderNext(list, updates, fed, 0);
      var key := AppendUint64([], 0);
      assert [] + EncodeUint(0) == EncodeUint(0);
      updates, fed := updates + [Update(key, list[0])], fed + [0];
    }
    i := 0x80;
    while i < |list|
      invariant i == 0x80 || 0x80 <= i <= |list|
      invariant InOrder(list, updates, fed) && |fed| == if |list| <= 0x80 then |list| else i
      invariant |list| > 0 ==> fed[low - 1] == 0
      invariant forall k :: 0 <= k < low - 1 ==> fed[k] == k + 1
      invariant forall k :: low <= k < |fed| ==> fed[k] == k && k >= 0x80
    {
      InOrderNext(list, updates, fed, i);
      var key := AppendUint64([], i);
      assert [] + EncodeUint(i) == EncodeUint(i);
      updates, fed := updates + [Update(key, list[i])], fed + [i];
      i := i + 1;
    }
    InOrderKeys(list, updates, fed);
    forall j | 0 <= j < |list| ensures Update(EncodeUint(j), list[j]) in updates {
      var k := if j == 0 then low - 1 else if j < low then j - 1 else j;
      assert fed[k] == j;
      assert updates[k] == Update(EncodeUint(j), list[j]);
    }
  }
}
