/** Sparse bitset compression: the non-zero bytes of the data, preceded by the compressed bitset that
    says where they are. */
module Bitset {
  import opened Wrappers

  type byte = bv8

  datatype Error = MissingData | UnreferencedData | ExceededTarget | ZeroContent

  // ---------- Bits ----------

  /** The byte with only bit k set, the most significant first. */
  function Mask(k: nat): byte
    requires k < 8
  {
    if k == 0 then 0x80 else if k == 1 then 0x40 else if k == 2 then 0x20 else if k == 3 then 0x10
    else if k == 4 then 0x08 else if k == 5 then 0x04 else if k == 6 then 0x02 else 0x01
  }

  predicate BitOf(b: byte, k: nat)
    requires k < 8
  {
    b & Mask(k) != 0
  }

  /** Bit i of a bitset. */
  predicate BitAt(bs: seq<byte>, i: nat)
    requires i < 8 * |bs|
  {
    BitOf(bs[i / 8], i % 8)
  }

  lemma SameByte(a: byte, b: byte)
    requires forall k :: 0 <= k < 8 ==> BitOf(a, k) == BitOf(b, k)
    ensures a == b
  {
    assert BitOf(a, 0) == BitOf(b, 0) && BitOf(a, 1) == BitOf(b, 1);
    assert BitOf(a, 2) == BitOf(b, 2) && BitOf(a, 3) == BitOf(b, 3);
    assert BitOf(a, 4) == BitOf(b, 4) && BitOf(a, 5) == BitOf(b, 5);
    assert BitOf(a, 6) == BitOf(b, 6) && BitOf(a, 7) == BitOf(b, 7);
  }

  /** A bitset is its bits. */
  lemma SameBits(xs: seq<byte>, bs: seq<byte>)
    requires |xs| == |bs|
    requires forall i :: 0 <= i < 8 * |xs| ==> BitAt(xs, i) == BitAt(bs, i)
    ensures xs == bs
  {
    hide BitOf;
    forall j | 0 <= j < |xs| ensures xs[j] == bs[j] {
      forall k | 0 <= k < 8 ensures BitOf(xs[j], k) == BitOf(bs[j], k) {
        assert BitAt(xs, 8 * j + k) == BitAt(bs, 8 * j + k);
        assert (8 * j + k) / 8 == j && (8 * j + k) % 8 == k;
      }
      SameByte(xs[j], bs[j]);
    }
  }

  lemma MaskBits(j: nat, k: nat)
    requires j < 8 && k < 8
    ensures Mask(k) & Mask(j) == if j == k then Mask(k) else 0
    ensures Mask(k) != 0
  {
  }

  /** Setting a bit sets it and no other. */
  lemma SetBit(b: byte, k: nat, j: nat)
    requires j < 8 && k < 8
    ensures BitOf(b | Mask(k), j) <==> j == k || BitOf(b, j)
  {
    MaskBits(j, k);
    OrAnd(b, Mask(k), Mask(j));
  }

  lemma OrAnd(b: byte, m: byte, n: byte)
    ensures (b | m) & n == (b & n) | (m & n)
  {
  }

  lemma ZeroBits(k: nat)
    requires k < 8
    ensures !BitOf(0, k)
  {
  }

  // ---------- The compressed form ----------

  ghost predicate AllZero(s: seq<byte>) {
    forall i :: 0 <= i < |s| ==> s[i] == 0
  }

  /** The non-zero bytes of s, in order. */
  function NonZero(s: seq<byte>): (r: seq<byte>)
    ensures |r| <= |s|
  {
    if s == [] then [] else
      NonZero(s[..|s| - 1]) + if s[|s| - 1] != 0 then [s[|s| - 1]] else []
  }

  lemma {:induction false} NonZeroNone(s: seq<byte>)
    ensures NonZero(s) == [] <==> AllZero(s)
  {
    if s != [] {
      NonZeroNone(s[..|s| - 1]);
      assert AllZero(s) <==> AllZero(s[..|s| - 1]) && s[|s| - 1] == 0;
    }
  }

  lemma {:induction false} NonZeroPrefix(s: seq<byte>, i: nat)
    requires i <= |s|
    ensures NonZero(s[..i]) <= NonZero(s)
    decreases |s|
  {
    if i == |s| {
      assert s[..i] == s;
    } else {
      NonZeroPrefix(s[..|s| - 1], i);
      assert s[..|s| - 1][..i] == s[..i];
    }
  }

  /** The next non-zero byte is where the count of those before says. */
  lemma NonZeroNext(s: seq<byte>, i: nat)
    requires i < |s|
    ensures s[i] == 0 ==> NonZero(s[..i + 1]) == NonZero(s[..i])
    ensures s[i] != 0 ==> NonZero(s[..i + 1]) == NonZero(s[..i]) + [s[i]]
    ensures s[i] != 0 ==> |NonZero(s[..i])| < |NonZero(s)| && NonZero(s)[|NonZero(s[..i])|] == s[i]
  {
    assert s[..i + 1][..i] == s[..i];
    NonZeroPrefix(s, i + 1);
  }

  /** The bitset after the first i bytes were looked at. */
  function BitsUpTo(data: seq<byte>, i: nat): (bs: seq<byte>)
    requires i <= |data|
    ensures |bs| == (|data| + 7) / 8
  {
    if i == 0 then seq((|data| + 7) / 8, _ => 0)
    else
      var p := BitsUpTo(data, i - 1);
      if data[i - 1] != 0 then p[(i - 1) / 8 := p[(i - 1) / 8] | Mask((i - 1) % 8)] else p
  }

  function Bits(data: seq<byte>): (bs: seq<byte>)
    ensures |bs| == (|data| + 7) / 8
  {
    BitsUpTo(data, |data|)
  }

  lemma {:induction false} BitsUpToMeaning(data: seq<byte>, i: nat, j: nat)
    requires i <= |data| && j < 8 * ((|data| + 7) / 8)
    ensures BitAt(BitsUpTo(data, i), j) <==> j < i && data[j] != 0
  {
    hide BitOf, Mask;
    if i == 0 {
      ZeroBits(j % 8);
    } else {
      BitsUpToMeaning(data, i - 1, j);
      var p := BitsUpTo(data, i - 1);
      if data[i - 1] != 0 && (i - 1) / 8 == j / 8 {
        SetBit(p[j / 8], (i - 1) % 8, j % 8);
        assert (i - 1) % 8 == j % 8 <==> i - 1 == j;
      }
    }
  }

  /** Bit j of the bitset says whether byte j is there and not zero. */
  lemma BitsMeaning(data: seq<byte>)
    ensures forall j :: 0 <= j < 8 * |Bits(data)| ==> (BitAt(Bits(data), j) <==> j < |data| && data[j] != 0)
  {
    hide BitsUpTo, BitAt;
    forall j | 0 <= j < 8 * |Bits(data)| ensures BitAt(Bits(data), j) <==> j < |data| && data[j] != 0 {
      BitsUpToMeaning(data, |data|, j);
    }
  }

  /** Byte j of the bitset stands for the eight bytes from 8 * j on, its most significant bit for the first. */
  lemma BitsBytes(data: seq<byte>, j: nat)
    requires j < (|data| + 7) / 8
    ensures Bits(data)[j] & 0x80 != 0 <==> data[8 * j] != 0
    ensures Bits(data)[j] & 0x40 != 0 <==> 8 * j + 1 < |data| && data[8 * j + 1] != 0
    ensures Bits(data)[j] & 0x20 != 0 <==> 8 * j + 2 < |data| && data[8 * j + 2] != 0
    ensures Bits(data)[j] & 0x10 != 0 <==> 8 * j + 3 < |data| && data[8 * j + 3] != 0
    ensures Bits(data)[j] & 0x08 != 0 <==> 8 * j + 4 < |data| && data[8 * j + 4] != 0
    ensures Bits(data)[j] & 0x04 != 0 <==> 8 * j + 5 < |data| && data[8 * j + 5] != 0
    ensures Bits(data)[j] & 0x02 != 0 <==> 8 * j + 6 < |data| && data[8 * j + 6] != 0
    ensures Bits(data)[j] & 0x01 != 0 <==> 8 * j + 7 < |data| && data[8 * j + 7] != 0
  {
    hide Bits;
    BitsMeaning(data);
    forall k | 0 <= k < 8 ensures BitOf(Bits(data)[j], k) <==> 8 * j + k < |data| && data[8 * j + k] != 0 {
      assert (8 * j + k) / 8 == j && (8 * j + k) % 8 == k;
      assert BitAt(Bits(data), 8 * j + k) <==> 8 * j + k < |data| && data[8 * j + k] != 0;
    }
    var b := Bits(data)[j];
    assert BitOf(b, 0) == (b & 0x80 != 0) && BitOf(b, 1) == (b & 0x40 != 0);
    assert BitOf(b, 2) == (b & 0x20 != 0) && BitOf(b, 3) == (b & 0x10 != 0);
    assert BitOf(b, 4) == (b & 0x08 != 0) && BitOf(b, 5) == (b & 0x04 != 0);
    assert BitOf(b, 6) == (b & 0x02 != 0) && BitOf(b, 7) == (b & 0x01 != 0);
  }

  /** A bitset with the bits of the data is the data's bitset. */
  lemma BitsUnique(data: seq<byte>, bs: seq<byte>)
    requires |bs| == (|data| + 7) / 8
    requires forall j :: 0 <= j < 8 * |bs| ==> (BitAt(bs, j) <==> j < |data| && data[j] != 0)
    ensures bs == Bits(data)
  {
    hide BitAt, Bits;
    BitsMeaning(data);
    SameBits(bs, Bits(data));
  }

  lemma BitsZero(data: seq<byte>)
    ensures AllZero(Bits(data)) <==> AllZero(data)
  {
    hide Bits, BitOf;
    BitsMeaning(data);
    if AllZero(Bits(data)) {
      forall i | 0 <= i < |data| ensures data[i] == 0 {
        ZeroBits(i % 8);
        assert !BitAt(Bits(data), i);
      }
    }
    if AllZero(data) {
      var zero := seq(|Bits(data)|, _ => 0);
      forall j | 0 <= j < 8 * |zero| ensures !BitAt(zero, j) {
        ZeroBits(j % 8);
      }
      BitsUnique(data, zero);
    }
  }

  /** The compressed form. */
  function Encoded(data: seq<byte>): seq<byte>
    decreases |data|
  {
    if |data| == 0 then []
    else if |data| == 1 then if data[0] == 0 then [] else data
    else if NonZero(data) == [] then []
    else Encoded(Bits(data)) + NonZero(data)
  }

  lemma EncodedZero(data: seq<byte>)
    ensures Encoded(data) == [] <==> AllZero(data)
  {
    NonZeroNone(data);
  }

  /** A single byte is kept if it is not zero; more are their compressed bitset and then their non-zero bytes. */
  lemma EncodedForm(data: seq<byte>)
    ensures |data| == 1 && data[0] != 0 ==> Encoded(data) == data
    ensures |data| >= 2 && !AllZero(data) ==>
              |Encoded(data)| == |Encoded(Bits(data))| + |NonZero(data)|
              && Encoded(Bits(data)) <= Encoded(data) && Encoded(data)[|Encoded(Bits(data))|..] == NonZero(data)
  {
    NonZeroNone(data);
  }

  /** Data of one length that is not all zero has compressed forms of which none starts another. */
  lemma {:induction false} EncodedPrefixFree(a: seq<byte>, b: seq<byte>, s: seq<byte>)
    requires |a| == |b| && !AllZero(a) && !AllZero(b)
    requires Encoded(a) <= s && Encoded(b) <= s
    ensures a == b
    decreases |a|
  {
    hide Bits, BitAt, NonZero;
    NonZeroNone(a);
    NonZeroNone(b);
    if |a| == 1 {
      assert a[0] == s[0] == b[0];
    } else {
      BitsZero(a);
      BitsZero(b);
      EncodedPrefixFree(Bits(a), Bits(b), s);
      var k := |Encoded(Bits(a))|;
      assert NonZero(a) <= s[k..] && NonZero(b) <= s[k..];
      BitsMeaning(a);
      BitsMeaning(b);
      forall i | 0 <= i < |a| ensures a[i] != 0 <==> b[i] != 0 {
        assert BitAt(Bits(a), i) == BitAt(Bits(b), i);
      }
      SameSupport(a, b);
      assert NonZero(a) == NonZero(b);
    }
  }

  lemma {:induction false} SameSupport(a: seq<byte>, b: seq<byte>)
    requires |a| == |b|
    requires forall i :: 0 <= i < |a| ==> (a[i] != 0 <==> b[i] != 0)
    ensures |NonZero(a)| == |NonZero(b)|
    ensures NonZero(a) == NonZero(b) ==> a == b
  {
    hide NonZero;
    if a != [] {
      var n := |a| - 1;
      var a', b' := a[..n], b[..n];
      SameSupport(a', b');
      NonZeroSnoc(a);
      NonZeroSnoc(b);
      if NonZero(a) == NonZero(b) {
        if a[n] != 0 {
          SnocInjective(NonZero(a'), a[n], NonZero(b'), b[n]);
        } else {
          assert a[n] == b[n] == 0;
          assert NonZero(a') == NonZero(a) && NonZero(b') == NonZero(b);
        }
        assert a' == b' && a[n] == b[n];
        assert a == a' + [a[n]] && b == b' + [b[n]];
      }
    }
  }

  lemma NonZeroSnoc(s: seq<byte>)
    requires s != []
    ensures NonZero(s) == NonZero(s[..|s| - 1]) + if s[|s| - 1] != 0 then [s[|s| - 1]] else []
  {
  }

  lemma SnocInjective(p: seq<byte>, x: byte, q: seq<byte>, y: byte)
    requires p + [x] == q + [y]
    ensures p == q && x == y
  {
    assert (p + [x])[..|p|] == p && (q + [y])[..|q|] == q;
    assert (p + [x])[|p|] == x && (q + [y])[|q|] == y;
  }

  // ---------- Compression ----------

  /** Compresses recursively, collecting the bitset and the non-zero bytes in one pass. */
  method BitsetEncodeBytes(data: seq<byte>) returns (out: seq<byte>)
    ensures out == Encoded(data)
    decreases |data|
  {
    if |data| == 0 {
      return [];
    }
    if |data| == 1 {
      return if data[0] == 0 then [] else data;
    }
    var nonZeroBitset, nonZeroBytes := Collect(data);
    EncodedSplit(data);
    if |nonZeroBytes| == 0 {
      return [];
    }
    var bits := BitsetEncodeBytes(nonZeroBitset);
    return bits + nonZeroBytes;
  }

  lemma EncodedSplit(data: seq<byte>)
    requires |data| >= 2
    ensures Encoded(data) == if NonZero(data) == [] then [] else Encoded(Bits(data)) + NonZero(data)
  {
  }

  /** The bitset and the non-zero bytes, in one pass. */
  method Collect(data: seq<byte>) returns (bits: seq<byte>, nonZeroBytes: seq<byte>)
    ensures bits == Bits(data) && nonZeroBytes == NonZero(data)
  {
    hide Mask;
    var nonZeroBitset := new byte[(|data| + 7) / 8](_ => 0);
    nonZeroBytes := [];
    assert nonZeroBitset[..] == BitsUpTo(data, 0);
    for i := 0 to |data|
      invariant nonZeroBitset[..] == BitsUpTo(data, i)
      invariant nonZeroBytes == NonZero(data[..i])
    {
      NonZeroNext(data, i);
      if data[i] != 0 {
        nonZeroBytes := nonZeroBytes + [data[i]];
        nonZeroBitset[i / 8] := nonZeroBitset[i / 8] | Mask(i % 8);
      }
    }
    assert data[..|data|] == data;
    bits := nonZeroBitset[..];
  }

  /** The compressed form where it is shorter, else the data itself. */
  method CompressBytes(data: seq<byte>) returns (out: seq<byte>)
    ensures |Encoded(data)| < |data| ==> out == Encoded(data)
    ensures |Encoded(data)| >= |data| ==> out == data
    ensures |out| <= |data|
    ensures (forall i :: 0 <= i < |data| ==> data[i] == 0) ==> out == []
  {
    EncodedZero(data);
    out := BitsetEncodeBytes(data);
    if |out| < |data| {
      return;
    }
    out := data;
  }

  // ---------- Decompression ----------

  /** The compressed form of w is at the start of the input; for data that is all zero, that is an
      empty input. */
  ghost predicate Starts(w: seq<byte>, data: seq<byte>, target: nat) {
    |w| == target && Encoded(w) <= data && (AllZero(w) ==> data == [])
  }

  /** Decompresses a block of known size from the start of the input, and says how much of the input
      it used. What it used is the compressed form of what it returns; and if the input starts with
      the compressed form of a block w, it returns that. */
  method BitsetDecodePartialBytes(data: seq<byte>, target: nat, ghost w: Option<seq<byte>>)
    returns (res: Result<(seq<byte>, nat), Error>)
    requires w.Some? ==> Starts(w.value, data, target)
    ensures res.Ok? ==> |res.value.0| == target && res.value.1 <= |data| && data[..res.value.1] == Encoded(res.value.0)
    ensures w.Some? ==> res == Ok((w.value, |Encoded(w.value)|))
    decreases target
  {
    hide Bits, BitAt, NonZero;
    if target == 0 {
      return Ok(([], 0));
    }
    if |data| == 0 {
      ghost var zero := seq(target, _ => 0);
      EncodedZero(zero);
      if w.Some? {
        EncodedZero(w.value);
        assert w.value == zero;
      }
      return Ok((seq(target, _ => 0), 0));
    }
    if target == 1 {
      if w.Some? {
        EncodedZero(w.value);
        assert w.value == [data[0]];
      }
      if data[0] != 0 {
        return Ok(([data[0]], 1));
      }
      return Ok(([0], 0));
    }
    ghost var wb := if w.Some? then Some(Bits(w.value)) else None;
    if w.Some? {
      NonZeroNone(w.value);
      BitsZero(w.value);
    }
    var r := BitsetDecodePartialBytes(data, (target + 7) / 8, wb);
    if r.Err? {
      return Err(r.error);
    }
    res := Distribute(data, target, r.value.0, r.value.1, w);
  }

  /** Puts the non-zero bytes after position start where the bitset says. */
  method Distribute(data: seq<byte>, target: nat, bitset: seq<byte>, start: nat, ghost w: Option<seq<byte>>)
    returns (res: Result<(seq<byte>, nat), Error>)
    requires 2 <= target && |bitset| == (target + 7) / 8
    requires start <= |data| && data[..start] == Encoded(bitset)
    requires w.Some? ==> Starts(w.value, data, target) && data != [] && bitset == Bits(w.value)
    ensures res.Ok? ==> |res.value.0| == target && res.value.1 <= |data| && data[..res.value.1] == Encoded(res.value.0)
    ensures w.Some? ==> res == Ok((w.value, |Encoded(w.value)|))
  {
    hide Bits, BitAt, NonZero, Encoded;
    var decomp := new byte[target](_ => 0);
    var ptr := start;
    if w.Some? {
      BitsMeaning(w.value);
      EncodedParts(w.value, data, start);
    }
    NonZeroEmpty();
    for i := 0 to 8 * |bitset|
      invariant start <= ptr <= |data|
      invariant forall j :: 0 <= j < i ==> (BitAt(bitset, j) <==> j < target && decomp[j] != 0)
      invariant forall j :: i <= j < target ==> decomp[j] == 0
      invariant data[start..ptr] == NonZero(decomp[..if i < target then i else target])
      invariant w.Some? ==> decomp[..if i < target then i else target] == w.value[..if i < target then i else target]
      invariant w.Some? ==> ptr - start == |NonZero(w.value[..if i < target then i else target])|
    {
      ghost var before := decomp[..];
      if i < target {
        NonZeroNext(before, i);
        if w.Some? {
          NonZeroNext(w.value, i);
        }
      }
      if BitAt(bitset, i) {
        if ptr >= |data| {
          return Err(MissingData);
        }
        if i >= target {
          return Err(ExceededTarget);
        }
        if data[ptr] == 0 {
          return Err(ZeroContent);
        }
        decomp[i] := data[ptr];
        NonZeroNext(decomp[..], i);
        assert decomp[..][..i] == before[..i];
        assert data[start..ptr + 1] == data[start..ptr] + [data[ptr]];
        ptr := ptr + 1;
      }
    }
    assert decomp[..target] == decomp[..];
    Rebuilt(decomp[..], bitset, data, start, ptr);
    if w.Some? {
      assert w.value[..target] == w.value;
    }
    return Ok((decomp[..], ptr));
  }

  lemma NonZeroEmpty()
    ensures NonZero([]) == []
  {
  }

  /** Where the two parts of a compressed form lie. */
  lemma EncodedParts(w: seq<byte>, data: seq<byte>, start: nat)
    requires Starts(w, data, |w|) && |w| >= 2 && data != []
    requires start <= |data| && data[..start] == Encoded(Bits(w))
    ensures start == |Encoded(Bits(w))| && NonZero(w) <= data[start..]
    ensures |Encoded(w)| == start + |NonZero(w)|
  {
    hide Bits, NonZero;
    NonZeroNone(w);
    assert Encoded(w) == Encoded(Bits(w)) + NonZero(w);
  }

  /** The input used is the compressed form of what was rebuilt. */
  lemma Rebuilt(out: seq<byte>, bitset: seq<byte>, data: seq<byte>, start: nat, ptr: nat)
    requires |out| >= 2 && |bitset| == (|out| + 7) / 8
    requires start <= ptr <= |data| && data[..start] == Encoded(bitset) && data[start..ptr] == NonZero(out)
    requires forall j :: 0 <= j < 8 * |bitset| ==> (BitAt(bitset, j) <==> j < |out| && out[j] != 0)
    ensures data[..ptr] == Encoded(out)
  {
    hide Bits, BitAt, NonZero;
    BitsUnique(out, bitset);
    NonZeroNone(out);
    BitsZero(out);
    EncodedZero(bitset);
    assert data[..ptr] == data[..start] + data[start..ptr];
  }

  method BitsetDecodeBytes(data: seq<byte>, target: nat, ghost w: Option<seq<byte>>)
    returns (res: Result<seq<byte>, Error>)
    requires w.Some? ==> Starts(w.value, data, target)
    ensures res.Ok? ==> |res.value| == target && data == Encoded(res.value)
    ensures w.Some? && Encoded(w.value) == data ==> res == Ok(w.value)
  {
    hide Encoded;
    var r := BitsetDecodePartialBytes(data, target, w);
    if r.Err? {
      return Err(r.error);
    }
    if r.value.1 != |data| {
      return Err(UnreferencedData);
    }
    assert data[..|data|] == data;
    return Ok(r.value.0);
  }

  /** Decompresses data to a known size. Input of that size is taken as it is; shorter input is
      accepted exactly when it is the compressed form of some block of that size, and gives that
      block. */
  method DecompressBytes(data: seq<byte>, target: nat) returns (res: Result<seq<byte>, Error>)
    ensures |data| > target ==> res == Err(ExceededTarget)
    ensures |data| == target ==> res == Ok(data)
    ensures |data| < target ==> forall d :: res == Ok(d) <==> |d| == target && Encoded(d) == data
  {
    hide Encoded;
    if |data| > target {
      return Err(ExceededTarget);
    }
    if |data| == target {
      return Ok(data);
    }
    ghost var w := BlockOf(data, target);
    res := BitsetDecodeBytes(data, target, w);
  }

  /** The block of a given size that compresses to data, if there is one. */
  lemma BlockOf(data: seq<byte>, target: nat) returns (w: Option<seq<byte>>)
    ensures w.Some? ==> Starts(w.value, data, target) && Encoded(w.value) == data
    ensures forall d :: |d| == target && Encoded(d) == data ==> w == Some(d)
  {
    hide Encoded;
    if d :| |d| == target && Encoded(d) == data {
      EncodedZero(d);
      w := Some(d);
      forall e | |e| == target && Encoded(e) == data ensures e == d {
        EncodedZero(e);
        if AllZero(d) {
          assert e == d;
        } else {
          EncodedPrefixFree(d, e, data);
        }
      }
    } else {
      w := None;
    }
  }

  /** Decompressing what was compressed gives it back. */
  method RoundTrip(data: seq<byte>) returns (res: Result<seq<byte>, Error>)
    ensures res == Ok(data)
  {
    hide Encoded;
    var c := CompressBytes(data);
    res := DecompressBytes(c, |data|);
  }
}
