/** Recursive length prefix encoding (Appendix B of the Ethereum Yellow Paper): the items, their
    encoding, and the headers it is made of. */
module Rlp {
  import opened Bytes
  import opened Wrappers

  /** A byte string or a list of items. */
  datatype Item = Str(bytes: seq<byte>) | List(items: seq<Item>)

  /** The fewest bytes that hold n; one for zero. */
  function IntLen(n: nat): (k: nat)
    ensures k >= 1
  {
    if n < 256 then 1 else 1 + IntLen(n / 256)
  }

  /** The header of a value of n bytes; like the source, the tag is computed in a byte. */
  function Head(small: byte, large: byte, n: nat): (h: seq<byte>)
    ensures |h| >= 1
  {
    if n < 56 then [(small + n) % 256]
    else [(large + IntLen(n)) % 256] + BigEndian(n, IntLen(n))
  }

  function StrHead(n: nat): (h: seq<byte>)
    ensures |h| >= 1
  {
    Head(0x80, 0xB7, n)
  }

  function ListHead(n: nat): (h: seq<byte>)
    ensures |h| >= 1
  {
    Head(0xC0, 0xF7, n)
  }

  function EncodeStr(b: seq<byte>): (e: seq<byte>)
    ensures |e| >= 1
  {
    if |b| == 1 && b[0] <= 0x7F then b else StrHead(|b|) + b
  }

  function Encode(x: Item): (e: seq<byte>)
    ensures |e| >= 1
    decreases x, 1
  {
    match x
    case Str(b) => EncodeStr(b)
    case List(items) => ListHead(|EncodeAll(items)|) + EncodeAll(items)
  }

  function EncodeAll(xs: seq<Item>): seq<byte>
    decreases xs, 0
  {
    if xs == [] then [] else Encode(xs[0]) + EncodeAll(xs[1..])
  }

  lemma {:induction false} EncodeAllConcat(xs: seq<Item>, ys: seq<Item>)
    ensures EncodeAll(xs + ys) == EncodeAll(xs) + EncodeAll(ys)
  {
    if xs == [] {
      assert xs + ys == ys;
    } else {
      assert (xs + ys)[1..] == xs[1..] + ys;
      EncodeAllConcat(xs[1..], ys);
    }
  }

  lemma EncodeAllOne(x: Item)
    ensures EncodeAll([x]) == Encode(x)
  {
    assert [x][1..] == [];
  }

  /** Every item of a list, in place. */
  lemma {:induction false} EncodeAllSplit(xs: seq<Item>, i: nat)
    requires i < |xs|
    ensures EncodeAll(xs[i..]) == Encode(xs[i]) + EncodeAll(xs[i + 1..])
  {
    assert xs[i..][1..] == xs[i + 1..];
  }

  // ---------- Lengths ----------

  lemma {:induction false} PowMonotone(j: nat, k: nat)
    requires j <= k
    ensures Pow256(j) <= Pow256(k)
  {
    if j < k {
      PowMonotone(j, k - 1);
    }
  }

  lemma Pow8()
    ensures Pow256(8) == MAX_UINT64 + 1
  {
    assert Pow256(1) == 0x100;
    assert Pow256(2) == 0x1_0000;
    assert Pow256(3) == 0x100_0000;
    assert Pow256(4) == 0x1_0000_0000;
    assert Pow256(5) == 0x100_0000_0000;
    assert Pow256(6) == 0x1_0000_0000_0000;
    assert Pow256(7) == 0x100_0000_0000_0000;
  }

  /** IntLen is the least length that fits. */
  lemma {:induction false} IntLenLeast(n: nat)
    ensures n < Pow256(IntLen(n))
    ensures IntLen(n) > 1 ==> Pow256(IntLen(n) - 1) <= n
  {
    if n >= 256 {
      IntLenLeast(n / 256);
    } else {
      assert Pow256(1) == 256;
    }
  }

  /** A length between the powers is the least length. */
  lemma IntLenUnique(n: nat, k: nat)
    requires k >= 1 && n < Pow256(k)
    requires k > 1 ==> Pow256(k - 1) <= n
    ensures IntLen(n) == k
  {
    IntLenLeast(n);
    if IntLen(n) < k {
      PowMonotone(IntLen(n), k - 1);
    } else if IntLen(n) > k {
      PowMonotone(k, IntLen(n) - 1);
    }
  }

  lemma IntLen64(n: nat)
    requires n <= MAX_UINT64
    ensures IntLen(n) <= 8
  {
    Pow8();
    IntLenLeast(n);
    if IntLen(n) > 8 {
      PowMonotone(8, IntLen(n) - 1);
    }
  }

  /** The first byte of a number written in k bytes is zero exactly when k - 1 bytes are enough. */
  lemma {:induction false} LeadingByte(s: seq<byte>)
    requires s != []
    ensures s[0] == 0 <==> Value(s) < Pow256(|s| - 1)
  {
    if |s| == 1 {
      assert s[..0] == [];
    } else {
      LeadingByte(s[..|s| - 1]);
      assert Pow256(|s| - 1) == 256 * Pow256(|s| - 2);
    }
  }

  // ---------- The bytes of an encoding ----------

  /** The header of a string: one byte up to 55 bytes, else 0xB7 plus the k bytes its size needs, and the size. */
  lemma StrHeadBytes(n: nat, k: nat)
    requires n <= MAX_UINT64
    ensures n < 56 ==> StrHead(n) == [0x80 + n]
    ensures 56 <= n && 1 <= k && Pow256(k - 1) <= n < Pow256(k) ==>
              |StrHead(n)| == k + 1 && StrHead(n)[0] == 0xB7 + k && Value(StrHead(n)[1..]) == n
  {
    if 56 <= n && 1 <= k && Pow256(k - 1) <= n < Pow256(k) {
      IntLenUnique(n, k);
      IntLen64(n);
      ValueOfBigEndian(n, k);
      assert StrHead(n)[1..] == BigEndian(n, k);
    }
  }

  /** The header of a list, with 0xC0 and 0xF7. */
  lemma ListHeadBytes(n: nat, k: nat)
    requires n <= MAX_UINT64
    ensures n < 56 ==> ListHead(n) == [0xC0 + n]
    ensures 56 <= n && 1 <= k && Pow256(k - 1) <= n < Pow256(k) ==>
              |ListHead(n)| == k + 1 && ListHead(n)[0] == 0xF7 + k && Value(ListHead(n)[1..]) == n
  {
    if 56 <= n && 1 <= k && Pow256(k - 1) <= n < Pow256(k) {
      IntLenUnique(n, k);
      IntLen64(n);
      ValueOfBigEndian(n, k);
      assert ListHead(n)[1..] == BigEndian(n, k);
    }
  }

  /** e is a header of k + 1 bytes, of which the first is tag + k and the others are n without a leading zero, and
      then s. */
  ghost predicate Long(e: seq<byte>, tag: byte, n: nat, s: seq<byte>) {
    && |e| >= |s| + 2
    && var k := |e| - |s| - 1;
       e[0] == tag + k && e[1] != 0 && Value(e[1..k + 1]) == n && e[k + 1..] == s
  }

  lemma LongHead(n: nat, h: seq<byte>, tag: byte, s: seq<byte>)
    requires 56 <= n <= MAX_UINT64 && h == [tag + IntLen(n)] + BigEndian(n, IntLen(n))
    ensures Long(h + s, tag, n, s)
  {
    var k := IntLen(n);
    IntLenLeast(n);
    ValueOfBigEndian(n, k);
    LeadingByte(BigEndian(n, k));
    var e := h + s;
    assert e[1..k + 1] == BigEndian(n, k) && e[1] == BigEndian(n, k)[0];
  }

  /** The encoding of a string in bytes. */
  lemma StrBytes(b: seq<byte>)
    requires |b| <= MAX_UINT64
    ensures |b| == 1 && b[0] < 128 ==> Encode(Str(b)) == b
    ensures |b| < 56 && !(|b| == 1 && b[0] < 128) ==> Encode(Str(b)) == [0x80 + |b|] + b
    ensures 56 <= |b| ==> Long(Encode(Str(b)), 0xB7, |b|, b)
  {
    if 56 <= |b| {
      IntLen64(|b|);
      LongHead(|b|, StrHead(|b|), 0xB7, b);
    }
  }

  /** The encoding of a list in bytes, given those of its items. */
  lemma ListBytes(items: seq<Item>)
    requires |EncodeAll(items)| <= MAX_UINT64
    ensures var p := EncodeAll(items);
            && (|p| < 56 ==> Encode(List(items)) == [0xC0 + |p|] + p)
            && (56 <= |p| ==> Long(Encode(List(items)), 0xF7, |p|, p))
  {
    hide EncodeAll;
    var p := EncodeAll(items);
    if 56 <= |p| {
      IntLen64(|p|);
      LongHead(|p|, ListHead(|p|), 0xF7, p);
    }
  }

  // ---------- Headers ----------

  datatype Kind = Byte | String | ListKind

  /** A header that was read: the kind of value ahead, the length of the header and the size of
      what follows it. A single byte is its own header. */
  datatype Tag = Tag(kind: Kind, len: nat, size: nat)

  /** The size in n bytes after the tag byte, which must not be a size that has a shorter header. */
  function ReadSize(b: seq<byte>, n: nat): Option<nat>
    requires b != [] && 1 <= n
  {
    if |b| < 1 + n || b[1] == 0 || Value(b[1..1 + n]) < 56 then None else Some(Value(b[1..1 + n]))
  }

  /** The header at the start of b, where it is canonical. */
  function ReadTag(b: seq<byte>): (t: Option<Tag>)
    ensures t.Some? ==> 1 <= t.value.len <= |b|
  {
    if b == [] then None
    else if b[0] < 0x80 then Some(Tag(Byte, 1, 0))
    else if b[0] < 0xB8 then Some(Tag(String, 1, b[0] - 0x80))
    else if b[0] < 0xC0 then
      match ReadSize(b, b[0] - 0xB7)
      case None => None
      case Some(size) => Some(Tag(String, b[0] - 0xB6, size))
    else if b[0] < 0xF8 then Some(Tag(ListKind, 1, b[0] - 0xC0))
    else
      match ReadSize(b, b[0] - 0xF7)
      case None => None
      case Some(size) => Some(Tag(ListKind, b[0] - 0xF6, size))
  }

  /** The bytes of a header. */
  function TagBytes(t: Tag): seq<byte>
    requires t.kind != Byte
  {
    if t.kind == String then StrHead(t.size) else ListHead(t.size)
  }

  /** A size read after a tag is written back the same way. */
  lemma ReadSizeSound(b: seq<byte>, n: nat)
    requires b != [] && 1 <= n <= 8 && ReadSize(b, n).Some?
    ensures var size := ReadSize(b, n).value;
            56 <= size <= MAX_UINT64 && IntLen(size) == n && BigEndian(size, n) == b[1..1 + n]
  {
    var s := b[1..1 + n];
    ValueBound(s);
    LeadingByte(s);
    Pow8();
    PowMonotone(n, 8);
    IntLenUnique(Value(s), n);
    BigEndianOfValue(s);
  }

  /** A header that is read is the one the encoder writes for that size. */
  lemma ReadTagSound(b: seq<byte>)
    requires ReadTag(b).Some?
    ensures var t := ReadTag(b).value;
            && t.size <= MAX_UINT64
            && (t.kind == Byte ==> t.len == 1 && t.size == 0 && b[0] < 0x80)
            && (t.kind != Byte ==> b[..t.len] == TagBytes(t))
  {
    hide Value, BigEndian, IntLen;
    if b[0] < 0x80 {
    } else if b[0] < 0xB8 {
      assert b[..1] == [b[0]];
    } else if b[0] < 0xC0 {
      ReadSizeSound(b, b[0] - 0xB7);
      assert b[..b[0] - 0xB6] == [b[0]] + b[1..b[0] - 0xB6];
    } else if b[0] < 0xF8 {
      assert b[..1] == [b[0]];
    } else {
      ReadSizeSound(b, b[0] - 0xF7);
      assert b[..b[0] - 0xF6] == [b[0]] + b[1..b[0] - 0xF6];
    }
  }

  lemma FewBytes(n: nat)
    ensures IntLen(n) == 1 ==> Pow256(IntLen(n) - 1) == 1
  {
  }

  /** A size the encoder writes is read back. */
  lemma ReadSizeComplete(tag: byte, n: nat, rest: seq<byte>)
    requires 56 <= n <= MAX_UINT64
    ensures IntLen(n) <= 8
    ensures ReadSize([tag] + BigEndian(n, IntLen(n)) + rest, IntLen(n)) == Some(n)
  {
    hide BigEndian, Value, IntLen, Pow256;
    IntLen64(n);
    IntLenLeast(n);
    ValueOfBigEndian(n, IntLen(n));
    var s := BigEndian(n, IntLen(n));
    LeadingByte(s);
    FewBytes(n);
    var b := [tag] + s + rest;
    assert b[1..1 + IntLen(n)] == s;
    assert b[1] == s[0];
  }

  /** A header the encoder writes is read back. */
  lemma ReadTagComplete(kind: Kind, n: nat, rest: seq<byte>)
    requires kind != Byte && n <= MAX_UINT64
    ensures var t := Tag(kind, |TagBytes(Tag(kind, 0, n))|, n);
            ReadTag(TagBytes(t) + rest) == Some(t)
  {
    hide Value, BigEndian, IntLen, ReadSize;
    var t := Tag(kind, |TagBytes(Tag(kind, 0, n))|, n);
    if n >= 56 {
      if kind == String {
        ReadSizeComplete((0xB7 + IntLen(n)) % 256, n, rest);
      } else {
        ReadSizeComplete((0xF7 + IntLen(n)) % 256, n, rest);
      }
      assert TagBytes(t)[0] == (TagBytes(t) + rest)[0];
    }
  }
}
