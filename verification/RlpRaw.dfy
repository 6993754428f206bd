/** Splitting encoded values off a byte slice, without decoding them. */
module RlpRaw {
  import opened Bytes
  import opened Rlp
  import opened Wrappers

  datatype Error = UnexpectedEOF | CanonSize | ValueTooLarge

  /** The header found by readKind: a single byte has no tag and is its own content. */
  datatype RawKind = RawKind(kind: Kind, tagsize: nat, contentsize: nat)

  /** A size of slen bytes (1 to 8) at the start of b. */
  function ReadSizeBytes(b: seq<byte>, slen: nat): Result<nat, Error>
    requires 1 <= slen <= 8
  {
    if slen > |b| then Err(UnexpectedEOF) else
      var s := Value(b[..slen]);
      if s < 56 || b[0] == 0 then Err(CanonSize) else Ok(s)
  }

  function LongKind(buf: seq<byte>, kind: Kind, slen: nat): Result<RawKind, Error>
    requires buf != [] && 1 <= slen <= 8
  {
    match ReadSizeBytes(buf[1..], slen)
    case Err(e) => Err(e)
    case Ok(size) => Ok(RawKind(kind, slen + 1, size))
  }

  /** The header at the start of buf, before its content is looked for. */
  function RawHeader(buf: seq<byte>): (r: Result<RawKind, Error>)
    requires buf != []
    ensures r.Ok? ==> r.value.tagsize <= |buf|
  {
    var b := buf[0];
    if b < 0x80 then Ok(RawKind(Byte, 0, 1))
    else if b < 0xB8 then
      if b == 0x81 && |buf| > 1 && buf[1] < 128 then Err(CanonSize)
      else Ok(RawKind(String, 1, b - 0x80))
    else if b < 0xC0 then LongKind(buf, String, b - 0xB7)
    else if b < 0xF8 then Ok(RawKind(ListKind, 1, b - 0xC0))
    else LongKind(buf, ListKind, b - 0xF7)
  }

  function ReadKind(buf: seq<byte>): (r: Result<RawKind, Error>)
    ensures r.Ok? ==> 1 <= r.value.tagsize + r.value.contentsize <= |buf|
  {
    if buf == [] then Err(UnexpectedEOF) else
      match RawHeader(buf)
      case Err(e) => Err(e)
      case Ok(k) => if k.contentsize > |buf| - k.tagsize then Err(ValueTooLarge) else Ok(k)
  }

  /** The first value of b: its kind and content, and the bytes after it. */
  datatype Parts = Parts(kind: Kind, content: seq<byte>, rest: seq<byte>)

  function Split(b: seq<byte>): (r: Result<Parts, Error>)
    ensures r.Ok? ==> |r.value.rest| < |b| && |r.value.content| <= |b|
    ensures r.Ok? && r.value.kind == ListKind ==> |r.value.content| < |b|
  {
    match ReadKind(b)
    case Err(e) => Err(e)
    case Ok(k) => Ok(Parts(k.kind, b[k.tagsize..k.tagsize + k.contentsize], b[k.tagsize + k.contentsize..]))
  }

  /** readKind accepts a header exactly when it is canonical, its content is there, and it is not a
      one-byte string that should have been a single byte. */
  lemma ReadKindMeaning(b: seq<byte>)
    ensures ReadKind(b).Ok? <==>
      && ReadTag(b).Some?
      && ReadTag(b).value.len + ReadTag(b).value.size <= |b|
      && !(b[0] == 0x81 && b[1] < 128)
    ensures ReadKind(b).Ok? ==>
      var k, t := ReadKind(b).value, ReadTag(b).value;
      && k.kind == t.kind
      && k.contentsize == (if t.kind == Byte then 1 else t.size)
      && k.tagsize == (if t.kind == Byte then 0 else t.len)
  {
    hide Value;
    if |b| > 1 && 0xB8 <= b[0] < 0xC0 {
      LongMeaning(b, b[0] - 0xB7);
    } else if |b| > 1 && 0xF8 <= b[0] {
      LongMeaning(b, b[0] - 0xF7);
    }
  }

  lemma LongMeaning(b: seq<byte>, n: nat)
    requires |b| > 1 && 1 <= n <= 8
    ensures ReadSizeBytes(b[1..], n).Ok? <==> ReadSize(b, n).Some?
    ensures ReadSizeBytes(b[1..], n).Ok? ==> ReadSizeBytes(b[1..], n).value == ReadSize(b, n).value
  {
    if n < |b| {
      assert b[1..][..n] == b[1..1 + n];
    }
  }

  /** What Split splits is the shortest header, the content and the rest. */
  lemma SplitSound(b: seq<byte>)
    requires Split(b).Ok?
    ensures var p := Split(b).value;
            && |p.content| <= MAX_UINT64
            && (p.kind != ListKind ==> b == EncodeStr(p.content) + p.rest)
            && (p.kind == ListKind ==> b == ListHead(|p.content|) + p.content + p.rest)
  {
    hide ReadTag, ReadKind, Head;
    ReadKindMeaning(b);
    ReadTagSound(b);
    var p, t := Split(b).value, ReadTag(b).value;
    if t.kind == Byte {
      assert p.content == b[..1] && b == b[..1] + b[1..];
    } else {
      assert b == b[..t.len] + b[t.len..t.len + t.size] + b[t.len + t.size..];
      if t.kind == String && |p.content| == 1 {
        StrHeadOne();
        assert b[..t.len] == [0x81] && b[0] == 0x81;
      }
    }
  }

  lemma StrHeadOne()
    ensures StrHead(1) == [0x81]
  {
  }

  /** An encoded string or list is split off whatever follows it. */
  lemma SplitStr(s: seq<byte>, rest: seq<byte>)
    requires |s| <= MAX_UINT64
    ensures Split(EncodeStr(s) + rest).Ok?
    ensures var p := Split(EncodeStr(s) + rest).value;
            p.kind != ListKind && p.content == s && p.rest == rest
  {
    hide ReadTag, ReadKind, Head;
    var b := EncodeStr(s) + rest;
    ReadKindMeaning(b);
    if |s| == 1 && s[0] <= 0x7F {
      ByteTag(b);
      assert b[0..1] == s && b[1..] == rest;
    } else {
      ReadTagComplete(String, |s|, s + rest);
      assert b == StrHead(|s|) + (s + rest);
      var n := |StrHead(|s|)|;
      if b[0] == 0x81 {
        TagOfOne(b);
        assert |s| == 1 && n == 1 && b[1] == s[0];
      }
      assert b[n..n + |s|] == s && b[n + |s|..] == rest;
    }
  }

  lemma ByteTag(b: seq<byte>)
    requires b != [] && b[0] <= 0x7F
    ensures ReadTag(b) == Some(Tag(Byte, 1, 0))
  {
  }

  lemma TagOfOne(b: seq<byte>)
    requires b != [] && b[0] == 0x81
    ensures ReadTag(b) == Some(Tag(String, 1, 1))
  {
  }

  lemma SplitList(payload: seq<byte>, rest: seq<byte>)
    requires |payload| <= MAX_UINT64
    ensures Split(ListHead(|payload|) + payload + rest) == Ok(Parts(ListKind, payload, rest))
  {
    hide ReadTag, ReadKind, Head;
    var b := ListHead(|payload|) + payload + rest;
    ReadKindMeaning(b);
    ReadTagComplete(ListKind, |payload|, payload + rest);
    assert b == ListHead(|payload|) + (payload + rest);
    var n := |ListHead(|payload|)|;
    if b[0] == 0x81 {
      TagOfOne(b);
    }
    assert b[n..n + |payload|] == payload && b[n + |payload|..] == rest;
  }

  // ---------- Splitting down to the leaves ----------

  /** The item at the start of b and what follows it, found by splitting over and over. */
  function SplitTree(b: seq<byte>): (r: Option<(Item, seq<byte>)>)
    ensures r.Some? ==> |r.value.1| < |b|
    decreases |b|, 0
  {
    match Split(b)
    case Err(_) => None
    case Ok(p) =>
      if p.kind != ListKind then Some((Str(p.content), p.rest)) else
        match SplitTrees(p.content)
        case None => None
        case Some(items) => Some((List(items), p.rest))
  }

  /** All items of b. */
  function SplitTrees(b: seq<byte>): Option<seq<Item>>
    decreases |b|, 1
  {
    if b == [] then Some([]) else
      match SplitTree(b)
      case None => None
      case Some((x, rest)) =>
        match SplitTrees(rest)
        case None => None
        case Some(xs) => Some([x] + xs)
  }

  lemma {:induction false} SplitTreeSound(b: seq<byte>)
    requires SplitTree(b).Some?
    ensures var (x, rest) := SplitTree(b).value; b == Encode(x) + rest && |Encode(x)| <= |b|
    decreases |b|, 0
  {
    hide Split, EncodeStr, Head;
    SplitSound(b);
    var p := Split(b).value;
    if p.kind == ListKind {
      SplitSize(b);
      SplitTreesSound(p.content);
    }
  }

  lemma SplitSize(b: seq<byte>)
    requires Split(b).Ok? && Split(b).value.kind == ListKind
    ensures |Split(b).value.content| < |b|
  {
  }

  lemma {:induction false} SplitTreesSound(b: seq<byte>)
    requires SplitTrees(b).Some?
    ensures b == EncodeAll(SplitTrees(b).value)
    decreases |b|, 1
  {
    hide Split;
    if b != [] {
      SplitTreeSound(b);
      var (x, rest) := SplitTree(b).value;
      SplitTreesSound(rest);
      assert ([x] + SplitTrees(rest).value)[1..] == SplitTrees(rest).value;
    }
  }

  lemma {:induction false} SplitTreeComplete(x: Item, rest: seq<byte>)
    requires |Encode(x)| <= MAX_UINT64
    ensures SplitTree(Encode(x) + rest) == Some((x, rest))
    decreases x, 1
  {
    hide Split, EncodeStr, ListHead;
    match x
    case Str(s) =>
      EncodeStrSize(s);
      SplitStr(s, rest);
    case List(items) =>
      SplitTreesComplete(items);
      SplitList(EncodeAll(items), rest);
  }

  lemma EncodeStrSize(s: seq<byte>)
    ensures |s| <= |EncodeStr(s)|
  {
  }

  lemma {:induction false} SplitTreesComplete(xs: seq<Item>)
    requires |EncodeAll(xs)| <= MAX_UINT64
    ensures SplitTrees(EncodeAll(xs)) == Some(xs)
    decreases xs, 0
  {
    hide Split, SplitTree, Encode;
    if xs != [] {
      SplitTreeComplete(xs[0], EncodeAll(xs[1..]));
      SplitTreesComplete(xs[1..]);
      assert [xs[0]] + xs[1..] == xs;
    }
  }

  /** Splitting gives back an item and the rest exactly when the bytes are the item's encoding
      followed by the rest. */
  lemma SplitTreeExact(b: seq<byte>, x: Item, rest: seq<byte>)
    requires |b| <= MAX_UINT64
    ensures SplitTree(b) == Some((x, rest)) <==> b == Encode(x) + rest
  {
    hide SplitTree, Encode;
    if SplitTree(b) == Some((x, rest)) {
      SplitTreeSound(b);
    }
    if b == Encode(x) + rest {
      SplitTreeComplete(x, rest);
    }
  }

  /** No encoding is a prefix of another, and different items have different encodings. */
  lemma EncodePrefixFree(x: Item, r: seq<byte>, y: Item, s: seq<byte>)
    requires Encode(x) + r == Encode(y) + s
    requires |Encode(x)| <= MAX_UINT64 && |Encode(y)| <= MAX_UINT64
    ensures x == y && r == s
  {
    hide SplitTree, Encode;
    SplitTreeComplete(x, r);
    SplitTreeComplete(y, s);
  }

  // ---------- Counting values ----------

  /** The number of values in b, or the error of the first one that is malformed. */
  function Count(b: seq<byte>): Result<nat, Error>
    decreases |b|
  {
    if b == [] then Ok(0) else
      match Split(b)
      case Err(e) => Err(e)
      case Ok(p) =>
        match Count(p.rest)
        case Err(e) => Err(e)
        case Ok(n) => Ok(n + 1)
  }

  method CountValues(b: seq<byte>) returns (r: Result<nat, Error>)
    ensures r == Count(b)
  {
    hide ReadKind;
    var rest, i := b, 0;
    while |rest| > 0
      invariant Count(b) == match Count(rest) case Err(e) => Err(e) case Ok(n) => Ok(n + i)
      decreases |rest|
    {
      var k := ReadKind(rest);
      if k.Err? {
        return Err(k.error);
      }
      rest := rest[k.value.tagsize + k.value.contentsize..];
      i := i + 1;
    }
    return Ok(i);
  }

  /** The encodings of n items in a row count n values. */
  lemma {:induction false} CountEncoded(xs: seq<Item>)
    requires |EncodeAll(xs)| <= MAX_UINT64
    ensures Count(EncodeAll(xs)) == Ok(|xs|)
  {
    hide Split, Encode;
    if xs != [] {
      SplitEncoded(xs[0], EncodeAll(xs[1..]));
      CountEncoded(xs[1..]);
    }
  }

  lemma SplitEncoded(x: Item, rest: seq<byte>)
    requires |Encode(x)| <= MAX_UINT64
    ensures Split(Encode(x) + rest).Ok? && Split(Encode(x) + rest).value.rest == rest
  {
    hide Split, EncodeStr, ListHead;
    match x
    case Str(s) =>
      EncodeStrSize(s);
      SplitStr(s, rest);
    case List(items) =>
      SplitList(EncodeAll(items), rest);
  }
}
