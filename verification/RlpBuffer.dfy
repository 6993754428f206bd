/** The encoder buffer: string data is written at once, list headers are recorded and put in place
    when the output is produced. */
module RlpBuffer {
  import opened Bytes
  import opened Rlp
  import opened Wrappers

  // ---------- Integers and headers ----------

  /** The fewest bytes that hold i, counted by shifting. */
  method IntSize(i: nat) returns (size: nat)
    ensures size == IntLen(i)
  {
    size := 1;
    var v := i;
    while true
      invariant size >= 1 && IntLen(i) == size - 1 + IntLen(v)
      decreases v
    {
      v := v / 256;
      if v == 0 {
        return;
      }
      size := size + 1;
    }
  }

  /** The bytes of i, most significant first, without leading zeros: one case per length. */
  function IntBytes(i: nat): seq<byte>
    requires i <= MAX_UINT64
  {
    if i < 0x100 then [i]
    else if i < 0x1_0000 then [i / 0x100, i % 256]
    else if i < 0x100_0000 then [i / 0x1_0000, i / 0x100 % 256, i % 256]
    else if i < 0x1_0000_0000 then
      [i / 0x100_0000, i / 0x1_0000 % 256, i / 0x100 % 256, i % 256]
    else if i < 0x100_0000_0000 then
      [i / 0x1_0000_0000, i / 0x100_0000 % 256, i / 0x1_0000 % 256, i / 0x100 % 256, i % 256]
    else if i < 0x1_0000_0000_0000 then
      [i / 0x100_0000_0000, i / 0x1_0000_0000 % 256, i / 0x100_0000 % 256, i / 0x1_0000 % 256, i / 0x100 % 256, i % 256]
    else if i < 0x100_0000_0000_0000 then
      [i / 0x1_0000_0000_0000, i / 0x100_0000_0000 % 256, i / 0x1_0000_0000 % 256, i / 0x100_0000 % 256,
       i / 0x1_0000 % 256, i / 0x100 % 256, i % 256]
    else
      [i / 0x100_0000_0000_0000, i / 0x1_0000_0000_0000 % 256, i / 0x100_0000_0000 % 256, i / 0x1_0000_0000 % 256,
       i / 0x100_0000 % 256, i / 0x1_0000 % 256, i / 0x100 % 256, i % 256]
  }

  /** The last byte of a long number, and the rest. */
  lemma IntBytesStep(i: nat)
    requires 0x100 <= i <= MAX_UINT64
    ensures IntBytes(i) == IntBytes(i / 0x100) + [i % 256]
  {
  }

  /** The cases are the shortest big-endian form. */
  lemma {:induction false} IntBytesMeaning(i: nat)
    requires i <= MAX_UINT64
    ensures IntBytes(i) == BigEndian(i, IntLen(i))
  {
    hide IntBytes;
    if i < 0x100 {
      IntBytesSmall(i);
      assert BigEndian(i, 1) == BigEndian(i / 256, 0) + [i % 256];
    } else {
      IntBytesStep(i);
      IntBytesMeaning(i / 0x100);
    }
  }

  lemma IntBytesSmall(i: nat)
    requires i < 0x100
    ensures IntBytes(i) == [i]
  {
  }

  /** Writes bytes into an array. */
  method CopyAt(dst: array<byte>, pos: nat, bs: seq<byte>)
    requires pos + |bs| <= dst.Length
    modifies dst
    ensures dst[..pos] == old(dst[..pos])
    ensures dst[pos..pos + |bs|] == bs
    ensures dst[pos + |bs|..] == old(dst[pos + |bs|..])
  {
    forall k | 0 <= k < |bs| {
      dst[pos + k] := bs[k];
    }
  }

  /** Writes a list or string header into an array and returns its length. */
  method PutHead(dst: array<byte>, pos: nat, small: byte, large: byte, size: nat) returns (n: nat)
    requires size <= MAX_UINT64
    requires pos + |Head(small, large, size)| <= dst.Length
    modifies dst
    ensures n == |Head(small, large, size)|
    ensures dst[..pos + n] == old(dst[..pos]) + Head(small, large, size)
    ensures dst[pos + n..] == old(dst[pos + n..])
  {
    hide BigEndian, IntLen, IntBytes;
    var h := [(small + size) % 256];
    if size >= 56 {
      IntBytesMeaning(size);
      h := [(large + |IntBytes(size)|) % 256] + IntBytes(size);
    }
    CopyAt(dst, pos, h);
    n := |h|;
    assert dst[..pos + n] == dst[..pos] + dst[pos..pos + n];
  }

  // ---------- Deferred headers ----------

  /** A list header: the place in the string data it belongs to and the size of the list. */
  datatype Header = Header(offset: nat, size: nat)

  /** The headers lie in order between `from` and n. */
  ghost predicate Placed(heads: seq<Header>, from: nat, n: nat) {
    && from <= n
    && (forall i :: 0 <= i < |heads| ==> from <= heads[i].offset <= n)
    && (forall i, j :: 0 <= i < j < |heads| ==> heads[i].offset <= heads[j].offset)
  }

  /** The string data from `from` on with the headers put in. */
  ghost function Render(str: seq<byte>, heads: seq<Header>, from: nat): seq<byte>
    requires Placed(heads, from, |str|)
    decreases |heads|
  {
    if heads == [] then str[from..]
    else str[from..heads[0].offset] + ListHead(heads[0].size) + Render(str, heads[1..], heads[0].offset)
  }

  /** The bytes all headers take. */
  ghost function HeadsSize(heads: seq<Header>): nat {
    if heads == [] then 0 else |ListHead(heads[0].size)| + HeadsSize(heads[1..])
  }

  lemma {:induction false} HeadsSizeConcat(a: seq<Header>, b: seq<Header>)
    ensures HeadsSize(a + b) == HeadsSize(a) + HeadsSize(b)
  {
    if a == [] {
      assert a + b == b;
    } else {
      assert (a + b)[1..] == a[1..] + b;
      HeadsSizeConcat(a[1..], b);
    }
  }

  lemma {:induction false} RenderSize(str: seq<byte>, heads: seq<Header>, from: nat)
    requires Placed(heads, from, |str|)
    ensures |Render(str, heads, from)| == |str| - from + HeadsSize(heads)
    decreases |heads|
  {
    if heads != [] {
      RenderSize(str, heads[1..], heads[0].offset);
    }
  }

  /** String data before the first header is rendered as it is. */
  lemma RenderAdvance(str: seq<byte>, heads: seq<Header>, from: nat, k: nat)
    requires Placed(heads, from + k, |str|)
    ensures Placed(heads, from, |str|)
    ensures Render(str, heads, from) == str[from..from + k] + Render(str, heads, from + k)
  {
    hide ListHead;
    if heads == [] {
      assert str[from..] == str[from..from + k] + str[from + k..];
    } else {
      var o := heads[0].offset;
      assert str[from..o] == str[from..from + k] + str[from + k..o];
      Reassociated(str[from..from + k], str[from + k..o], ListHead(heads[0].size), Render(str, heads[1..], o));
    }
  }

  lemma Reassociated(a: seq<byte>, b: seq<byte>, c: seq<byte>, d: seq<byte>)
    ensures (a + b) + c + d == a + (b + c + d)
  {
  }

  /** What an item adds to the string data: everything but the headers of lists that are not
      empty. */
  ghost function Strings(x: Item): seq<byte>
    decreases x, 1
  {
    match x
    case Str(b) => EncodeStr(b)
    case List(items) => if items == [] then [0xC0] else StringsAll(items)
  }

  ghost function StringsAll(xs: seq<Item>): seq<byte>
    decreases xs, 0
  {
    if xs == [] then [] else Strings(xs[0]) + StringsAll(xs[1..])
  }

  /** The headers an item adds when its string data starts at `base`. */
  ghost function Headers(x: Item, base: nat): seq<Header>
    decreases x, 1
  {
    if x.Str? || x.items == [] then []
    else [Header(base, |EncodeAll(x.items)|)] + HeadersAll(x.items, base)
  }

  ghost function HeadersAll(xs: seq<Item>, base: nat): seq<Header>
    decreases xs, 0
  {
    if xs == [] then []
    else Headers(xs[0], base) + HeadersAll(xs[1..], base + |Strings(xs[0])|)
  }

  lemma PlacedFront(heads: seq<Header>, from: nat, n: nat, h: Header)
    requires Placed(heads, from, n) && h.offset == from
    ensures Placed([h] + heads, from, n)
  {
  }

  /** An item written at `base` renders as its encoding, whatever surrounds it. */
  lemma {:induction false} RenderItem(str: seq<byte>, x: Item, base: nat, more: seq<Header>)
    requires base + |Strings(x)| <= |str| && str[base..base + |Strings(x)|] == Strings(x)
    requires Placed(more, base + |Strings(x)|, |str|)
    ensures Placed(Headers(x, base) + more, base, |str|)
    ensures Render(str, Headers(x, base) + more, base) == Encode(x) + Render(str, more, base + |Strings(x)|)
    decreases x, 1
  {
    hide ListHead, EncodeStr, Placed;
    if x.Str? || x.items == [] {
      RenderAdvance(str, more, base, |Strings(x)|);
      assert Headers(x, base) + more == more;
      if x.List? {
        EmptyList();
      }
    } else {
      RenderItems(str, x.items, base, more);
      var inner := HeadersAll(x.items, base) + more;
      var h := Header(base, |EncodeAll(x.items)|);
      assert Headers(x, base) + more == [h] + inner;
      PlacedFront(inner, base, |str|, h);
      assert ([h] + inner)[1..] == inner;
      assert str[base..base] == [];
    }
  }

  lemma EmptyList()
    ensures Encode(List([])) == [0xC0]
  {
    assert EncodeAll([]) == [];
  }

  lemma {:induction false} RenderItems(str: seq<byte>, xs: seq<Item>, base: nat, more: seq<Header>)
    requires base + |StringsAll(xs)| <= |str| && str[base..base + |StringsAll(xs)|] == StringsAll(xs)
    requires Placed(more, base + |StringsAll(xs)|, |str|)
    ensures Placed(HeadersAll(xs, base) + more, base, |str|)
    ensures Render(str, HeadersAll(xs, base) + more, base) == EncodeAll(xs) + Render(str, more, base + |StringsAll(xs)|)
    decreases xs, 0
  {
    hide Encode, Render, Placed, Strings, Headers, EncodeAll, StringsAll, HeadersAll;
    Unfolded(xs, base);
    if xs == [] {
      assert HeadersAll(xs, base) + more == more;
    } else {
      var k := |Strings(xs[0])|;
      var all := str[base..base + |StringsAll(xs)|];
      assert str[base..base + k] == all[..k];
      assert str[base + k..base + |StringsAll(xs)|] == all[k..];
      RenderItems(str, xs[1..], base + k, more);
      RenderItem(str, xs[0], base, HeadersAll(xs[1..], base + k) + more);
      assert HeadersAll(xs, base) + more == Headers(xs[0], base) + (HeadersAll(xs[1..], base + k) + more);
      Reassociated([], Encode(xs[0]), EncodeAll(xs[1..]), Render(str, more, base + |StringsAll(xs)|));
    }
  }

  lemma Unfolded(xs: seq<Item>, base: nat)
    ensures xs == [] ==> StringsAll(xs) == [] && EncodeAll(xs) == [] && HeadersAll(xs, base) == []
    ensures xs != [] ==>
              && StringsAll(xs) == Strings(xs[0]) + StringsAll(xs[1..])
              && EncodeAll(xs) == Encode(xs[0]) + EncodeAll(xs[1..])
              && HeadersAll(xs, base) == Headers(xs[0], base) + HeadersAll(xs[1..], base + |Strings(xs[0])|)
  {
    hide Encode, Strings, Headers;
  }

  lemma {:induction false} HeadersAllSnoc(xs: seq<Item>, y: Item, base: nat)
    ensures StringsAll(xs + [y]) == StringsAll(xs) + Strings(y)
    ensures HeadersAll(xs + [y], base) == HeadersAll(xs, base) + Headers(y, base + |StringsAll(xs)|)
    decreases |xs|
  {
    hide Strings, Headers;
    if xs == [] {
      assert xs + [y] == [y] && [y][1..] == [];
    } else {
      assert (xs + [y])[1..] == xs[1..] + [y];
      HeadersAllSnoc(xs[1..], y, base + |Strings(xs[0])|);
    }
  }

  /** The size of an item is what it adds to the string data and to the headers. */
  lemma {:induction false} ItemSize(x: Item, base: nat)
    ensures |Encode(x)| == |Strings(x)| + HeadsSize(Headers(x, base))
    decreases x, 1
  {
    hide ListHead, EncodeStr;
    if x.List? && x.items == [] {
      EmptyList();
    } else if x.List? {
      PayloadSize(x.items, base);
      assert Headers(x, base)[1..] == HeadersAll(x.items, base);
    }
  }

  lemma {:induction false} PayloadSize(xs: seq<Item>, base: nat)
    ensures |EncodeAll(xs)| == |StringsAll(xs)| + HeadsSize(HeadersAll(xs, base))
    decreases xs, 0
  {
    hide Encode, Strings, Headers, EncodeAll, StringsAll, HeadersAll;
    Unfolded(xs, base);
    if xs != [] {
      var k := |Strings(xs[0])|;
      ItemSize(xs[0], base);
      PayloadSize(xs[1..], base + k);
      HeadsSizeConcat(Headers(xs[0], base), HeadersAll(xs[1..], base + k));
    }
  }

  class EncBuffer {
    var str: seq<byte>
    var lheads: seq<Header>
    var lhsize: nat

    constructor ()
      ensures str == [] && lheads == [] && lhsize == 0
    {
      str, lheads, lhsize := [], [], 0;
    }

    /** The length of the encoded data. */
    function Size(): nat
      reads this
    {
      |str| + lhsize
    }

    method WriteBytes(b: seq<byte>)
      requires |b| <= MAX_UINT64
      modifies this`str
      ensures str == old(str) + EncodeStr(b)
    {
      if |b| == 1 && b[0] <= 0x7F {
        str := str + [b[0]];
        assert [b[0]] == b;
      } else {
        EncodeStringHeader(|b|);
        str := str + b;
      }
    }

    method EncodeStringHeader(size: nat)
      requires size <= MAX_UINT64
      modifies this`str
      ensures str == old(str) + StrHead(size)
    {
      hide BigEndian, IntLen, IntBytes;
      if size < 56 {
        str := str + [0x80 + size];
      } else {
        IntBytesMeaning(size);
        str := str + ([(0xB7 + |IntBytes(size)|) % 256] + IntBytes(size));
      }
    }

    /** Starts a list: its header is recorded with the header bytes so far in place of its size. */
    method List() returns (index: nat)
      modifies this`lheads
      ensures lheads == old(lheads) + [Header(|str|, lhsize)] && index == |old(lheads)|
    {
      lheads := lheads + [Header(|str|, lhsize)];
      return |lheads| - 1;
    }

    /** Ends a list: its header gets the size of everything written since. */
    method ListEnd(index: nat)
      requires index < |lheads| && lheads[index].offset <= |str| && lheads[index].size <= lhsize
      modifies this`lheads, this`lhsize
      ensures lheads == old(lheads)[index := Header(old(lheads)[index].offset,
                          |str| - old(lheads)[index].offset + old(lhsize) - old(lheads)[index].size)]
      ensures lhsize == old(lhsize) + |ListHead(lheads[index].size)|
    {
      hide BigEndian;
      var lh := lheads[index];
      var size := Size() - lh.offset - lh.size;
      lheads := lheads[index := Header(lh.offset, size)];
      if size < 56 {
        lhsize := lhsize + 1;
      } else {
        var n := IntSize(size);
        lhsize := lhsize + 1 + n;
      }
    }

    /** Writes an item: strings at once, lists item by item between List and ListEnd. */
    method EncodeItem(x: Item)
      requires |Encode(x)| <= MAX_UINT64
      modifies this
      ensures str == old(str) + Strings(x)
      ensures lheads == old(lheads) + Headers(x, |old(str)|)
      ensures lhsize == old(lhsize) + HeadsSize(Headers(x, |old(str)|))
      decreases x, 1
    {
      hide EncodeStr, ListHead, EncodeAll, StringsAll, HeadersAll;
      match x
      case Str(b) =>
        StrFits(b);
        WriteBytes(b);
      case List(items) =>
        if |items| == 0 {
          str := str + [0xC0];
        } else {
          var index := List();
          EncodeItems(items);
          PayloadSize(items, |old(str)|);
          ListEnd(index);
          ghost var h := Header(|old(str)|, |EncodeAll(items)|);
          ghost var inner := HeadersAll(items, |old(str)|);
          assert lheads == old(lheads) + ([h] + inner);
          assert HeadsSize([h] + inner) == |ListHead(h.size)| + HeadsSize(inner) by {
            assert ([h] + inner)[1..] == inner;
          }
        }
    }

    method EncodeItems(items: seq<Item>)
      requires |EncodeAll(items)| <= MAX_UINT64
      modifies this
      ensures str == old(str) + StringsAll(items)
      ensures lheads == old(lheads) + HeadersAll(items, |old(str)|)
      ensures lhsize == old(lhsize) + HeadsSize(HeadersAll(items, |old(str)|))
      decreases items, 0
    {
      hide Strings, Headers, Encode, StringsAll, HeadersAll, HeadsSize;
      ghost var base := |old(str)|;
      NoItems(base);
      assert items[..|items|] == items;
      for i := 0 to |items|
        invariant str == old(str) + StringsAll(items[..i])
        invariant lheads == old(lheads) + HeadersAll(items[..i], base)
        invariant lhsize == old(lhsize) + HeadsSize(HeadersAll(items[..i], base))
      {
        ItemFits(items, i);
        EncodeItem(items[i]);
        HeadersAllSnoc(items[..i], items[i], base);
        assert items[..i + 1] == items[..i] + [items[i]];
        HeadsSizeConcat(HeadersAll(items[..i], base), Headers(items[i], base + |StringsAll(items[..i])|));
      }
    }

    /** All lists are ended: every header has its place and its size. */
    ghost predicate Complete()
      reads this
    {
      && Placed(lheads, 0, |str|)
      && lhsize == HeadsSize(lheads)
      && forall i :: 0 <= i < |lheads| ==> lheads[i].size <= MAX_UINT64
    }

    /** The encoded data: the string data with the headers put in. */
    ghost function Output(): (out: seq<byte>)
      requires Complete()
      reads this
      ensures |out| == Size()
    {
      RenderSize(str, lheads, 0);
      Render(str, lheads, 0)
    }

    /** Writes the encoded data into an array. */
    method CopyTo(dst: array<byte>)
      requires Complete() && dst.Length >= Size()
      modifies dst
      ensures dst[..Size()] == Output()
      ensures dst[Size()..] == old(dst[Size()..])
    {
      hide Head, HeadsSize, ListHead, Placed, Render;
      ghost var out := Output();
      var strpos: nat, pos: nat := 0, 0;
      assert lheads[0..] == lheads;
      for i := 0 to |lheads|
        invariant Placed(lheads[i..], strpos, |str|) && pos <= dst.Length
        invariant out == dst[..pos] + Render(str, lheads[i..], strpos)
        invariant dst[Size()..] == old(dst[Size()..])
      {
        var head := lheads[i];
        RenderStep(str, lheads, i, strpos);
        pos := CopyHead(dst, pos, str[strpos..head.offset], head, out);
        strpos := head.offset;
      }
      RenderEnd(str, lheads, strpos);
      CopyAt(dst, pos, str[strpos..]);
      assert dst[..pos + |str[strpos..]|] == dst[..pos] + dst[pos..pos + |str[strpos..]|];
    }

    /** Writes string data and the header after it. */
    method CopyHead(dst: array<byte>, pos: nat, s: seq<byte>, head: Header, ghost out: seq<byte>) returns (pos': nat)
      requires head.size <= MAX_UINT64 && |out| == Size() <= dst.Length
      requires pos + |s| + |ListHead(head.size)| <= |out|
      modifies dst
      ensures pos' == pos + |s| + |ListHead(head.size)|
      ensures dst[..pos'] == old(dst[..pos]) + s + ListHead(head.size)
      ensures dst[Size()..] == old(dst[Size()..])
    {
      hide Head;
      ListHeadIsHead(head.size);
      CopyAt(dst, pos, s);
      assert dst[..pos + |s|] == dst[..pos] + dst[pos..pos + |s|];
      assert dst[Size()..] == dst[pos + |s|..][Size() - pos - |s|..];
      assert old(dst[Size()..]) == old(dst[pos + |s|..])[Size() - pos - |s|..];
      label copied:
      var n := PutHead(dst, pos + |s|, 0xC0, 0xF7, head.size);
      pos' := pos + |s| + n;
      assert dst[Size()..] == dst[pos'..][Size() - pos'..];
      assert old@copied(dst[Size()..]) == old@copied(dst[pos'..])[Size() - pos'..];
    }

    /** Writes the encoded data to a writer that takes everything it is given. */
    method WriteTo() returns (written: seq<byte>)
      requires Complete()
      ensures written == Output()
    {
      hide Head, HeadsSize, ListHead, Placed, Render;
      written := [];
      var strpos: nat := 0;
      assert lheads[0..] == lheads;
      for i := 0 to |lheads|
        invariant Placed(lheads[i..], strpos, |str|)
        invariant Output() == written + Render(str, lheads[i..], strpos)
      {
        var head := lheads[i];
        RenderStep(str, lheads, i, strpos);
        if head.offset - strpos > 0 {
          written := written + str[strpos..head.offset];
          strpos := head.offset;
        } else {
          assert str[strpos..head.offset] == [];
        }
        written := written + ListHead(head.size);
      }
      RenderEnd(str, lheads, strpos);
      if strpos < |str| {
        written := written + str[strpos..];
      }
    }
  }

  lemma ListHeadIsHead(n: nat)
    ensures ListHead(n) == Head(0xC0, 0xF7, n)
  {
  }

  /** Putting in the next header. */
  lemma RenderStep(str: seq<byte>, heads: seq<Header>, i: nat, from: nat)
    requires i < |heads| && Placed(heads[i..], from, |str|)
    ensures from <= heads[i].offset <= |str| && Placed(heads[i + 1..], heads[i].offset, |str|)
    ensures Render(str, heads[i..], from)
      == str[from..heads[i].offset] + ListHead(heads[i].size) + Render(str, heads[i + 1..], heads[i].offset)
  {
    hide ListHead;
    var hs, rest := heads[i..], heads[i + 1..];
    assert hs[1..] == rest && hs[0] == heads[i];
    forall j | 0 <= j < |rest| ensures rest[j] == hs[j + 1] && heads[i].offset <= rest[j].offset {
      assert hs[0].offset <= hs[j + 1].offset;
    }
  }

  /** After the last header only string data is left. */
  lemma RenderEnd(str: seq<byte>, heads: seq<Header>, from: nat)
    requires Placed(heads[|heads|..], from, |str|)
    ensures from <= |str| && Render(str, heads[|heads|..], from) == str[from..]
  {
    assert heads[|heads|..] == [];
  }

  /** A fresh buffer an item was written to is complete and holds the item's encoding. */
  lemma Encoded(x: Item)
    requires |Encode(x)| <= MAX_UINT64
    ensures Placed(Headers(x, 0), 0, |Strings(x)|)
    ensures Render(Strings(x), Headers(x, 0), 0) == Encode(x)
    ensures forall i :: 0 <= i < |Headers(x, 0)| ==> Headers(x, 0)[i].size <= MAX_UINT64
  {
    hide Encode, Headers, Strings;
    var str := Strings(x);
    assert str[0..|str|] == str;
    RenderItem(str, x, 0, []);
    assert Headers(x, 0) + [] == Headers(x, 0);
    assert Render(str, [], |str|) == [];
    HeaderSizes(x, 0);
  }

  lemma {:induction false} HeaderSizes(x: Item, base: nat)
    ensures forall i :: 0 <= i < |Headers(x, base)| ==> Headers(x, base)[i].size <= |Encode(x)|
    decreases x, 1
  {
    hide ListHead, EncodeStr;
    if x.List? && x.items != [] {
      HeaderSizesAll(x.items, base);
    }
  }

  lemma {:induction false} HeaderSizesAll(xs: seq<Item>, base: nat)
    ensures forall i :: 0 <= i < |HeadersAll(xs, base)| ==> HeadersAll(xs, base)[i].size <= |EncodeAll(xs)|
    decreases xs, 0
  {
    hide Encode, Headers;
    if xs != [] {
      HeaderSizes(xs[0], base);
      HeaderSizesAll(xs[1..], base + |Strings(xs[0])|);
    }
  }

  /** What the bytes of an encoding are. */
  lemma EncodedBytes(x: Item)
    requires |Encode(x)| <= MAX_UINT64
    ensures x.Str? && |x.bytes| == 1 && x.bytes[0] < 128 ==> Encode(x) == x.bytes
    ensures x.Str? && |x.bytes| < 56 && !(|x.bytes| == 1 && x.bytes[0] < 128) ==>
              Encode(x) == [0x80 + |x.bytes|] + x.bytes
    ensures x.Str? && 56 <= |x.bytes| ==> Long(Encode(x), 0xB7, |x.bytes|, x.bytes)
    ensures x.List? && |EncodeAll(x.items)| < 56 ==> Encode(x) == [0xC0 + |EncodeAll(x.items)|] + EncodeAll(x.items)
    ensures x.List? && 56 <= |EncodeAll(x.items)| ==> Long(Encode(x), 0xF7, |EncodeAll(x.items)|, EncodeAll(x.items))
  {
    hide EncodeAll, Long, Head;
    match x
    case Str(b) => StrBytes(b);
    case List(items) => ListBytes(items);
  }

  /** Encodes an item into a new array of just the right length. */
  method EncodeToBytes(x: Item) returns (out: array<byte>)
    requires |Encode(x)| <= MAX_UINT64
    ensures out[..] == Encode(x)
    ensures x.Str? && |x.bytes| == 1 && x.bytes[0] < 128 ==> out[..] == x.bytes
    ensures x.Str? && |x.bytes| < 56 && !(|x.bytes| == 1 && x.bytes[0] < 128) ==>
              out[..] == [0x80 + |x.bytes|] + x.bytes
    ensures x.Str? && 56 <= |x.bytes| ==> Long(out[..], 0xB7, |x.bytes|, x.bytes)
    ensures x.List? && |EncodeAll(x.items)| < 56 ==> out[..] == [0xC0 + |EncodeAll(x.items)|] + EncodeAll(x.items)
    ensures x.List? && 56 <= |EncodeAll(x.items)| ==> Long(out[..], 0xF7, |EncodeAll(x.items)|, EncodeAll(x.items))
  {
    hide Encode, EncodeAll, Headers, Strings, Placed, Render, HeadsSize, Long;
    EncodedBytes(x);
    var buf := new EncBuffer();
    buf.EncodeItem(x);
    FreshItem(buf.str, buf.lheads, x);
    Encoded(x);
    out := new byte[buf.Size()];
    buf.CopyTo(out);
    assert out[..] == out[..buf.Size()];
  }

  lemma FreshItem(str: seq<byte>, lheads: seq<Header>, x: Item)
    requires str == [] + Strings(x) && lheads == [] + Headers(x, 0)
    ensures str == Strings(x) && lheads == Headers(x, 0)
  {
  }

  /** Encodes an item to a writer. */
  method EncodeToWriter(x: Item) returns (written: seq<byte>)
    requires |Encode(x)| <= MAX_UINT64
    ensures written == Encode(x)
  {
    hide Encode, Headers, Strings, Placed, Render, HeadsSize;
    var buf := new EncBuffer();
    buf.EncodeItem(x);
    FreshItem(buf.str, buf.lheads, x);
    Encoded(x);
    written := buf.WriteTo();
  }

  /** Encodes an item for reading piece by piece. */
  method EncodeToReader(x: Item) returns (size: nat, r: EncReader)
    requires |Encode(x)| <= MAX_UINT64
    ensures size == |Encode(x)|
    ensures fresh(r) && r.Valid() && r.Rest() == Encode(x)
  {
    hide Encode, Headers, Strings, Placed, Render, HeadsSize;
    var buf := new EncBuffer();
    buf.EncodeItem(x);
    FreshItem(buf.str, buf.lheads, x);
    Encoded(x);
    size := buf.Size();
    assert |buf.Output()| == size;
    r := new EncReader(Data(buf.str, buf.lheads));
  }

  // ---------- Reading the output in pieces ----------

  /** The contents of an encoder buffer a reader holds on to. */
  datatype Data = Data(str: seq<byte>, lheads: seq<Header>)

  class EncReader {
    /** The buffer read from; None once the end was reached. */
    var buf: Option<Data>
    var lhpos: nat
    var strpos: nat
    /** The next piece to be read; None when there is no piece left over. */
    var piece: Option<seq<byte>>

    ghost predicate Valid()
      reads this
    {
      && (buf.None? ==> piece.None?)
      && (piece.Some? ==> piece.value != [])
      && (buf.Some? ==> lhpos <= |buf.value.lheads| && Placed(buf.value.lheads[lhpos..], strpos, |buf.value.str|))
    }

    /** What is still to be read. */
    ghost function Rest(): seq<byte>
      requires Valid()
      reads this
    {
      if buf.None? then []
      else (if piece.Some? then piece.value else []) + Render(buf.value.str, buf.value.lheads[lhpos..], strpos)
    }

    constructor (b: Data)
      requires Placed(b.lheads, 0, |b.str|)
      ensures Valid() && Rest() == Render(b.str, b.lheads, 0)
    {
      buf, lhpos, strpos, piece := Some(b), 0, 0, None;
      assert b.lheads[0..] == b.lheads;
    }

    /** The next piece, taken off what is still to be read; None at the end. */
    method Next() returns (p: Option<seq<byte>>)
      requires Valid()
      modifies this`lhpos, this`strpos, this`piece
      ensures piece == p && Valid() && Rest() == old(Rest())
      ensures p.None? ==> Rest() == []
      ensures p.Some? ==> buf.Some?
    {
      hide ListHead, Placed, Render;
      if buf.None? {
        return None;
      }
      if piece.Some? {
        return piece;
      }
      var b := buf.value;
      if lhpos < |b.lheads| {
        var head := b.lheads[lhpos];
        RenderStep(b.str, b.lheads, lhpos, strpos);
        RenderFrom(b.str, b.lheads, lhpos, strpos);
        var sizebefore := head.offset - strpos;
        if sizebefore > 0 {
          p := Some(b.str[strpos..head.offset]);
          strpos := strpos + sizebefore;
        } else {
          assert b.str[strpos..head.offset] == [];
          lhpos := lhpos + 1;
          p := Some(ListHead(head.size));
        }
      } else {
        RenderEnd(b.str, b.lheads, strpos);
        PlacedEnd(b.str, b.lheads);
        if strpos < |b.str| {
          p := Some(b.str[strpos..]);
          strpos := |b.str|;
        } else {
          p := None;
        }
      }
      piece := p;
    }

    /** Reads up to n bytes, fewer only at the end. */
    method Read(n: nat) returns (bs: seq<byte>, eof: bool)
      requires Valid()
      modifies this
      ensures Valid()
      ensures bs + Rest() == old(Rest())
      ensures eof ==> |bs| <= n && Rest() == []
      ensures !eof ==> |bs| == n
    {
      hide Placed, Render, Rest;
      bs := [];
      while true
        invariant Valid() && |bs| <= n
        invariant bs + Rest() == old(Rest())
        decreases |Rest()|
      {
        var p := Next();
        if p.None? {
          Close();
          return bs, true;
        }
        var nn := if |p.value| <= n - |bs| then |p.value| else n - |bs|;
        ghost var before, rest := bs, Rest();
        var b := Take(nn);
        bs := bs + b;
        assert bs + Rest() == before + rest;
        if nn < |p.value| {
          return bs, false;
        }
      }
    }

    /** Gives the buffer back at the end. */
    method Close()
      requires Valid() && piece.None?
      modifies this`buf
      ensures Valid() && Rest() == []
    {
      buf := None;
    }

    /** Takes bytes off the current piece. */
    method Take(nn: nat) returns (b: seq<byte>)
      requires Valid() && buf.Some? && piece.Some? && nn <= |piece.value|
      modifies this`piece
      ensures Valid() && |b| == nn && b + Rest() == old(Rest())
    {
      hide Placed, Render;
      var p := piece.value;
      b := p[..nn];
      assert p == p[..nn] + p[nn..];
      if nn < |p| {
        piece := Some(p[nn..]);
      } else {
        piece := None;
      }
    }
  }

  lemma PlacedEnd(str: seq<byte>, heads: seq<Header>)
    ensures Placed(heads[|heads|..], |str|, |str|) && Render(str, heads[|heads|..], |str|) == []
  {
    assert heads[|heads|..] == [];
  }

  lemma RenderFrom(str: seq<byte>, heads: seq<Header>, i: nat, from: nat)
    requires i < |heads| && Placed(heads[i..], from, |str|)
    ensures from <= heads[i].offset && Placed(heads[i..], heads[i].offset, |str|)
    ensures Render(str, heads[i..], from) == str[from..heads[i].offset] + Render(str, heads[i..], heads[i].offset)
  {
    hide ListHead;
    var o := heads[i].offset;
    assert heads[i..][0] == heads[i];
    assert Placed(heads[i..], o, |str|);
    RenderAdvance(str, heads[i..], from, o - from);
  }

  /** However the reads are cut, they give the same bytes: as many as they ask for, or all. */
  method ReadAll(r: EncReader, sizes: seq<nat>) returns (bs: seq<byte>)
    requires r.Valid()
    modifies r
    ensures r.Valid() && bs + r.Rest() == old(r.Rest())
    ensures |bs| == if Sum(sizes) <= |old(r.Rest())| then Sum(sizes) else |old(r.Rest())|
  {
    hide Placed, Render, EncReader.Rest, EncReader.Valid;
    bs := [];
    for i := 0 to |sizes|
      invariant r.Valid() && bs + r.Rest() == old(r.Rest())
      invariant |bs| <= Sum(sizes[..i]) && (r.Rest() == [] || |bs| == Sum(sizes[..i]))
    {
      var b, eof := r.Read(sizes[i]);
      bs := bs + b;
      assert sizes[..i + 1][..i] == sizes[..i];
    }
    assert sizes[..|sizes|] == sizes;
  }

  ghost function Sum(ns: seq<nat>): nat {
    if ns == [] then 0 else Sum(ns[..|ns| - 1]) + ns[|ns| - 1]
  }

  lemma NoItems(base: nat)
    ensures StringsAll([]) == [] && HeadersAll([], base) == [] && HeadsSize([]) == 0
  {
  }

  lemma StrFits(b: seq<byte>)
    requires |EncodeStr(b)| <= MAX_UINT64
    ensures |b| <= MAX_UINT64
  {
  }

  lemma ItemFits(xs: seq<Item>, i: nat)
    requires i < |xs|
    ensures |Encode(xs[i])| <= |EncodeAll(xs)|
  {
    assert xs == xs[..i] + xs[i..];
    EncodeAllConcat(xs[..i], xs[i..]);
    EncodeAllSplit(xs, i);
  }
}
