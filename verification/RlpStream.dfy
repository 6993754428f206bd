/** The streaming decoder: one pass over the input, with a stack of what is left of the lists it is
    in. */
module RlpStream {
  import opened Bytes
  import opened Rlp
  import RlpRaw
  import opened Wrappers

  datatype StreamError = EOL | EOF | ElemTooLarge | TooLarge | NonCanonicalSize | NotAString | NotAList
    | NotInList | NotAtEOL | MoreThanOneValue

  /** The limits after n bytes of the innermost list are accounted for, in 64 bits. */
  function Sub(stack: seq<nat>, n: nat): seq<nat> {
    if stack == [] then []
    else stack[|stack| - 1 := (stack[|stack| - 1] - n) % (MAX_UINT64 + 1)]
  }

  function Top(stack: seq<nat>): nat
    requires stack != []
  {
    stack[|stack| - 1]
  }

  lemma SubSub(stack: seq<nat>, a: nat, b: nat)
    ensures Sub(Sub(stack, a), b) == Sub(stack, a + b)
  {
    if stack != [] {
      ModSub(Top(stack), a, b);
    }
  }

  lemma ModSub(t: nat, a: nat, b: nat)
    ensures ((t - a) % (MAX_UINT64 + 1) - b) % (MAX_UINT64 + 1) == (t - a - b) % (MAX_UINT64 + 1)
  {
  }

  lemma SubSmall(stack: seq<nat>, n: nat)
    requires stack != [] && n <= Top(stack) <= MAX_UINT64
    ensures Top(Sub(stack, n)) == Top(stack) - n && Sub(stack, n) == stack[|stack| - 1 := Top(stack) - n]
  {
  }

  /** Nothing left of a list means that exactly its size was consumed, even if the limit wrapped on
      the way: less than 2^64 bytes can be consumed. */
  lemma SubZero(stack: seq<nat>, n: nat)
    requires stack != [] && Top(stack) <= MAX_UINT64 && n <= MAX_UINT64
    requires Top(Sub(stack, n)) == 0
    ensures n == Top(stack)
  {
  }

  /** Why n bytes may not be read: the list is shorter, or the input. */
  function Refusal(stack: seq<nat>, left: nat, n: nat): Option<StreamError> {
    if stack != [] && n > Top(stack) then Some(ElemTooLarge)
    else if n > left then Some(TooLarge)
    else None
  }

  class Stream {
    /** The unread input. */
    var r: seq<byte>
    var remaining: nat
    var size: nat
    /** The kind of the value ahead, when its header was read. */
    var kind: Option<Kind>
    /** What was wrong with that header. */
    var kinderr: Option<StreamError>
    var stack: seq<nat>
    var byteval: byte

    ghost predicate Valid()
      reads this`r, this`remaining, this`stack
    {
      && remaining == |r| <= MAX_UINT64
      && forall i :: 0 <= i < |stack| ==> stack[i] <= MAX_UINT64
    }

    /** n bytes have been read since the state (r0, stack0). */
    ghost predicate Took(r0: seq<byte>, stack0: seq<nat>, n: nat)
      reads this`r, this`remaining, this`stack
    {
      Valid() && n <= |r0| && r == r0[n..] && stack == Sub(stack0, n)
    }

    constructor (b: seq<byte>)
      requires |b| <= MAX_UINT64
      ensures Valid() && r == b && stack == [] && kind == None
    {
      r, remaining, size, kind, stack, byteval := b, |b|, 0, None, [], 0;
      kinderr := None;
    }

    /** Checks that n bytes may be read and takes them off the limits. */
    method WillRead(n: nat) returns (e: Option<StreamError>)
      requires Valid()
      modifies this`kind, this`stack, this`remaining
      ensures e.None? <==> (old(stack) == [] || n <= Top(old(stack))) && n <= |r|
      ensures e.None? ==> kind == None && stack == Sub(old(stack), n) && remaining == old(remaining) - n
      ensures e.None? ==> forall i :: 0 <= i < |stack| ==> stack[i] <= MAX_UINT64
      ensures e == Refusal(old(stack), |r|, n) && |stack| == |old(stack)|
    {
      kind := None;
      if |stack| != 0 {
        var limit := Top(stack);
        if n > limit {
          return Some(ElemTooLarge);
        }
        SubSmall(stack, n);
        stack := stack[|stack| - 1 := limit - n];
      }
      if n > remaining {
        return Some(TooLarge);
      }
      remaining := remaining - n;
      return None;
    }

    method ReadFull(n: nat) returns (bs: seq<byte>, e: Option<StreamError>)
      requires Valid()
      modifies this`kind, this`stack, this`remaining, this`r
      ensures e.None? <==> (old(stack) == [] || n <= Top(old(stack))) && n <= |old(r)|
      ensures e.None? ==> kind == None && Took(old(r), old(stack), n) && bs == old(r)[..n]
      ensures e == Refusal(old(stack), |old(r)|, n)
    {
      hide Sub;
      e := WillRead(n);
      if e.Some? {
        return [], e;
      }
      bs := r[..n];
      r := r[n..];
    }

    method ReadByte() returns (b: byte, e: Option<StreamError>)
      requires Valid()
      modifies this`kind, this`stack, this`remaining, this`r
      ensures e.None? <==> (old(stack) == [] || 1 <= Top(old(stack))) && 1 <= |old(r)|
      ensures e.None? ==> kind == None && Took(old(r), old(stack), 1) && b == old(r)[0]
      ensures e == Refusal(old(stack), |old(r)|, 1) && |stack| == |old(stack)|
    {
      hide Sub;
      e := WillRead(1);
      if e.Some? {
        return 0, e;
      }
      b := r[0];
      r := r[1..];
    }

    /** Reads a number of n bytes (up to 8), which must not have a leading zero. */
    method ReadUint(n: nat) returns (v: nat, e: Option<StreamError>)
      requires Valid() && n <= 8
      modifies this`kind, this`stack, this`remaining, this`r
      ensures e.None? <==> (old(stack) == [] || n <= Top(old(stack))) && n <= |old(r)| && (n > 1 ==> old(r)[0] != 0)
      ensures e.None? ==> kind == None && Took(old(r), old(stack), n) && v == Value(old(r)[..n])
      ensures e.Some? ==> e == if Refusal(old(stack), |old(r)|, n).Some? then Refusal(old(stack), |old(r)|, n)
                               else Some(NonCanonicalSize)
    {
      if n == 0 {
        kind := None;
        NothingTaken(stack);
        return 0, None;
      }
      hide Sub;
      if n == 1 {
        var b;
        b, e := ReadByte();
        v := b;
        if e.None? {
          OneByte(old(r)[..1]);
        }
        return;
      }
      var buffer;
      buffer, e := ReadFull(n);
      if e.Some? {
        return 0, e;
      }
      if buffer[0] == 0 {
        return 0, Some(NonCanonicalSize);
      }
      v := Value(buffer);
    }

    /** Reads the header of the next value. */
    method ReadKind() returns (k: Kind, size: nat, e: Option<StreamError>)
      requires Valid()
      modifies this`kind, this`stack, this`remaining, this`r, this`byteval
      ensures e.None? <==> ReadTag(old(r)).Some? && (old(stack) == [] || ReadTag(old(r)).value.len <= Top(old(stack)))
      ensures e.None? ==>
        var t := ReadTag(old(r)).value;
        k == t.kind && size == t.size && Took(old(r), old(stack), t.len) && (k == Byte ==> byteval == old(r)[0])
      ensures e != Some(EOL) && (e == Some(EOF) <==> old(stack) == [] && old(r) == [])
      ensures e == Some(ElemTooLarge) ==> old(stack) != []
      ensures e != Some(MoreThanOneValue)
    {
      hide Sub, Value, Took;
      var b;
      b, e := ReadByte();
      if e.Some? {
        FirstByte(old(r), old(stack));
        if |stack| == 0 && e == Some(TooLarge) {
          e := Some(EOF);
        }
        return Byte, 0, e;
      }
      byteval := 0;
      if b < 0x80 {
        byteval := b;
        return Byte, 0, None;
      } else if b < 0xB8 {
        return String, b - 0x80, None;
      } else if b < 0xC0 {
        size, e := ReadLength(old(r), old(stack), b - 0xB7);
        return String, size, e;
      } else if b < 0xF8 {
        return ListKind, b - 0xC0, None;
      } else {
        size, e := ReadLength(old(r), old(stack), b - 0xF7);
        return ListKind, size, e;
      }
    }

    /** Reads the n bytes of a size after the tag byte. */
    method ReadLength(ghost r0: seq<byte>, ghost stack0: seq<nat>, n: nat) returns (size: nat, e: Option<StreamError>)
      requires Took(r0, stack0, 1) && 1 <= |r0| && 1 <= n <= 8
      requires stack0 != [] ==> 1 <= Top(stack0) <= MAX_UINT64
      modifies this`kind, this`stack, this`remaining, this`r
      ensures e.None? <==> ReadSize(r0, n).Some? && (stack0 == [] || n + 1 <= Top(stack0))
      ensures e.None? ==> size == ReadSize(r0, n).value && Took(r0, stack0, n + 1)
      ensures e != Some(EOL) && e != Some(EOF) && (e == Some(ElemTooLarge) ==> stack0 != [])
      ensures e != Some(MoreThanOneValue)
    {
      hide Value;
      if stack0 != [] {
        SubSmall(stack0, 1);
      }
      size, e := ReadUint(n);
      if |r0| >= 1 + n {
        assert r0[1..][..n] == r0[1..1 + n];
        assert r0[1..][n..] == r0[n + 1..];
        if n == 1 {
          OneByte(r0[1..2]);
        }
      }
      SubSub(stack0, 1, n);
      if e.None? && size < 56 {
        e := Some(NonCanonicalSize);
      }
    }

    /** The kind and size of the next value. Reads its header unless that was done before; at the end
        of a list it reads nothing. The size is checked against what was left of the list before the
        header was read. */
    method NextKind() returns (e: Option<StreamError>)
      requires Valid()
      modifies this`kind, this`kinderr, this`stack, this`remaining, this`r, this`byteval, this`size
      ensures old(kind).Some? ==> e == old(kinderr) && unchanged(this)
      ensures kind.Some? ==> kinderr == e
      ensures old(kind).None? ==> (e == Some(EOL) <==> old(stack) != [] && Top(old(stack)) == 0)
      ensures old(kind).None? ==> (e == Some(EOF) <==> old(stack) == [] && old(r) == [])
      ensures old(kind).None? && old(stack) == [] ==> e != Some(ElemTooLarge)
      ensures old(kind).None? ==> e != Some(MoreThanOneValue)
      ensures old(kind).None? && e == Some(EOL) ==> Valid() && r == old(r) && stack == old(stack) && kind == None
      ensures old(kind).None? ==> (e.None? <==>
        && !(old(stack) != [] && Top(old(stack)) == 0)
        && ReadTag(old(r)).Some?
        && var t := ReadTag(old(r)).value;
           (old(stack) == [] || (t.len <= Top(old(stack)) && t.size <= Top(old(stack)))) && t.size <= |old(r)| - t.len)
      ensures old(kind).None? && e.None? ==>
        var t := ReadTag(old(r)).value;
        kind == Some(t.kind) && size == t.size && Took(old(r), old(stack), t.len)
        && (t.kind == Byte ==> byteval == old(r)[0])
    {
      hide Sub, Value, ReadTag;
      if kind.Some? {
        return kinderr;
      }
      var inList := |stack| != 0;
      var listLimit := if inList then Top(stack) else 0;
      if inList && listLimit == 0 {
        return Some(EOL);
      }
      var k, n, err := ReadKind();
      kind, size, e := Some(k), n, err;
      if e.None? {
        if inList && size > listLimit {
          e := Some(ElemTooLarge);
        } else if size > remaining {
          e := Some(TooLarge);
        }
      }
      kinderr := e;
    }

    /** Reads a string. If its header was read before then an error found in that is returned. Otherwise what it reads
        is the encoding of the string it returns; and if the encoding of a string that fits into the list around it is
        ahead (w), it reads that. */
    method ReadString(ghost w: Option<seq<byte>>) returns (res: Result<seq<byte>, StreamError>)
      requires Valid()
      requires w.Some? ==> kind.None? && Encode(Str(w.value)) <= r
      requires w.Some? ==> stack == [] || |Encode(Str(w.value))| <= Top(stack)
      modifies this
      ensures old(kind).Some? && old(kinderr).Some? ==> res == Err(old(kinderr).value) && unchanged(this)
      ensures old(kind).Some? && old(kinderr).None? ==> ContentRead(old(kind).value, old(r), old(stack), res)
      ensures old(kind).Some? && old(kinderr).None? ==>
                && res != Err(EOL) && res != Err(EOF) && res != Err(MoreThanOneValue)
                && byteval == old(byteval) && size == old(size)
      ensures old(kind) == Some(ListKind) && old(kinderr).None? ==> unchanged(this)
      ensures old(kind).None? ==> (res == Err(EOL) <==> old(stack) != [] && Top(old(stack)) == 0)
      ensures old(kind).None? && res.Ok? ==>
                kind == None && Took(old(r), old(stack), |Encode(Str(res.value))|) && Encode(Str(res.value)) <= old(r)
      ensures w.Some? ==> res == Ok(w.value)
    {
      hide Sub, Value, ReadTag, Encode;
      if w.Some? {
        Ahead(r, stack, Str(w.value));
      }
      var e := NextKind();
      if e.Some? {
        return Err(e.value);
      }
      ghost var r1, stack1 := r, stack;
      res := ReadContent();
      if res.Ok? && old(kind).None? {
        ghost var t := ReadTag(old(r)).value;
        StrDecoded(old(r), t, res.value);
        if t.kind == String {
          Together(old(r), old(stack), t.len, r1, stack1, t.size, r, stack);
        }
      }
    }

    /** What reading the value of a header that was read before comes to: the bytes are there and in the list, and a
        single byte below 128 had no header. */
    ghost predicate ContentRead(k: Kind, r0: seq<byte>, stack0: seq<nat>, res: Result<seq<byte>, StreamError>)
      reads this
    {
      match k
      case Byte => res == Ok([byteval]) && kind == None && r == r0 && stack == stack0 && Valid()
      case String =>
        && (res.Ok? <==> (stack0 == [] || size <= Top(stack0)) && size <= |r0| && !(size == 1 && r0[0] < 128))
        && (res.Ok? ==> kind == None && Took(r0, stack0, size) && res.value == r0[..size])
      case ListKind => res == Err(NotAString)
    }

    method ReadContent() returns (res: Result<seq<byte>, StreamError>)
      requires Valid() && kind.Some?
      modifies this`kind, this`stack, this`remaining, this`r
      ensures ContentRead(old(kind).value, old(r), old(stack), res)
      ensures old(kind) == Some(ListKind) ==> unchanged(this)
      ensures res != Err(EOL) && res != Err(EOF) && res != Err(MoreThanOneValue)
    {
      hide Sub;
      if kind == Some(Byte) {
        kind := None;
        return Ok([byteval]);
      } else if kind == Some(ListKind) {
        return Err(NotAString);
      }
      var b, e := ReadFull(size);
      if e.Some? {
        return Err(e.value);
      }
      if size == 1 && b[0] < 128 {
        return Err(NonCanonicalSize);
      }
      return Ok(b);
    }

    /** Enters a list: its size is taken off the list around it, in 64 bits and without a check, and becomes the new
        limit. If its header was read before then an error found in that is returned. */
    method EnterList() returns (n: nat, e: Option<StreamError>)
      requires Valid() && (kind.Some? ==> size <= MAX_UINT64)
      modifies this
      ensures old(kind).Some? && old(kinderr).Some? ==> e == old(kinderr) && unchanged(this)
      ensures old(kind).Some? && old(kind) != Some(ListKind) && old(kinderr).None? ==>
                e == Some(NotAList) && unchanged(this)
      ensures old(kind) == Some(ListKind) && old(kinderr).None? ==>
                && e == None && n == old(size) && Valid() && kind == None
                && r == old(r) && stack == Sub(old(stack), n) + [n]
      ensures old(kind).None? ==> (e == Some(EOL) <==> old(stack) != [] && Top(old(stack)) == 0)
      ensures old(kind).None? ==> (e.None? <==>
        && !(old(stack) != [] && Top(old(stack)) == 0)
        && ReadTag(old(r)).Some?
        && var t := ReadTag(old(r)).value;
           && t.kind == ListKind && t.size <= |old(r)| - t.len
           && (old(stack) == [] || (t.len <= Top(old(stack)) && t.size <= Top(old(stack)))))
      ensures old(kind).None? && e.None? ==>
        var t := ReadTag(old(r)).value;
        n == t.size && Valid() && kind == None && r == old(r)[t.len..] && stack == Sub(Sub(old(stack), t.len), n) + [n]
    {
      hide ReadTag, Value;
      e := NextKind();
      if e.Some? {
        return 0, e;
      }
      if kind != Some(ListKind) {
        return 0, Some(NotAList);
      }
      n, e := size, None;
      if |stack| != 0 {
        stack := stack[|stack| - 1 := (Top(stack) - n) % (MAX_UINT64 + 1)];
      }
      stack := stack + [n];
      kind := None;
      size := 0;
    }

    /** Leaves the innermost list; all of it must have been read. */
    method ListEnd() returns (e: Option<StreamError>)
      requires Valid()
      modifies this`kind, this`stack, this`size
      ensures e == if old(stack) == [] then Some(NotInList) else if Top(old(stack)) > 0 then Some(NotAtEOL) else None
      ensures e.None? ==> Valid() && kind == None && stack == old(stack)[..|old(stack)| - 1]
    {
      if |stack| == 0 {
        return Some(NotInList);
      } else if Top(stack) > 0 {
        return Some(NotAtEOL);
      }
      stack := stack[..|stack| - 1];
      kind := None;
      size := 0;
      return None;
    }

    /** Decodes the next value. What it decodes is the encoding of the item it returns; and if an
        encoding that fits into the list around it is ahead (w), it decodes that. */
    method DecodeInterface(ghost w: Option<Item>) returns (res: Result<Item, StreamError>)
      requires Valid() && kind.None?
      requires w.Some? ==> Encode(w.value) <= r && (stack == [] || |Encode(w.value)| <= Top(stack))
      modifies this
      ensures res == Err(EOL) <==> old(stack) != [] && Top(old(stack)) == 0
      ensures res == Err(EOF) <==> old(stack) == [] && old(r) == []
      ensures res != Err(MoreThanOneValue)
      ensures res == Err(EOL) ==> Valid() && r == old(r) && stack == old(stack) && kind == None
      ensures res.Ok? ==> kind == None && Took(old(r), old(stack), |Encode(res.value)|) && Encode(res.value) <= old(r)
      ensures w.Some? ==> res == Ok(w.value)
      decreases |r|, 0
    {
      hide Sub, Value, ReadTag, Encode, EncodeAll;
      if w.Some? {
        Ahead(r, stack, w.value);
      }
      var e := NextKind();
      if e.Some? {
        return Err(e.value);
      }
      ghost var t, r1, stack1 := ReadTag(old(r)).value, r, stack;
      if kind == Some(ListKind) {
        assert w.Some? ==> w.value.List?;
        var l := DecodeListSlice(if w.Some? then Some(w.value.items) else None);
        if l.Err? {
          return Err(l.error);
        }
        ListDecoded(old(r), t, l.value);
        Together(old(r), old(stack), t.len, r1, stack1, t.size, r, stack);
        return Ok(List(l.value));
      } else {
        var s := ReadString(None);
        if s.Err? {
          return Err(s.error);
        }
        StrDecoded(old(r), t, s.value);
        if t.kind == String {
          Together(old(r), old(stack), t.len, r1, stack1, t.size, r, stack);
        }
        return Ok(Str(s.value));
      }
    }

    method DecodeListSlice(ghost ws: Option<seq<Item>>) returns (res: Result<seq<Item>, StreamError>)
      requires Valid() && kind == Some(ListKind) && kinderr.None? && size <= |r|
      requires ws.Some? ==> EncodeAll(ws.value) <= r && |EncodeAll(ws.value)| == size
      modifies this
      ensures res != Err(EOL) && res != Err(EOF) && res != Err(MoreThanOneValue)
      ensures res.Ok? ==> kind == None && Took(old(r), old(stack), |EncodeAll(res.value)|)
      ensures res.Ok? ==> EncodeAll(res.value) <= old(r)
      ensures res.Ok? ==> |EncodeAll(res.value)| == old(size)
      ensures ws.Some? ==> res == Ok(ws.value)
      decreases |r|, 2
    {
      hide Value, Encode, EncodeAll;
      var n, _ := EnterList();
      ghost var stack1 := stack;
      res := Ok([]);
      NoBytes(ws);
      if n != 0 {
        res := DecodeSliceElems(ws);
        if res.Err? {
          return;
        }
      }
      assert stack == stack1[|stack1| - 1 := 0] && stack[..|stack| - 1] == Sub(old(stack), n);
      var e := ListEnd();
      res := Unless(e, res);
    }

    /** Decodes the items of the list entered last, up to its end. */
    method DecodeSliceElems(ghost ws: Option<seq<Item>>) returns (res: Result<seq<Item>, StreamError>)
      requires Valid() && kind.None? && stack != []
      requires ws.Some? ==> EncodeAll(ws.value) <= r && |EncodeAll(ws.value)| == Top(stack)
      modifies this
      ensures res != Err(EOL) && res != Err(EOF) && res != Err(MoreThanOneValue)
      ensures res.Ok? ==> kind == None && Valid()
      ensures res.Ok? ==> EncodeAll(res.value) <= old(r) && r == old(r)[|EncodeAll(res.value)|..]
      ensures res.Ok? ==> |EncodeAll(res.value)| == Top(old(stack)) && stack == old(stack)[|old(stack)| - 1 := 0]
      ensures ws.Some? ==> res == Ok(ws.value)
      decreases |r|, 1
    {
      hide Value, Encode, EncodeAll, Sub;
      var xs: seq<Item> := [];
      ElemsStart(stack);
      while true
        invariant Valid() && kind.None? && stack == Sub(old(stack), |EncodeAll(xs)|) && |stack| == |old(stack)|
        invariant EncodeAll(xs) <= old(r) && r == old(r)[|EncodeAll(xs)|..]
        invariant ws.Some? ==> xs <= ws.value
        decreases |r|
      {
        ghost var r1, stack1 := r, stack;
        ghost var w := ElemAhead(old(r), old(stack), ws, xs, r, stack);
        var x := DecodeInterface(w);
        if x == Err(EOL) {
          ElemsEnd(old(r), old(stack), xs, stack);
          assert ws.Some? ==> xs == ws.value;
          return Ok(xs);
        } else if x.Err? {
          return Err(x.error);
        }
        ElemsNext(old(r), old(stack), xs, x.value, r1, stack1, r, stack);
        xs := xs + [x.value];
      }
    }
  }

  lemma NothingTaken(stack: seq<nat>)
    requires forall i :: 0 <= i < |stack| ==> stack[i] <= MAX_UINT64
    ensures Sub(stack, 0) == stack
  {
  }

  lemma OneByte(s: seq<byte>)
    requires |s| == 1
    ensures Value(s) == s[0]
  {
    assert s[..0] == [];
  }

  lemma FirstByte(r: seq<byte>, stack: seq<nat>)
    ensures ReadTag(r).Some? ==> r != [] && ReadTag(r).value.len >= 1
  {
  }

  function Unless<T>(e: Option<StreamError>, res: Result<T, StreamError>): Result<T, StreamError> {
    if e.Some? then Err(e.value) else res
  }

  /** What the header of an encoding says. */
  ghost predicate Heads(t: Tag, r: seq<byte>, x: Item) {
    && t.len + t.size == |Encode(x)| && 1 <= t.len <= |r| && t.size <= |r| - t.len
    && (x.List? ==> t.kind == ListKind && t.size == |EncodeAll(x.items)| && EncodeAll(x.items) <= r[t.len..])
    && (x.Str? ==> t.kind == Byte || t.kind == String)
    && (x.Str? && t.kind == Byte ==> x.bytes == [r[0]])
    && (x.Str? && t.kind == String ==> r[t.len..][..t.size] == x.bytes && !(t.size == 1 && r[t.len] < 128))
  }

  lemma StrAhead(r: seq<byte>, s: seq<byte>)
    requires Encode(Str(s)) <= r && |r| <= MAX_UINT64
    ensures ReadTag(r).Some? && Heads(ReadTag(r).value, r, Str(s))
  {
    hide ReadTag, Head;
    var rest := r[|Encode(Str(s))|..];
    assert r == Encode(Str(s)) + rest;
    if |s| == 1 && s[0] <= 0x7F {
      RlpRaw.ByteTag(r);
      assert s == [r[0]];
    } else {
      ReadTagComplete(String, |s|, s + rest);
      assert r == StrHead(|s|) + (s + rest);
    }
  }

  lemma ListAhead(r: seq<byte>, items: seq<Item>)
    requires Encode(List(items)) <= r && |r| <= MAX_UINT64
    ensures ReadTag(r).Some? && Heads(ReadTag(r).value, r, List(items))
  {
    hide ReadTag, Head, EncodeAll;
    var rest := r[|Encode(List(items))|..];
    assert r == Encode(List(items)) + rest;
    var payload := EncodeAll(items);
    ReadTagComplete(ListKind, |payload|, payload + rest);
    assert r == ListHead(|payload|) + (payload + rest);
  }

  /** What the header says of an encoding that is ahead and fits. */
  lemma Ahead(r: seq<byte>, stack: seq<nat>, x: Item)
    requires Encode(x) <= r && |r| <= MAX_UINT64
    requires stack != [] ==> |Encode(x)| <= Top(stack) <= MAX_UINT64
    ensures ReadTag(r).Some? && Heads(ReadTag(r).value, r, x)
    ensures var t := ReadTag(r).value;
            && (stack != [] ==>
                  t.len <= Top(stack) && Top(Sub(stack, t.len)) == Top(stack) - t.len && Sub(stack, t.len) != [])
            && (stack == [] ==> Sub(stack, t.len) == [])
  {
    hide ReadTag, Encode, EncodeAll;
    match x
    case Str(s) => StrAhead(r, s);
    case List(items) => ListAhead(r, items);
  }

  lemma ListDecoded(r: seq<byte>, t: Tag, xs: seq<Item>)
    requires ReadTag(r) == Some(t) && t.kind == ListKind
    requires EncodeAll(xs) <= r[t.len..] && |EncodeAll(xs)| == t.size
    ensures Encode(List(xs)) <= r && |Encode(List(xs))| == t.len + t.size
  {
    hide ReadTag, Head, EncodeAll;
    ReadTagSound(r);
    assert r == r[..t.len] + r[t.len..];
  }

  lemma StrDecoded(r: seq<byte>, t: Tag, s: seq<byte>)
    requires ReadTag(r) == Some(t) && t.kind != ListKind
    requires t.kind == Byte ==> s == [r[0]]
    requires t.kind == String ==> t.size <= |r| - t.len && s == r[t.len..][..t.size] && !(t.size == 1 && r[t.len] < 128)
    ensures Encode(Str(s)) <= r && |Encode(Str(s))| == t.len + t.size && (t.kind == Byte ==> t.size == 0)
  {
    hide ReadTag, Head;
    ReadTagSound(r);
    assert r == r[..t.len] + r[t.len..];
  }

  /** Two reads in a row. */
  lemma Together(r0: seq<byte>, stack0: seq<nat>, a: nat, r1: seq<byte>, stack1: seq<nat>, b: nat,
      r2: seq<byte>, stack2: seq<nat>)
    requires a <= |r0| && r1 == r0[a..] && stack1 == Sub(stack0, a)
    requires b <= |r1| && r2 == r1[b..] && stack2 == Sub(stack1, b)
    ensures a + b <= |r0| && r2 == r0[a + b..] && stack2 == Sub(stack0, a + b)
  {
    SubSub(stack0, a, b);
  }

  lemma NoBytes(ws: Option<seq<Item>>)
    ensures EncodeAll([]) == []
    ensures ws.Some? && |EncodeAll(ws.value)| == 0 ==> ws.value == []
  {
  }

  lemma ElemsStart(stack: seq<nat>)
    requires stack != [] && Top(stack) <= MAX_UINT64
    ensures EncodeAll([]) == [] && Sub(stack, 0) == stack
  {
  }

  /** The next item of a list whose items are ahead; none is left exactly at its end. */
  lemma ElemAhead(r0: seq<byte>, stack0: seq<nat>, ws: Option<seq<Item>>, xs: seq<Item>, r: seq<byte>, stack: seq<nat>)
    returns (w: Option<Item>)
    requires stack0 != [] && Top(stack0) <= MAX_UINT64
    requires ws.Some? ==> EncodeAll(ws.value) <= r0 && |EncodeAll(ws.value)| == Top(stack0) && xs <= ws.value
    requires EncodeAll(xs) <= r0 && r == r0[|EncodeAll(xs)|..] && stack == Sub(stack0, |EncodeAll(xs)|)
    ensures w.Some? ==> stack != [] && Encode(w.value) <= r && |Encode(w.value)| <= Top(stack)
    ensures w.Some? <==> ws.Some? && |xs| < |ws.value|
    ensures w.Some? ==> w.value == ws.value[|xs|]
    ensures ws.Some? && w.None? ==> stack != [] && Top(stack) == 0
  {
    hide Encode, EncodeAll;
    if ws.Some? {
      var all := ws.value;
      assert all == xs + all[|xs|..];
      EncodeAllConcat(xs, all[|xs|..]);
      SubSmall(stack0, |EncodeAll(xs)|);
      if |xs| < |all| {
        EncodeAllSplit(all, |xs|);
        w := Some(all[|xs|]);
      } else {
        assert xs == all;
        w := None;
      }
    } else {
      w := None;
    }
  }

  /** The end of the list: exactly its size was read. */
  lemma ElemsEnd(r0: seq<byte>, stack0: seq<nat>, xs: seq<Item>, stack: seq<nat>)
    requires stack0 != [] && Top(stack0) <= MAX_UINT64 && |r0| <= MAX_UINT64
    requires EncodeAll(xs) <= r0 && stack == Sub(stack0, |EncodeAll(xs)|)
    requires stack != [] && Top(stack) == 0
    ensures |EncodeAll(xs)| == Top(stack0) && stack == stack0[|stack0| - 1 := 0]
  {
    SubZero(stack0, |EncodeAll(xs)|);
  }

  lemma ElemsNext(r0: seq<byte>, stack0: seq<nat>, xs: seq<Item>, x: Item, r1: seq<byte>, stack1: seq<nat>,
      r2: seq<byte>, stack2: seq<nat>)
    requires EncodeAll(xs) <= r0 && r1 == r0[|EncodeAll(xs)|..] && stack1 == Sub(stack0, |EncodeAll(xs)|)
    requires Encode(x) <= r1 && r2 == r1[|Encode(x)|..] && stack2 == Sub(stack1, |Encode(x)|)
    ensures EncodeAll(xs + [x]) <= r0 && r2 == r0[|EncodeAll(xs + [x])|..]
    ensures stack2 == Sub(stack0, |EncodeAll(xs + [x])|)
    ensures |stack2| == |stack0|
  {
    hide Encode, EncodeAll;
    EncodeAllConcat(xs, [x]);
    EncodeAllOne(x);
    Together(r0, stack0, |EncodeAll(xs)|, r1, stack1, |Encode(x)|, r2, stack2);
    assert r0 == r0[..|EncodeAll(xs)|] + r1;
  }

  /** Decodes a byte slice that must hold one value and nothing else. It succeeds exactly on
      encodings, and gives back the item encoded. No input and bytes after a value have errors of their own. */
  method DecodeBytes(b: seq<byte>) returns (res: Result<Item, StreamError>)
    requires |b| <= MAX_UINT64
    ensures forall x :: res == Ok(x) <==> b == Encode(x)
    ensures res == Err(EOF) <==> b == []
    ensures res == Err(MoreThanOneValue) <==> exists x :: Encode(x) < b
  {
    hide Encode;
    ghost var w := EncodedBy(b);
    var s := new Stream(b);
    res := s.DecodeInterface(w);
    if res.Ok? {
      assert w == Some(res.value);
      if |s.r| > 0 {
        assert Encode(res.value) < b;
        return Err(MoreThanOneValue);
      }
    }
  }

  /** The item whose encoding b starts with, if there is one. */
  lemma EncodedBy(b: seq<byte>) returns (w: Option<Item>)
    requires |b| <= MAX_UINT64
    ensures w.Some? ==> Encode(w.value) <= b
    ensures forall x :: Encode(x) <= b ==> w == Some(x)
  {
    hide Encode;
    if x :| Encode(x) <= b {
      w := Some(x);
      forall y | Encode(y) <= b ensures y == x {
        assert b == Encode(x) + b[|Encode(x)|..] == Encode(y) + b[|Encode(y)|..];
        RlpRaw.EncodePrefixFree(x, b[|Encode(x)|..], y, b[|Encode(y)|..]);
      }
    } else {
      w := None;
    }
  }
}
