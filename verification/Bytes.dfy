/** Bytes and big-endian integers, shared by the freezer index and the RLP codec. */
module Bytes {

  const MAX_UINT64: nat := 0xFFFF_FFFF_FFFF_FFFF

  type byte = x: int | 0 <= x < 256

  /** 256 to the power k. */
  function Pow256(k: nat): (p: nat)
    ensures p > 0
  {
    if k == 0 then 1 else 256 * Pow256(k - 1)
  }

  /** The number written big endian in `s`. */
  function Value(s: seq<byte>): nat {
    if s == [] then 0 else Value(s[..|s| - 1]) * 256 + s[|s| - 1]
  }

  /** The k low-order bytes of n, big endian. */
  function BigEndian(n: nat, k: nat): (s: seq<byte>)
    ensures |s| == k
  {
    if k == 0 then [] else BigEndian(n / 256, k - 1) + [n % 256]
  }

  lemma {:induction false} ValueBound(s: seq<byte>)
    ensures Value(s) < Pow256(|s|)
  {
    if s != [] {
      ValueBound(s[..|s| - 1]);
    }
  }

  /** Reading back a big-endian number gives it, when it fits the width. */
  lemma {:induction false} ValueOfBigEndian(n: nat, k: nat)
    requires n < Pow256(k)
    ensures Value(BigEndian(n, k)) == n
  {
    if k > 0 {
      ValueOfBigEndian(n / 256, k - 1);
      assert BigEndian(n, k)[..k - 1] == BigEndian(n / 256, k - 1);
    }
  }

  /** Writing back a number read from k bytes gives those bytes. */
  lemma {:induction false} BigEndianOfValue(s: seq<byte>)
    ensures BigEndian(Value(s), |s|) == s
  {
    if s != [] {
      BigEndianOfValue(s[..|s| - 1]);
      assert s == s[..|s| - 1] + [s[|s| - 1]];
    }
  }

  /** The first byte counts most. */
  lemma {:induction false} ValueFirst(b: byte, s: seq<byte>)
    ensures Value([b] + s) == b * Pow256(|s|) + Value(s)
  {
    var t := [b] + s;
    if s == [] {
      assert t[..0] == [];
    } else {
      ValueFirst(b, s[..|s| - 1]);
      assert t[..|t| - 1] == [b] + s[..|s| - 1];
    }
  }

  /** A file resized to n bytes: cut short, or padded with zero bytes. */
  function Resize(s: seq<byte>, n: nat): (r: seq<byte>)
    ensures |r| == n
    ensures n <= |s| ==> r == s[..n]
  {
    if n <= |s| then s[..n] else s + seq(n - |s|, _ => 0)
  }
}
