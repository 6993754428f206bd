/** What the steps of a binary heap do to its keys; the smallest key is at the root. */
module Heap {

  function Parent(j: nat): nat
    requires j > 0
  {
    (j - 1) / 2
  }

  /** The first n keys are a heap. */
  ghost predicate IsHeap(ks: seq<real>, n: nat)
    requires n <= |ks|
  {
    forall c :: 1 <= c < n ==> ks[Parent(c)] <= ks[c]
  }

  function Swapped<T>(s: seq<T>, i: nat, j: nat): (r: seq<T>)
    requires i < |s| && j < |s|
    ensures |r| == |s|
  {
    s[i := s[j]][j := s[i]]
  }

  lemma SwappedMultiset<T>(s: seq<T>, i: nat, j: nat)
    requires i < |s| && j < |s|
    ensures multiset(Swapped(s, i, j)) == multiset(s)
  {
  }

  lemma Cancelled<T>(a: multiset<T>, x: T, b: multiset<T>)
    requires a + multiset{x} == b + multiset{x}
    ensures a == b
  {
    assert a == a + multiset{x} - multiset{x};
  }

  lemma SplitLast<T>(s: seq<T>)
    requires s != []
    ensures s == s[..|s| - 1] + [s[|s| - 1]] && multiset(s) == multiset(s[..|s| - 1]) + multiset{s[|s| - 1]}
  {
    assert s == s[..|s| - 1] + [s[|s| - 1]];
  }

  lemma SplitAt<T>(s: seq<T>, k: nat)
    requires k < |s|
    ensures s == s[..k] + [s[k]] + s[k + 1..] && multiset(s) == multiset(s[..k] + s[k + 1..]) + multiset{s[k]}
  {
    assert s == s[..k] + [s[k]] + s[k + 1..];
  }

  /** Equal multisets still are equal without the last element of one of them. */
  lemma WithoutLast<T>(s: seq<T>, t: seq<T>) returns (k: nat)
    requires s != [] && multiset(s) == multiset(t)
    ensures k < |t| && t[k] == s[|s| - 1] && multiset(s[..|s| - 1]) == multiset(t[..k] + t[k + 1..])
  {
    var x := s[|s| - 1];
    SplitLast(s);
    assert x in multiset(t);
    k :| 0 <= k < |t| && t[k] == x;
    SplitAt(t, k);
    Cancelled(multiset(s[..|s| - 1]), x, multiset(t[..k] + t[k + 1..]));
  }

  /** The root of a heap is its smallest key. */
  lemma {:induction false} RootIsLeast(ks: seq<real>, n: nat, c: nat)
    requires n <= |ks| && IsHeap(ks, n) && c < n
    ensures ks[0] <= ks[c]
    decreases c
  {
    if c > 0 {
      RootIsLeast(ks, n, Parent(c));
    }
  }

  lemma HeapPrefix(ks: seq<real>, n: nat, m: nat)
    requires m <= n <= |ks| && IsHeap(ks, n)
    ensures IsHeap(ks, m) && IsHeap(ks[..m], m)
  {
  }

  // ---------- A key that may be too small for its place ----------

  /** A heap but for key j, which may be smaller than its parent; its children fit below that. */
  ghost predicate UpOk(ks: seq<real>, n: nat, j: nat)
    requires n <= |ks|
  {
    && (forall c :: 1 <= c < n && c != j ==> ks[Parent(c)] <= ks[c])
    && (j > 0 ==> forall c :: 1 <= c < n && Parent(c) == j ==> ks[Parent(j)] <= ks[c])
  }

  lemma UpStart(ks: seq<real>, n: nat)
    requires 1 <= n <= |ks| && IsHeap(ks, n - 1)
    ensures UpOk(ks, n, n - 1)
  {
  }

  lemma UpStep(ks: seq<real>, n: nat, j: nat)
    requires n <= |ks| && 0 < j < n && UpOk(ks, n, j) && ks[j] < ks[Parent(j)]
    ensures UpOk(Swapped(ks, Parent(j), j), n, Parent(j))
  {
    var i := Parent(j);
    var ks' := Swapped(ks, i, j);
    forall c | 1 <= c < n && c != i ensures ks'[Parent(c)] <= ks'[c] {
      if c != j {
        assert ks[Parent(c)] <= ks[c];
      }
    }
    if i > 0 {
      forall c | 1 <= c < n && Parent(c) == i ensures ks'[Parent(i)] <= ks'[c] {
        assert ks[Parent(i)] <= ks[i];
        if c != j {
          assert ks[i] <= ks[c];
        }
      }
    }
  }

  lemma UpDone(ks: seq<real>, n: nat, j: nat)
    requires n <= |ks| && j <= n && UpOk(ks, n, j)
    requires j == 0 || j == n || ks[Parent(j)] <= ks[j]
    ensures IsHeap(ks, n)
  {
  }

  // ---------- A key that may be too large for its place, or anything ----------

  /** A heap but for key i, of which nothing is known; its children fit below its parent. */
  ghost predicate Hole(ks: seq<real>, n: nat, i: nat)
    requires n <= |ks|
  {
    && (forall c :: 1 <= c < n && c != i && Parent(c) != i ==> ks[Parent(c)] <= ks[c])
    && (i > 0 ==> forall c :: 1 <= c < n && Parent(c) == i ==> ks[Parent(i)] <= ks[c])
  }

  /** Exchanging a key of a heap with its last one leaves a hole in a smaller heap. */
  lemma HoleSwapped(ks: seq<real>, i: nat, n: nat)
    requires n < |ks| && i <= n && IsHeap(ks, n + 1)
    ensures Hole(Swapped(ks, i, n), n, i)
  {
    var ks' := Swapped(ks, i, n);
    if i > 0 {
      forall c | 1 <= c < n && Parent(c) == i ensures ks'[Parent(i)] <= ks'[c] {
        assert ks[Parent(i)] <= ks[i] && ks[i] <= ks[c];
      }
    }
  }

  /** j is the smaller child of i, the right one if both are the same. */
  ghost predicate SmallerChild(ks: seq<real>, n: nat, i: nat, j: nat)
    requires n <= |ks|
  {
    && 2 * i + 1 < n
    && (if 2 * i + 2 < n && !(ks[2 * i + 1] < ks[2 * i + 2]) then j == 2 * i + 2 else j == 2 * i + 1)
  }

  lemma DownStep(ks: seq<real>, n: nat, i: nat, j: nat)
    requires n <= |ks| && i < n && Hole(ks, n, i) && SmallerChild(ks, n, i, j) && ks[j] < ks[i]
    ensures var ks' := Swapped(ks, i, j);
            Hole(ks', n, j) && Parent(j) == i && ks'[i] <= ks'[j] && (i > 0 ==> ks'[Parent(i)] <= ks'[i])
  {
    var ks' := Swapped(ks, i, j);
    assert Parent(j) == i;
    forall c | 1 <= c < n && c != j && Parent(c) != j ensures ks'[Parent(c)] <= ks'[c] {
      if Parent(c) == i {
        assert c == 2 * i + 1 || c == 2 * i + 2;
      } else if c == i {
        assert ks[Parent(i)] <= ks[j];
      } else {
        assert ks[Parent(c)] <= ks[c];
      }
    }
    forall c | 1 <= c < n && Parent(c) == j ensures ks'[Parent(j)] <= ks'[c] {
      assert ks[Parent(c)] <= ks[c];
    }
  }

  /** The key has nothing smaller below it: only its parent may still be larger. */
  lemma DownDone(ks: seq<real>, n: nat, i: nat)
    requires n <= |ks| && Hole(ks, n, i)
    requires 2 * i + 1 >= n || exists j: nat :: SmallerChild(ks, n, i, j) && ks[i] <= ks[j]
    ensures UpOk(ks, n, i)
  {
    forall c | 1 <= c < n && Parent(c) == i ensures ks[i] <= ks[c] {
      assert c == 2 * i + 1 || c == 2 * i + 2;
    }
    forall c | 1 <= c < n && c != i ensures ks[Parent(c)] <= ks[c] {
    }
  }
}
