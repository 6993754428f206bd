/** The exponentially-decaying sample: a reservoir kept as a heap of weighted values. */
module ExpDecay {
  import opened Heap

  const RESCALE_THRESHOLD: real := 3600.0

  datatype Sample = Sample(k: real, v: int)

  // ---------- Sequences of samples ----------

  ghost function Keys(s: seq<Sample>): (ks: seq<real>)
    ensures |ks| == |s| && forall i :: 0 <= i < |s| ==> ks[i] == s[i].k
  {
    seq(|s|, i requires 0 <= i < |s| => s[i].k)
  }

  function Scaled(x: Sample, f: real): Sample {
    Sample(x.k * f, x.v)
  }

  /** Every key multiplied by f. */
  ghost function Scale(s: seq<Sample>, f: real): (r: seq<Sample>)
    ensures |r| == |s| && forall i :: 0 <= i < |s| ==> r[i] == Scaled(s[i], f)
  {
    seq(|s|, i requires 0 <= i < |s| => Scaled(s[i], f))
  }

  ghost predicate Least(x: Sample, c: multiset<Sample>) {
    forall y :: y in c ==> x.k <= y.k
  }

  lemma KeysSwapped(s: seq<Sample>, i: nat, j: nat)
    requires i < |s| && j < |s|
    ensures Keys(Swapped(s, i, j)) == Swapped(Keys(s), i, j)
  {
  }

  /** The same samples in the first n places in another order, and nothing else touched. */
  ghost predicate Rearranged(a: seq<Sample>, b: seq<Sample>, n: nat)
    requires n <= |a|
  {
    |a| == |b| && multiset(a[..n]) == multiset(b[..n]) && a[n..] == b[n..]
  }

  lemma RearrangedSwap(a: seq<Sample>, b: seq<Sample>, n: nat, i: nat, j: nat)
    requires n <= |a| && Rearranged(a, b, n) && i < n && j < n
    ensures Rearranged(a, Swapped(b, i, j), n)
  {
    var c := Swapped(b, i, j);
    assert c[..n] == Swapped(b[..n], i, j);
    SwappedMultiset(b[..n], i, j);
    assert c[n..] == b[n..];
  }

  // ---------- The heap ----------

  class SampleHeap {
    const s: array<Sample>
    var len: nat

    ghost predicate Valid()
      reads this, s
    {
      len <= s.Length && IsHeap(Keys(s[..]), len)
    }

    ghost function Items(): seq<Sample>
      requires len <= s.Length
      reads this, s
    {
      s[..len]
    }

    /** The samples with their keys multiplied by w. */
    ghost function Bag(w: real): multiset<Sample>
      requires len <= s.Length
      reads this, s
    {
      multiset(Scale(Items(), w))
    }

    constructor (reservoirSize: nat)
      ensures Valid() && len == 0 && s.Length == reservoirSize && fresh(s)
    {
      s := new Sample[reservoirSize](_ => Sample(0.0, 0));
      len := 0;
    }

    method Clear()
      requires Valid()
      modifies this
      ensures Valid() && len == 0
    {
      len := 0;
    }

    method Up(j0: nat)
      requires j0 < len <= s.Length && UpOk(Keys(s[..]), len, j0)
      modifies s
      ensures Valid() && Rearranged(old(s[..]), s[..], len)
    {
      hide UpOk, IsHeap, Swapped, Rearranged;
      var j: nat := j0;
      RearrangedSelf(s[..], len);
      while true
        invariant j < len && UpOk(Keys(s[..]), len, j) && Rearranged(old(s[..]), s[..], len)
        decreases j
      {
        if j == 0 { break; }
        var i: nat := (j - 1) / 2;
        if !(s[j].k < s[i].k) { break; }
        UpStep(Keys(s[..]), len, j);
        Exchange(i, j, old(s[..]), len);
        j := i;
      }
      UpDone(Keys(s[..]), len, j);
    }

    method Exchange(i: nat, j: nat, ghost before: seq<Sample>, ghost n: nat)
      requires i < n <= s.Length == |before| && j < n && Rearranged(before, s[..], n)
      modifies s
      ensures s[..] == Swapped(old(s[..]), i, j) && Keys(s[..]) == Swapped(Keys(old(s[..])), i, j)
      ensures Rearranged(before, s[..], n)
    {
      KeysSwapped(s[..], i, j);
      RearrangedSwap(before, s[..], n, i, j);
      s[i], s[j] := s[j], s[i];
      assert s[..] == Swapped(old(s[..]), i, j);
    }

    method Down(i0: nat, n: nat)
      requires i0 <= n <= s.Length && Hole(Keys(s[..]), n, i0)
      requires 0 < i0 < n ==> Keys(s[..])[Parent(i0)] <= Keys(s[..])[i0]
      modifies s
      ensures IsHeap(Keys(s[..]), n) && Rearranged(old(s[..]), s[..], n)
    {
      hide UpOk, IsHeap, Swapped, Rearranged, Hole, SmallerChild;
      var i: nat := i0;
      RearrangedSelf(s[..], n);
      while 2 * i + 1 < n
        invariant i0 <= i <= n && Hole(Keys(s[..]), n, i) && Rearranged(old(s[..]), s[..], n)
        invariant 0 < i < n ==> Keys(s[..])[Parent(i)] <= Keys(s[..])[i]
        decreases n - i
      {
        var j := SmallestChild(i, n);
        if !(s[j].k < s[i].k) { break; }
        DownStep(Keys(s[..]), n, i, j);
        Exchange(i, j, old(s[..]), n);
        i := j;
      }
      DownDone(Keys(s[..]), n, i);
      UpDone(Keys(s[..]), n, i);
    }

    method SmallestChild(i: nat, n: nat) returns (j: nat)
      requires 2 * i + 1 < n <= s.Length
      ensures SmallerChild(Keys(s[..]), n, i, j)
    {
      j := 2 * i + 1;
      if j + 1 < n && !(s[j].k < s[j + 1].k) {
        j := j + 1;
      }
    }

    method Push(x: Sample)
      requires Valid() && len < s.Length
      modifies this, s
      ensures Valid() && len == old(len) + 1 && multiset(Items()) == old(multiset(Items())) + multiset{x}
      ensures s[..][len..] == old(s[..])[len..]
    {
      var n := len;
      len := len + 1;
      s[n] := x;
      assert Keys(s[..])[..n] == old(Keys(s[..]))[..n];
      UpStart(Keys(s[..]), len);
      ghost var a := s[..];
      assert a[..len] == old(s[..n]) + [x];
      Up(n);
    }

    method Pop() returns (x: Sample)
      requires Valid() && len > 0
      modifies this, s
      ensures Valid() && len == old(len) - 1 && old(multiset(Items())) == multiset(Items()) + multiset{x}
      ensures x == old(s[0]) && Least(x, old(multiset(Items())))
    {
      hide IsHeap, Hole, Rearranged;
      var n := len - 1;
      HoleSwapped(Keys(s[..]), 0, n);
      RearrangedSelf(s[..], len);
      RootLeast(s[..], len);
      Exchange(0, n, s[..], len);
      ghost var a := s[..];
      Down(0, n);
      PoppedItems(old(s[..]), a, s[..], n);
      n := len;
      x := s[n - 1];
      len := n - 1;
    }

    /** Pushes the samples, scaled, into the array they are read from. */
    method Rescale(f: real)
      requires Valid()
      modifies this, s
      ensures Valid() && len == old(len) && multiset(Items()) == multiset(Scale(old(Items()), f))
    {
      hide IsHeap, Keys, Scaled, Scale;
      var n := len;
      ghost var items, all := Items(), s[..];
      Clear();
      NoneScaled(f);
      for i := 0 to n
        invariant Valid() && len == i && n <= s.Length
        invariant multiset(Items()) == multiset(Scale(items[..i], f))
        invariant s[..][i..] == all[i..]
      {
        var x := s[i];
        assert x == s[..][i..][0] == all[i..][0] == items[i];
        ScaleAppend(items[..i], x, f);
        assert items[..i + 1] == items[..i] + [x];
        assert s[..][i + 1..] == s[..][i..][1..] == all[i..][1..] == all[i + 1..];
        Push(Scaled(x, f));
      }
      assert items[..n] == items;
    }

    method Add(x: Sample, ghost w: real)
      requires Valid() && len < s.Length
      modifies this, s
      ensures Valid() && len == old(len) + 1 <= s.Length && Bag(w) == old(Bag(w)) + multiset{Scaled(x, w)}
    {
      hide IsHeap, Keys, Scaled, Scale;
      Push(x);
      ScaleOneMore(old(Items()), x, Items(), w);
    }

    /** Drops a sample of the least key if there is no room for another. */
    method MakeRoom(ghost w: real) returns (ghost m: Sample)
      requires Valid() && s.Length > 0 && w > 0.0
      modifies this, s
      ensures Valid() && len == (if old(len) < s.Length then old(len) else s.Length - 1)
      ensures old(len) < s.Length ==> Bag(w) == old(Bag(w))
      ensures old(len) == s.Length ==> old(Bag(w)) == Bag(w) + multiset{m} && Least(m, old(Bag(w)))
      ensures old(len) == s.Length ==> m == Scaled(old(s[0]), w)
    {
      hide IsHeap, Keys, Scaled, Scale, Least;
      m := Sample(0.0, 0);
      if len == s.Length {
        var x := Pop();
        ScaleOneMore(Items(), x, old(Items()), w);
        ScaleLeast(old(Items()), x, w);
        m := Scaled(x, w);
      }
    }
  }

  lemma RootLeast(a: seq<Sample>, n: nat)
    requires 0 < n <= |a| && IsHeap(Keys(a), n)
    ensures forall y :: y in multiset(a[..n]) ==> a[0].k <= y.k
  {
    forall y | y in multiset(a[..n]) ensures a[0].k <= y.k {
      assert y in a[..n];
      var i :| 0 <= i < n && a[i] == y;
      RootIsLeast(Keys(a), n, i);
    }
  }

  lemma PoppedItems(a: seq<Sample>, b: seq<Sample>, c: seq<Sample>, n: nat)
    requires n < |a| && b == Swapped(a, 0, n) && Rearranged(b, c, n)
    ensures c[n] == a[0] && multiset(a[..n + 1]) == multiset(c[..n]) + multiset{c[n]}
  {
    assert c[n] == c[n..][0] == b[n..][0] == b[n];
    RearrangedSelf(a, n + 1);
    RearrangedSwap(a, a, n + 1, 0, n);
    assert b[..n + 1] == b[..n] + [b[n]];
  }

  lemma RearrangedSelf(a: seq<Sample>, n: nat)
    requires n <= |a|
    ensures Rearranged(a, a, n)
  {
  }

  // ---------- Scaling keys ----------

  lemma NoneScaled(f: real)
    ensures Scale([], f) == []
  {
  }

  lemma ScaleAppend(s: seq<Sample>, x: Sample, f: real)
    ensures Scale(s + [x], f) == Scale(s, f) + [Scaled(x, f)]
  {
  }

  lemma ScaleInsert(a: seq<Sample>, x: Sample, b: seq<Sample>, f: real)
    ensures multiset(Scale(a + [x] + b, f)) == multiset(Scale(a + b, f)) + multiset{Scaled(x, f)}
  {
    assert Scale(a + [x] + b, f) == Scale(a, f) + [Scaled(x, f)] + Scale(b, f);
    assert Scale(a + b, f) == Scale(a, f) + Scale(b, f);
  }

  lemma {:induction false} ScalePermuted(s: seq<Sample>, t: seq<Sample>, f: real)
    requires multiset(s) == multiset(t)
    ensures multiset(Scale(s, f)) == multiset(Scale(t, f))
    decreases |s|
  {
    hide Scale, Scaled;
    if s == [] {
      assert |multiset(t)| == 0;
    } else {
      var n := |s| - 1;
      var k := WithoutLast(s, t);
      ScalePermuted(s[..n], t[..k] + t[k + 1..], f);
      SplitLast(s);
      ScaleAppend(s[..n], s[n], f);
      SplitAt(t, k);
      ScaleInsert(t[..k], t[k], t[k + 1..], f);
    }
  }

  lemma ScaleOneMore(s: seq<Sample>, x: Sample, t: seq<Sample>, f: real)
    requires multiset(t) == multiset(s) + multiset{x}
    ensures multiset(Scale(t, f)) == multiset(Scale(s, f)) + multiset{Scaled(x, f)}
  {
    hide Scale, Scaled;
    ScalePermuted(t, s + [x], f);
    ScaleAppend(s, x, f);
  }

  /** A positive factor keeps a least key least. */
  lemma ScaleLeast(s: seq<Sample>, x: Sample, f: real)
    requires f > 0.0 && Least(x, multiset(s))
    ensures Least(Scaled(x, f), multiset(Scale(s, f)))
  {
    hide Scaled;
    forall y | y in multiset(Scale(s, f)) ensures Scaled(x, f).k <= y.k {
      assert y in Scale(s, f);
      var i :| 0 <= i < |s| && Scale(s, f)[i] == y;
      assert s[i] in multiset(s);
      ScaledOrder(x, s[i], f);
    }
  }

  lemma ScaledOrder(x: Sample, y: Sample, f: real)
    requires f > 0.0
    ensures x.k <= y.k <==> Scaled(x, f).k <= Scaled(y, f).k
  {
    if x.k > y.k {
      assert (x.k - y.k) * f > 0.0;
    }
  }

  // ---------- The exponential ----------

  ghost predicate Additive(exp: real -> real, x: real, y: real) {
    exp(x + y) == exp(x) * exp(y)
  }

  /** All that is used of the exponential function. */
  ghost predicate IsExp(exp: real -> real) {
    (forall x :: exp(x) > 0.0) && (forall x, y :: Additive(exp, x, y))
  }

  lemma ExpSum(exp: real -> real, x: real, y: real)
    requires IsExp(exp)
    ensures exp(x + y) == exp(x) * exp(y)
  {
    assert Additive(exp, x, y);
  }

  lemma ExpPositive(exp: real -> real, x: real)
    requires IsExp(exp)
    ensures exp(x) > 0.0
  {
  }

  function Product(x: real, y: real): real {
    x * y
  }

  lemma ProductSums(alpha: real, t0: real, t: real)
    ensures Product(t - t0, alpha) + Product(alpha, t0) == Product(alpha, t)
    ensures Product(-alpha, t - t0) + Product(alpha, t) == Product(alpha, t0)
  {
  }

  lemma PlainFactor(exp: real -> real, alpha: real, t: real, t0: real)
    ensures exp(Product(-alpha, t - t0)) == exp(-alpha * (t - t0))
  {
  }

  lemma PlainKey(exp: real -> real, alpha: real, t: real, t0: real, u: real)
    requires u > 0.0
    ensures Quotient(exp(Product(alpha, t)), u) == exp(alpha * t) / u
    ensures Quotient(exp(Product(t - t0, alpha)), u) == exp((t - t0) * alpha) / u
  {
  }

  /** Of two samples that draw the same number, the one taken d later has a key exp(alpha * d) times as large. */
  lemma LaterKey(exp: real -> real, alpha: real, t: real, d: real, u: real)
    requires IsExp(exp) && u > 0.0
    ensures exp(alpha * (t + d)) / u == exp(alpha * t) / u * exp(alpha * d)
  {
    assert alpha * (t + d) == alpha * t + alpha * d;
    ExpSum(exp, alpha * t, alpha * d);
  }

  function Quotient(x: real, y: real): real
    requires y > 0.0
  {
    x / y
  }

  lemma Weighed(a: real, b: real, c: real, u: real)
    requires u > 0.0 && c == a * b
    ensures Quotient(a, u) * b == Quotient(c, u)
  {
  }

  /** The key of a new sample is what it would be with t0 at 0, divided by the heap's weight. */
  lemma NewKey(exp: real -> real, alpha: real, t0: real, t: real, u: real, v: int)
    requires IsExp(exp) && u > 0.0
    ensures Scaled(Sample(Quotient(exp(Product(t - t0, alpha)), u), v), exp(Product(alpha, t0)))
              == Sample(Quotient(exp(Product(alpha, t)), u), v)
  {
    hide IsExp, Product, Quotient;
    ProductSums(alpha, t0, t);
    ExpSum(exp, Product(t - t0, alpha), Product(alpha, t0));
    Weighed(exp(Product(t - t0, alpha)), exp(Product(alpha, t0)), exp(Product(alpha, t)), u);
  }

  /** The rescaled samples weigh at t what the samples weighed at t0. */
  lemma Rekeyed(exp: real -> real, alpha: real, items: seq<Sample>, items': seq<Sample>, t0: real, t: real, f: real)
    requires IsExp(exp) && f == exp(Product(-alpha, t - t0)) && multiset(items') == multiset(Scale(items, f))
    ensures multiset(Scale(items', exp(Product(alpha, t)))) == multiset(Scale(items, exp(Product(alpha, t0))))
  {
    hide Scale, IsExp, Product;
    ProductSums(alpha, t0, t);
    ExpSum(exp, Product(-alpha, t - t0), Product(alpha, t));
    assert f * exp(Product(alpha, t)) == exp(Product(alpha, t0));
    ScalePermuted(items', Scale(items, f), exp(Product(alpha, t)));
    ScaleTwice(items, f, exp(Product(alpha, t)), exp(Product(alpha, t0)));
  }

  /** Every sample of b is one of a with its key multiplied by f. */
  ghost predicate Reweighed(a: seq<Sample>, b: seq<Sample>, f: real) {
    |a| == |b| && forall i :: 0 <= i < |b| ==> exists j :: 0 <= j < |a| && b[i] == Sample(a[j].k * f, a[j].v)
  }

  lemma ScaleReweighs(a: seq<Sample>, b: seq<Sample>, f: real)
    requires multiset(b) == multiset(Scale(a, f))
    ensures Reweighed(a, b, f)
  {
    assert |multiset(b)| == |multiset(Scale(a, f))|;
    forall i | 0 <= i < |b| ensures exists j :: 0 <= j < |a| && b[i] == Sample(a[j].k * f, a[j].v) {
      assert b[i] in multiset(Scale(a, f));
      var j :| 0 <= j < |a| && Scale(a, f)[j] == b[i];
      assert b[i] == Scaled(a[j], f);
    }
  }

  // ---------- What the reservoir holds ----------

  /** No key in b is above a key in a. */
  ghost predicate Above(a: multiset<Sample>, b: multiset<Sample>) {
    forall x, y :: x in a && y in b ==> y.k <= x.k
  }

  function Min(a: nat, b: nat): nat {
    if a <= b then a else b
  }

  lemma MinIs(a: nat, b: nat)
    requires b > 0
    ensures Min(a, b) == (if b <= a then b else a) && Min(b, b - 1) == b - 1
    ensures b <= a ==> Min(a, b - 1) == b - 1
    ensures a < b ==> Min(a, b) == a && Min(a, b - 1) == a
  {
  }

  /** The samples seen so far, and which of those before the newest were kept and which dropped. */
  datatype History = History(seen: seq<Sample>, best: multiset<Sample>, dropped: multiset<Sample>)

  /**
   * Of all samples seen so far, c holds the newest and, of the earlier ones, as many of the largest
   * as there is room for beside it.
   */
  ghost predicate Reservoir(c: multiset<Sample>, h: History, size: nat) {
    if h.seen == [] then
      c == multiset{} && h.best == multiset{} && h.dropped == multiset{}
    else
      && multiset(h.seen[..|h.seen| - 1]) == h.best + h.dropped
      && c == h.best + multiset{h.seen[|h.seen| - 1]}
      && Above(h.best, h.dropped)
      && |h.best| == Min(size, |h.seen|) - 1
  }

  ghost function Advance(h: History, rest: multiset<Sample>, m: Sample, size: nat, x: Sample): History {
    History(h.seen + [x], rest, if |h.seen| < size then h.dropped else h.dropped + multiset{m})
  }

  lemma Advanced(c: multiset<Sample>, rest: multiset<Sample>, c': multiset<Sample>, m: Sample, h: History,
      size: nat, x: Sample)
    requires 0 < size && Reservoir(c, h, size) && c' == rest + multiset{x}
    requires |h.seen| < size ==> rest == c
    requires size <= |h.seen| ==> c == rest + multiset{m} && Least(m, c)
    ensures Reservoir(c', Advance(h, rest, m, size, x), size)
    ensures Advance(h, rest, m, size, x).seen == h.seen + [x]
  {
    hide Reservoir, Least;
    if |h.seen| < size {
      ReservoirGrows(c, h, size, m, x);
    } else {
      ReservoirEvicts(c, h, size, m, rest, x);
    }
  }

  /** With room left nothing is dropped. */
  lemma ReservoirGrows(c: multiset<Sample>, h: History, size: nat, m: Sample, x: Sample)
    requires Reservoir(c, h, size) && |h.seen| < size
    ensures Reservoir(c + multiset{x}, Advance(h, c, m, size, x), size)
  {
    var n := |h.seen|;
    assert (h.seen + [x])[..n] == h.seen;
    if n > 0 {
      SplitLast(h.seen);
      assert |h.best + h.dropped| == n - 1;
      assert h.dropped == multiset{};
    }
  }

  /** When full the least key makes room for the newest. */
  lemma ReservoirEvicts(c: multiset<Sample>, h: History, size: nat, m: Sample, rest: multiset<Sample>, x: Sample)
    requires 0 < size <= |h.seen| && Reservoir(c, h, size)
    requires c == rest + multiset{m} && Least(m, c)
    ensures Reservoir(rest + multiset{x}, Advance(h, rest, m, size, x), size)
  {
    var n := |h.seen|;
    var last := h.seen[n - 1];
    assert (h.seen + [x])[..n] == h.seen && (h.seen + [x])[n] == x;
    SplitLast(h.seen);
    Regrouped(h.best, h.dropped, last, rest, m);
    AboveEvicts(h.best, h.dropped, last, rest, m);
    assert |c| == |h.best| + 1 == |rest| + 1;
  }

  lemma Regrouped(best: multiset<Sample>, dropped: multiset<Sample>, last: Sample, rest: multiset<Sample>, m: Sample)
    requires best + multiset{last} == rest + multiset{m}
    ensures best + dropped + multiset{last} == rest + (dropped + multiset{m})
  {
    assert best + dropped + multiset{last} == (best + multiset{last}) + dropped;
  }

  lemma AboveEvicts(best: multiset<Sample>, dropped: multiset<Sample>, last: Sample, rest: multiset<Sample>, m: Sample)
    requires Above(best, dropped) && best + multiset{last} == rest + multiset{m} && Least(m, best + multiset{last})
    ensures Above(rest, dropped + multiset{m})
  {
    var c := best + multiset{last};
    assert m in c && forall p :: p in rest ==> p in c;
    if m !in best {
      Cancelled(rest, m, best);
    }
    forall p, y | p in rest && y in dropped + multiset{m} ensures y.k <= p.k {
      assert p in c;
      if y != m && p !in best {
        assert y in dropped && m in best;
        assert y.k <= m.k;
      }
    }
  }

  // ---------- The sample ----------

  class ExpDecaySample {
    const alpha: real
    const reservoirSize: nat
    const exp: real -> real
    const values: SampleHeap
    var count: nat
    var t0: real
    var t1: real
    /** All samples since the last clearing, keyed as if t0 had always been 0. */
    ghost var history: History

    /** The heap's samples keyed as if t0 were 0. */
    ghost function Contents(): multiset<Sample>
      requires values.len <= values.s.Length
      reads this`t0, values, values.s
    {
      values.Bag(exp(Product(alpha, t0)))
    }

    /** No key dropped so far is above one that is held: the sample is of the largest keys seen. */
    ghost predicate HoldsLargest()
      requires values.len <= values.s.Length
      reads this, values, values.s
    {
      Above(Contents(), history.dropped)
    }

    ghost predicate Valid()
      reads this, values, values.s
    {
      && IsExp(exp) && reservoirSize > 0 && values.s.Length == reservoirSize && values.Valid()
      && |history.seen| == count && values.len == Min(count, reservoirSize)
      && Reservoir(Contents(), history, reservoirSize)
    }

    constructor (reservoirSize: nat, alpha: real, exp: real -> real, now: real)
      requires reservoirSize > 0 && IsExp(exp)
      ensures Valid() && history.seen == [] && count == 0 && fresh(values) && fresh(values.s)
      ensures this.reservoirSize == reservoirSize && this.alpha == alpha && this.exp == exp && t0 == now
    {
      this.reservoirSize, this.alpha, this.exp := reservoirSize, alpha, exp;
      values := new SampleHeap(reservoirSize);
      count, t0, t1 := 0, now, now + RESCALE_THRESHOLD;
      history := History([], multiset{}, multiset{});
    }

    method Clear(now: real)
      requires Valid()
      modifies this, values
      ensures Valid() && history.seen == [] && count == 0 && t0 == now && t1 == now + 3600.0
    {
      count, t0, t1 := 0, now, now + RESCALE_THRESHOLD;
      values.Clear();
      history := History([], multiset{}, multiset{});
    }

    /** Samples v at time t; u is the random number drawn for it. */
    method Update(t: real, v: int, u: real)
      requires Valid() && u > 0.0
      modifies this, values, values.s
      ensures Valid() && count == old(count) + 1
      ensures history.seen == old(history.seen) + [Sample(exp(alpha * t) / u, v)]
      ensures if t > old(t1) then t0 == t && t1 == t + 3600.0 else t0 == old(t0) && t1 == old(t1)
      ensures old(HoldsLargest()) && old(values.len) < reservoirSize ==> HoldsLargest()
      ensures old(HoldsLargest()) && old(values.len) == reservoirSize ==>
                (HoldsLargest() <==> old(values.s[0].k) <= exp((t - old(t0)) * alpha) / u)
    {
      hide Product, Quotient, Valid, HoldsLargest, Contents;
      PlainKey(exp, alpha, t, t0, u);
      Take(t, v, u);
    }

    method Take(t: real, v: int, u: real)
      requires Valid() && u > 0.0
      modifies this, values, values.s
      ensures Valid() && count == old(count) + 1
      ensures history.seen == old(history.seen) + [Sample(Quotient(exp(Product(alpha, t)), u), v)]
      ensures if t > old(t1) then t0 == t && t1 == t + 3600.0 else t0 == old(t0) && t1 == old(t1)
      ensures old(HoldsLargest()) && old(values.len) < reservoirSize ==> HoldsLargest()
      ensures old(HoldsLargest()) && old(values.len) == reservoirSize ==>
                (HoldsLargest() <==> old(values.s[0].k) <= Quotient(exp(Product(t - old(t0), alpha)), u))
    {
      hide Product, Quotient, Reservoir, IsExp, Scale, Reweighed;
      Add(t, v, u);
      if t > t1 {
        Decay(t);
      }
    }

    /** Moves t0 to t, with every key multiplied by exp(-alpha * (t - t0)). */
    method Decay(t: real)
      requires Valid()
      modifies this`t0, this`t1, values, values.s
      ensures Valid() && t0 == t && t1 == t + 3600.0 && Contents() == old(Contents())
      ensures Reweighed(old(values.Items()), values.Items(), exp(-alpha * (t - old(t0))))
    {
      hide Scale, Reservoir, IsHeap, Keys, IsExp, Product, Reweighed, Above;
      var f := exp(-alpha * (t - t0));
      PlainFactor(exp, alpha, t, t0);
      ghost var items := values.Items();
      Rebase(t, f);
      ScaleReweighs(items, values.Items(), f);
    }

    method Rebase(t: real, f: real)
      requires Valid() && f == exp(Product(-alpha, t - t0))
      modifies this`t0, this`t1, values, values.s
      ensures Valid() && t0 == t && t1 == t + 3600.0 && Contents() == old(Contents())
      ensures multiset(values.Items()) == multiset(Scale(old(values.Items()), f))
    {
      hide Scale, Reservoir, IsHeap, Keys, IsExp, Product;
      ghost var items := values.Items();
      values.Rescale(f);
      Rekeyed(exp, alpha, items, values.Items(), t0, t, f);
      t0 := t;
      t1 := t0 + RESCALE_THRESHOLD;
    }

    /** Every sample held is one that was seen: its key in the heap times exp(alpha * t0) is exp(alpha * t) / u, for the
        time t and the number u it was taken with. */
    lemma HeldKey(i: nat) returns (j: nat)
      requires Valid() && i < values.len
      ensures j < |history.seen|
      ensures history.seen[j].v == values.s[i].v && history.seen[j].k == values.s[i].k * exp(alpha * t0)
    {
      hide IsExp, IsHeap, Keys, Reservoir;
      var x := Scale(values.Items(), exp(Product(alpha, t0)))[i];
      assert x in Contents();
      HeldSeen(Contents(), history, reservoirSize, x);
      j :| 0 <= j < |history.seen| && history.seen[j] == x;
      assert Product(alpha, t0) == alpha * t0;
    }

    method Add(t: real, v: int, u: real)
      requires Valid() && u > 0.0
      modifies this, values, values.s
      ensures Valid() && count == old(count) + 1
      ensures history.seen == old(history.seen) + [Sample(Quotient(exp(Product(alpha, t)), u), v)]
      ensures t0 == old(t0) && t1 == old(t1)
      ensures old(HoldsLargest()) && old(values.len) < reservoirSize ==> HoldsLargest()
      ensures old(HoldsLargest()) && old(values.len) == reservoirSize ==>
                (HoldsLargest() <==> old(values.s[0].k) <= Quotient(exp(Product(t - old(t0), alpha)), u))
    {
      hide Scaled, Reservoir, IsExp, IsHeap, Keys, Product, Quotient, SampleHeap.Bag, SampleHeap.Valid, Min,
        Least, Advance, Above;
      ghost var x, w := Sample(Quotient(exp(Product(alpha, t)), u), v), exp(Product(alpha, t0));
      ExpPositive(exp, Product(alpha, t0));
      MinIs(count, reservoirSize);
      MinIs(count + 1, reservoirSize);
      count := count + 1;
      ghost var m := values.MakeRoom(w);
      ghost var rest := values.Bag(w);
      var sample := Sample(Quotient(exp(Product(t - t0, alpha)), u), v);
      NewKey(exp, alpha, t0, t, u, v);
      values.Add(sample, w);
      Advanced(old(Contents()), rest, Contents(), m, history, reservoirSize, x);
      LargestKept(old(Contents()), rest, Contents(), m, history, reservoirSize, x);
      ScaledOrder(old(values.s[0]), sample, w);
      history := Advance(history, rest, m, reservoirSize, x);
    }
  }

  lemma HeldSeen(c: multiset<Sample>, h: History, size: nat, x: Sample)
    requires Reservoir(c, h, size) && x in c
    ensures x in h.seen
  {
    var n := |h.seen| - 1;
    if x in h.best {
      assert x in multiset(h.seen[..n]);
    }
  }

  lemma ScaleTwice(s: seq<Sample>, f: real, g: real, h: real)
    requires f * g == h
    ensures Scale(Scale(s, f), g) == Scale(s, h)
  {
    forall i | 0 <= i < |s| ensures Scale(Scale(s, f), g)[i] == Scale(s, h)[i] {
      assert s[i].k * f * g == s[i].k * (f * g);
    }
  }

  /** If the largest keys were held, they still are while there is room, and when there is none if and only
      if the least key held is no larger than the new one. */
  lemma LargestKept(c: multiset<Sample>, rest: multiset<Sample>, c': multiset<Sample>, m: Sample, h: History,
      size: nat, x: Sample)
    requires 0 < size && Reservoir(c, h, size) && c' == rest + multiset{x}
    requires |h.seen| < size ==> rest == c
    requires size <= |h.seen| ==> c == rest + multiset{m} && Least(m, c)
    ensures Above(c, h.dropped) && |h.seen| < size ==> Above(c', Advance(h, rest, m, size, x).dropped)
    ensures Above(c, h.dropped) && size <= |h.seen| ==>
              (Above(c', Advance(h, rest, m, size, x).dropped) <==> m.k <= x.k)
  {
    if |h.seen| < size {
      NoneDropped(c, h, size);
    } else {
      assert m in c && forall p :: p in rest ==> p in c;
      assert x in c' && m in h.dropped + multiset{m};
    }
  }

  lemma NoneDropped(c: multiset<Sample>, h: History, size: nat)
    requires Reservoir(c, h, size) && |h.seen| < size
    ensures h.dropped == multiset{}
  {
    if h.seen != [] {
      SplitLast(h.seen);
      assert |h.best + h.dropped| == |h.seen| - 1;
    }
  }

  /** A reservoir of one place that gives up a key of 4 for a key of 2. */
  method SmallerKept() returns (s: ExpDecaySample)
    ensures s.Valid() && s.history.seen == [Sample(4.0, 1), Sample(2.0, 2)]
    ensures s.Contents() == multiset{Sample(2.0, 2)} && !s.HoldsLargest()
  {
    hide ExpDecaySample.Contents, Above, Reservoir, IsHeap, Keys;
    Constant();
    s := new ExpDecaySample(1, 0.0, _ => 1.0, 0.0);
    s.Update(0.0, 1, 0.25);
    assert s.history.seen == [Sample(4.0, 1)];
    s.Update(0.0, 2, 0.5);
    assert s.history.seen == [Sample(4.0, 1), Sample(2.0, 2)];
    OnePlace(s.Contents(), s.history, Sample(4.0, 1), Sample(2.0, 2));
  }

  lemma Constant()
    ensures IsExp(_ => 1.0)
  {
  }

  lemma OnePlace(c: multiset<Sample>, h: History, x: Sample, y: Sample)
    requires Reservoir(c, h, 1) && h.seen == [x, y] && y.k < x.k
    ensures c == multiset{y} && !Above(c, h.dropped)
  {
    assert h.seen[..1] == [x];
    assert h.best == multiset{};
    assert y in c && x in h.dropped;
  }
}
