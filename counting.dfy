/** Integer facts the draw proofs rest on: Euclidean division, sums of
    sequences, and a pigeonhole argument over the values 0 .. n-1. */
module Counting {
  import opened Seqs

  // ---------------------------------------------------------------------------
  // Euclidean division
  // ---------------------------------------------------------------------------

  lemma MulMonotone(n: int, d: int)
    requires n > 0 && d >= 1
    ensures n * d >= n
  {
    assert n * d == n * (d - 1) + n;
  }

  /** Quotient and remainder are the only pair that rebuilds `x`. */
  lemma ModUnique(x: int, n: int, q: int, r: int)
    requires n > 0 && 0 <= r < n && x == n * q + r
    ensures x % n == r && x / n == q
  {
    var q', r' := x / n, x % n;
    assert x == n * q' + r';
    if q > q' {
      MulMonotone(n, q - q');
      assert false;
    } else if q < q' {
      MulMonotone(n, q' - q);
      assert false;
    }
  }

  /** Adding a multiple of `n` does not change the remainder. */
  lemma ModAddMultiple(x: int, n: int, q: int)
    requires n > 0
    ensures (x + n * q) % n == x % n
  {
    ModUnique(x + n * q, n, x / n + q, x % n);
  }

  /** Adding a multiple of `n` to a value below `n` gives it back as remainder. */
  lemma ModOfMultiplePlus(x: int, n: int, q: int)
    requires 0 <= x < n
    ensures (x + n * q) % n == x
  {
    ModUnique(x + n * q, n, q, x);
  }

  // ---------------------------------------------------------------------------
  // Sums
  // ---------------------------------------------------------------------------

  function Sum(s: seq<int>): int {
    if s == [] then 0 else Sum(s[..|s| - 1]) + s[|s| - 1]
  }

  /** The values 0, 1, ..., n-1 in order. */
  function Range(n: nat): (r: seq<int>)
    ensures |r| == n && forall i :: 0 <= i < n ==> r[i] == i
  {
    seq(n, i => i)
  }

  /** 0 + 1 + ... + (n-1). */
  function Triangle(n: nat): int {
    if n == 0 then 0 else Triangle(n - 1) + (n - 1)
  }

  lemma {:induction false} SumRange(n: nat)
    ensures Sum(Range(n)) == Triangle(n)
  {
    if n > 0 {
      assert Range(n)[..n - 1] == Range(n - 1);
      SumRange(n - 1);
    }
  }

  lemma {:induction false} SumAppend(a: seq<int>, b: seq<int>)
    ensures Sum(a + b) == Sum(a) + Sum(b)
    decreases |b|
  {
    if b == [] {
      assert a + b == a;
    } else {
      assert (a + b)[..|a + b| - 1] == a + b[..|b| - 1];
      SumAppend(a, b[..|b| - 1]);
    }
  }

  /** Rearranging a sequence does not change its sum. */
  lemma {:induction false} SumPermutation(s: seq<int>, t: seq<int>)
    requires multiset(s) == multiset(t)
    ensures Sum(s) == Sum(t)
    decreases |s|
  {
    if s != [] {
      var x := s[|s| - 1];
      var init := s[..|s| - 1];
      assert s == init + [x];
      assert x in multiset(t);
      var i :| 0 <= i < |t| && t[i] == x;
      var rest := t[..i] + t[i + 1..];
      RemoveOne(t, i);
      assert multiset(s) == multiset(init) + multiset{x};
      forall o ensures multiset(init)[o] == multiset(rest)[o] {
        assert multiset(s)[o] == multiset(t)[o];
      }
      assert multiset(init) == multiset(rest);
      SumPermutation(init, rest);
      SumRemove(t, i);
    }
  }

  /** Taking out the cell at `i` takes one copy of its value out of the multiset. */
  lemma RemoveOne(t: seq<int>, i: nat)
    requires i < |t|
    ensures multiset(t) == multiset(t[..i] + t[i + 1..]) + multiset{t[i]}
  {
    SplitAt(t, i);
  }

  /** A sequence is what comes before `i`, the cell at `i`, and what follows. */
  lemma SplitAt(t: seq<int>, i: nat)
    requires i < |t|
    ensures t == (t[..i] + [t[i]]) + t[i + 1..]
  {
  }

  /** Taking out the cell at `i` takes its value out of the sum. */
  lemma SumRemove(t: seq<int>, i: nat)
    requires i < |t|
    ensures Sum(t) == Sum(t[..i] + t[i + 1..]) + t[i]
  {
    var before, after := t[..i], t[i + 1..];
    var upTo := before + [t[i]];
    SplitAt(t, i);
    SumAppend(upTo, after);
    SumAppend(before, after);
    assert upTo[..|upTo| - 1] == before;
    assert Sum(upTo) == Sum(before) + t[i];
  }

  /** Splitting every term as j + n * Q[j] + D[j] splits the sum the same way. */
  lemma {:induction false} SumDecompose(p: seq<int>, q: seq<int>, d: seq<int>, n: int)
    requires |q| == |p| && |d| == |p|
    requires forall j :: 0 <= j < |p| ==> p[j] == j + n * q[j] + d[j]
    ensures Sum(p) == Triangle(|p|) + n * Sum(q) + Sum(d)
    decreases |p|
  {
    if p != [] {
      var m := |p| - 1;
      SumDecompose(p[..m], q[..m], d[..m], n);
      assert n * Sum(q) == n * Sum(q[..m]) + n * q[m];
    }
  }

  /** For even n >= 2, n does not divide 0 + 1 + ... + (n-1). */
  lemma EvenTriangleNotMultiple(n: nat)
    requires n >= 2 && n % 2 == 0
    ensures Triangle(n) % n != 0
  {
    TriangleClosed(n);
    var h := n / 2;
    assert n == 2 * h;
    assert 2 * Triangle(n) == 2 * h * (n - 1);
    assert Triangle(n) == h * (n - 1);
    assert h * (n - 1) == h + n * (h - 1);
    ModOfMultiplePlus(h, n, h - 1);
  }

  lemma {:induction false} TriangleClosed(n: nat)
    ensures 2 * Triangle(n) == n * (n - 1)
  {
    if n > 0 {
      TriangleClosed(n - 1);
    }
  }

  // ---------------------------------------------------------------------------
  // Pigeonhole over 0 .. n-1
  // ---------------------------------------------------------------------------

  /** How many elements of `m` lie in 0 .. n-1. */
  function CountBelow(m: multiset<int>, n: nat): int {
    if n == 0 then 0 else CountBelow(m, n - 1) + m[n - 1]
  }

  lemma {:induction false} CountBelowAdd(m: multiset<int>, x: int, n: nat)
    ensures CountBelow(m + multiset{x}, n) == CountBelow(m, n) + (if 0 <= x < n then 1 else 0)
  {
    if n > 0 {
      CountBelowAdd(m, x, n - 1);
    }
  }

  lemma {:induction false} CountBelowEmpty(n: nat)
    ensures CountBelow(multiset{}, n) == 0
  {
    if n > 0 {
      CountBelowEmpty(n - 1);
    }
  }

  /** A sequence of values in 0 .. n-1 has all its elements counted. */
  lemma {:induction false} CountBelowOfSeq(s: seq<int>, n: nat)
    requires forall j :: 0 <= j < |s| ==> 0 <= s[j] < n
    ensures CountBelow(multiset(s), n) == |s|
    decreases |s|
  {
    if s == [] {
      CountBelowEmpty(n);
    } else {
      var m := |s| - 1;
      assert s == s[..m] + [s[m]];
      assert multiset(s) == multiset(s[..m]) + multiset{s[m]};
      CountBelowOfSeq(s[..m], n);
      assert CountBelow(multiset(s[..m]), n) == m;
      CountBelowAdd(multiset(s[..m]), s[m], n);
      var ms := multiset(s[..m]) + multiset{s[m]};
      assert CountBelow(ms, n) == m + 1;
      assert multiset(s) == ms;
    }
  }

  lemma {:induction false} CountBelowAtLeast(m: multiset<int>, n: nat, j: int)
    requires forall k :: 0 <= k < n ==> m[k] >= 1
    ensures CountBelow(m, n) >= n
    ensures 0 <= j < n && m[j] >= 2 ==> CountBelow(m, n) >= n + 1
  {
    if n > 0 {
      CountBelowAtLeast(m, n - 1, j);
    }
  }

  lemma {:induction false} CountBelowAtMost(m: multiset<int>, n: nat, j: int)
    requires forall k :: 0 <= k < n ==> m[k] <= 1
    ensures CountBelow(m, n) <= n
    ensures 0 <= j < n && m[j] == 0 ==> CountBelow(m, n) <= n - 1
  {
    if n > 0 {
      CountBelowAtMost(m, n - 1, j);
    }
  }

  lemma {:induction false} RangeCounts(n: nat)
    ensures forall x :: multiset(Range(n))[x] == if 0 <= x < n then 1 else 0
  {
    if n > 0 {
      assert Range(n) == Range(n - 1) + [n - 1];
      RangeCounts(n - 1);
    }
  }

  /** n values in 0 .. n-1, each occurring exactly once, rearrange 0 .. n-1. */
  lemma OnceEachIsRange(s: seq<int>, n: nat)
    requires |s| == n && forall j :: 0 <= j < n ==> 0 <= s[j] < n
    requires forall k :: 0 <= k < n ==> multiset(s)[k] == 1
    ensures multiset(s) == multiset(Range(n))
  {
    RangeCounts(n);
    forall x ensures multiset(s)[x] == multiset(Range(n))[x] {
      if !(0 <= x < n) {
        assert forall j :: 0 <= j < n ==> s[j] != x;
        assert x !in s;
      }
    }
  }

  /** n values in 0 .. n-1 that hit every value rearrange 0 .. n-1. */
  lemma CoveringIsRange(s: seq<int>, n: nat)
    requires |s| == n && forall j :: 0 <= j < n ==> 0 <= s[j] < n
    requires forall k :: 0 <= k < n ==> k in s
    ensures multiset(s) == multiset(Range(n))
  {
    CountBelowOfSeq(s, n);
    forall k | 0 <= k < n ensures multiset(s)[k] == 1 {
      forall j | 0 <= j < n ensures multiset(s)[j] >= 1 {
        assert j in s;
        assert j in multiset(s);
      }
      CountBelowAtLeast(multiset(s), n, k);
    }
    OnceEachIsRange(s, n);
  }

  /** n distinct values in 0 .. n-1 rearrange 0 .. n-1. */
  lemma DistinctIsRange(s: seq<int>, n: nat)
    requires |s| == n && forall j :: 0 <= j < n ==> 0 <= s[j] < n
    requires Distinct(s)
    ensures multiset(s) == multiset(Range(n))
  {
    CountBelowOfSeq(s, n);
    DistinctIffCountsAtMostOne(s);
    forall k | 0 <= k < n ensures multiset(s)[k] == 1 {
      CountBelowAtMost(multiset(s), n, k);
    }
    OnceEachIsRange(s, n);
  }
}
