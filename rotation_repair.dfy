/** When the bounded repair of drawingAlgorithm can and cannot fail.

    Number the givers 0 .. n-1 and let p[j] be the giver whose id the
    shuffle left at receiver position j.  After k right shifts, position i
    holds receiver (i - k) mod n, so giver i meets themself exactly when
    p[(i - k) mod n] = i, that is when the offset (p[j] - j) mod n of
    receiver j = (i - k) mod n equals k.  If every one of the n shifts
    0 .. n-1 had a self-match, every offset 0 .. n-1 would occur, and since
    there are n receivers each would occur once; the offsets would then add
    up to 0 + 1 + ... + (n-1), which must also be a multiple of n because
    the p[j] are a rearrangement of the j.  For even n it is not, so some
    shift below n leaves no self-match, and when n <= MaxAttempts the repair
    audits it.  For odd n nothing forbids the offsets from being all
    different, and for three participants half of the shuffles do it. */
module RotationRepair {
  import opened Seqs
  import opened Counting
  import opened DrawUtil

  /** The position of `x` in `s`. */
  function IndexOf<T(==)>(s: seq<T>, x: T): (i: nat)
    requires x in s
    ensures i < |s| && s[i] == x
  {
    if s[0] == x then 0 else 1 + IndexOf(s[1..], x)
  }

  /** For each shuffled receiver, the position of the same id among the givers. */
  function Origins<T(==)>(givers: seq<T>, shuffled: seq<T>): (p: seq<int>)
    requires forall j :: 0 <= j < |shuffled| ==> shuffled[j] in givers
    ensures |p| == |shuffled|
    ensures forall j :: 0 <= j < |p| ==> 0 <= p[j] < |givers| && givers[p[j]] == shuffled[j]
  {
    seq(|shuffled|, j requires 0 <= j < |shuffled| => IndexOf(givers, shuffled[j]))
  }

  /** For each receiver, the number of right shifts (mod n) that puts it in
      front of its own giver. */
  function Offsets(p: seq<int>, n: int): (d: seq<int>)
    requires n > 0
    ensures |d| == |p|
    ensures forall j :: 0 <= j < |p| ==> d[j] == (p[j] - j) % n
  {
    seq(|p|, j requires 0 <= j < |p| => (p[j] - j) % n)
  }

  /** A self-match after `k` shifts, at giver `i`, means some receiver has
      offset `k`. */
  lemma ClashGivesOffset<T>(givers: seq<T>, shuffled: seq<T>, k: int, i: int)
    requires Distinct(givers) && |shuffled| == |givers| && 0 <= k < |givers| && 0 <= i < |givers|
    requires forall j :: 0 <= j < |shuffled| ==> shuffled[j] in givers
    requires givers[i] == Rotated(shuffled, k)[i]
    ensures Offsets(Origins(givers, shuffled), |givers|)[(i - k) % |givers|] == k
    ensures k in Offsets(Origins(givers, shuffled), |givers|)
  {
    var n := |givers|;
    var p := Origins(givers, shuffled);
    var d := Offsets(p, n);
    var j := (i - k) % n;
    RotatedAt(shuffled, k, i);
    assert givers[p[j]] == givers[i];
    assert p[j] == i;
    OffsetOfShift(i, k, n);
    assert d[j] == k;
  }

  /** The receiver that k shifts bring to position i has offset k. */
  lemma OffsetOfShift(i: int, k: int, n: int)
    requires 0 <= k < n
    ensures (i - (i - k) % n) % n == k
  {
    var q := (i - k) / n;
    var j := (i - k) % n;
    assert i - k == n * q + j;
    ModOfMultiplePlus(k, n, q);
    assert i - j == k + n * q;
  }

  /** If every shift below n has a self-match, the offsets are a
      rearrangement of 0 .. n-1. */
  lemma AllShiftsClashOffsets<T>(givers: seq<T>, shuffled: seq<T>)
    requires Distinct(givers) && |shuffled| == |givers| > 0
    requires forall j :: 0 <= j < |shuffled| ==> shuffled[j] in givers
    requires forall k :: 0 <= k < |givers| ==> SelfMatchAfter(givers, shuffled, k)
    ensures multiset(Offsets(Origins(givers, shuffled), |givers|)) == multiset(Range(|givers|))
  {
    var n := |givers|;
    var d := Offsets(Origins(givers, shuffled), n);
    forall k | 0 <= k < n ensures k in d {
      assert SelfMatchAfter(givers, shuffled, k);
      var i :| 0 <= i < n && givers[i] == Rotated(shuffled, k)[i];
      ClashGivesOffset(givers, shuffled, k, i);
    }
    CoveringIsRange(d, n);
  }

  /** A rearrangement of distinct givers has distinct origins, so the
      origins are a rearrangement of 0 .. n-1. */
  lemma OriginsRearrangeRange<T>(givers: seq<T>, shuffled: seq<T>)
    requires Distinct(givers) && |shuffled| == |givers|
    requires multiset(shuffled) == multiset(givers)
    requires forall j :: 0 <= j < |shuffled| ==> shuffled[j] in givers
    ensures multiset(Origins(givers, shuffled)) == multiset(Range(|givers|))
  {
    var p := Origins(givers, shuffled);
    DistinctPermutation(givers, shuffled);
    forall a, b | 0 <= a < b < |p| ensures p[a] != p[b] {
      assert shuffled[a] != shuffled[b];
    }
    DistinctIsRange(p, |givers|);
  }

  /** When the origins rearrange 0 .. n-1, the offsets add up to a multiple
      of n. */
  lemma OffsetSumDivisible(p: seq<int>, n: int)
    requires n > 0 && |p| == n && multiset(p) == multiset(Range(n))
    ensures Sum(Offsets(p, n)) % n == 0
  {
    var d := Offsets(p, n);
    var q := seq(n, j requires 0 <= j < n => (p[j] - j) / n);
    forall j | 0 <= j < n ensures p[j] == j + n * q[j] + d[j] {
      assert p[j] - j == n * ((p[j] - j) / n) + (p[j] - j) % n;
    }
    SumPermutation(p, Range(n));
    SumRange(n);
    SumDecompose(p, q, d, n);
    assert Sum(d) == n * -Sum(q);
    ModUnique(Sum(d), n, -Sum(q), 0);
  }

  /** With distinct ids and an even, non-zero number of them, some number of
      shifts below n leaves no self-match, whatever the shuffle. */
  lemma SomeShiftClean<T>(givers: seq<T>, shuffled: seq<T>)
    requires Distinct(givers) && |shuffled| == |givers| && multiset(shuffled) == multiset(givers)
    requires |givers| >= 2 && |givers| % 2 == 0
    ensures exists k :: 0 <= k < |givers| && !SelfMatchAfter(givers, shuffled, k)
  {
    var n := |givers|;
    if forall k :: 0 <= k < n ==> SelfMatchAfter(givers, shuffled, k) {
      forall j | 0 <= j < n ensures shuffled[j] in givers {
        assert shuffled[j] in multiset(givers);
      }
      var p := Origins(givers, shuffled);
      var d := Offsets(p, n);
      AllShiftsClashOffsets(givers, shuffled);
      SumPermutation(d, Range(n));
      SumRange(n);
      OriginsRearrangeRange(givers, shuffled);
      OffsetSumDivisible(p, n);
      EvenTriangleNotMultiple(n);
      assert false;
    }
  }

  /** With an even number of distinct ids, at most MaxAttempts of them, the
      draw never throws. */
  lemma EvenSizeNeverThrows<T>(participantIds: seq<T>, rand: seq<real>)
    requires RandomDraws(rand, |participantIds|)
    requires Distinct(participantIds)
    requires |participantIds| % 2 == 0 && |participantIds| <= MaxAttempts
    ensures Draw(participantIds, rand).Ok?
  {
    if |participantIds| == 0 {
      DrawDegenerate(participantIds, rand);
    } else {
      var shuffled := Shuffled(participantIds, rand);
      ShuffledPermutation(participantIds, rand);
      SomeShiftClean(participantIds, shuffled);
      RepairFailsIff(participantIds, shuffled);
    }
  }

  /** The Math.random values 0.5, 0.5, 0.0 make the shuffle swap the last two
      of three ids and leave the first in place. */
  lemma ShuffleThree<T>(a: T, b: T, c: T)
    ensures Shuffled([a, b, c], [0.5, 0.5, 0.0]) == [a, c, b]
  {
    var rand := [0.5, 0.5, 0.0];
    assert PickIndex(0.5, 3) == 1;
    assert PickIndex(0.5, 2) == 1;
    assert PickIndex(0.0, 1) == 0;
    assert Swap([a, b, c], 2, 1) == [a, c, b];
    assert Swap([a, c, b], 1, 1) == [a, c, b];
    assert Swap([a, c, b], 0, 0) == [a, c, b];
    assert ShuffleFrom([a, b, c], rand, 3) == ShuffleFrom([a, c, b], rand, 2);
    assert ShuffleFrom([a, c, b], rand, 2) == ShuffleFrom([a, c, b], rand, 1);
    assert ShuffleFrom([a, c, b], rand, 1) == ShuffleFrom([a, c, b], rand, 0);
  }

  /** Every shift of [a, c, b] against the givers [a, b, c], however many,
      keeps a self-match. */
  lemma TranspositionAlwaysClashes<T>(a: T, b: T, c: T)
    ensures forall k: nat :: SelfMatchAfter([a, b, c], [a, c, b], k)
  {
    var givers, shuffled := [a, b, c], [a, c, b];
    forall k: nat ensures SelfMatchAfter(givers, shuffled, k) {
      var r := k % 3;
      var i := if r == 0 then 0 else if r == 1 then 2 else 1;
      RotatedAt(shuffled, k, i);
      ModAddMultiple(i - r, 3, -(k / 3));
      assert i - k == (i - r) + 3 * -(k / 3);
      assert givers[i] == Rotated(shuffled, k)[i];
    }
  }

  /** Three participants: when Math.random returns 0.5, 0.5, 0.0 the draw
      throws, although a -> b -> c -> a would have been a valid pairing. */
  lemma ThreeCanThrow<T>(a: T, b: T, c: T)
    requires a != b && b != c && a != c
    ensures Draw([a, b, c], [0.5, 0.5, 0.0]) == Err(NoSelfMatchError)
    ensures Derangement(map[a := b, b := c, c := a], [a, b, c])
  {
    ShuffleThree(a, b, c);
    TranspositionThrows(a, b, c, 0);
    RepairFailsIff([a, b, c], [a, c, b]);
    CycleDerangement(a, b, c);
  }

  /** a -> b -> c -> a is a derangement of three distinct ids. */
  lemma CycleDerangement<T>(a: T, b: T, c: T)
    requires a != b && b != c && a != c
    ensures Derangement(map[a := b, b := c, c := a], [a, b, c])
  {
    assert Elems([a, b, c]) == {a, b, c};
  }

  /** Shifting `j` times and then `k` times is shifting `j + k` times. */
  lemma {:induction false} RotatedAdd<T>(s: seq<T>, j: nat, k: nat)
    ensures Rotated(Rotated(s, j), k) == Rotated(s, j + k)
  {
    if k > 0 && s != [] {
      RotatedAdd(s, j, k - 1);
    }
  }

  /** The other two transpositions of three ids, [b, a, c] and [c, b, a], are
      one and two shifts of [a, c, b], so every shift of them keeps a
      self-match too. */
  lemma ShiftedTranspositionClashes<T>(a: T, b: T, c: T, j: nat)
    ensures forall k: nat :: SelfMatchAfter([a, b, c], Rotated([a, c, b], j), k)
  {
    TranspositionAlwaysClashes(a, b, c);
    forall k: nat ensures SelfMatchAfter([a, b, c], Rotated([a, c, b], j), k) {
      RotatedAdd([a, c, b], j, k);
      assert SelfMatchAfter([a, b, c], [a, c, b], j + k);
    }
  }

  /** A rearrangement of three distinct ids is one of their six orders. */
  lemma ThreeOrderings<T>(a: T, b: T, c: T, shuffled: seq<T>)
    requires a != b && b != c && a != c
    requires |shuffled| == 3 && multiset(shuffled) == multiset([a, b, c])
    ensures || shuffled == [a, b, c] || shuffled == [b, c, a] || shuffled == [c, a, b]
            || shuffled == [a, c, b] || shuffled == [b, a, c] || shuffled == [c, b, a]
  {
    ThreeCells(a, b, c, shuffled);
    var x, y, z := shuffled[0], shuffled[1], shuffled[2];
    assert shuffled == [x, y, z];
    if x == a {
      if y == b { assert z == c; } else { assert y == c && z == b; }
    } else if x == b {
      if y == c { assert z == a; } else { assert y == a && z == c; }
    } else {
      if y == a { assert z == b; } else { assert y == b && z == a; }
    }
  }

  /** The cells of a rearrangement of three distinct ids are distinct and
      each is one of the ids. */
  lemma ThreeCells<T>(a: T, b: T, c: T, shuffled: seq<T>)
    requires a != b && b != c && a != c
    requires |shuffled| == 3 && multiset(shuffled) == multiset([a, b, c])
    ensures shuffled[0] != shuffled[1] && shuffled[1] != shuffled[2] && shuffled[0] != shuffled[2]
    ensures forall i :: 0 <= i < 3 ==> shuffled[i] == a || shuffled[i] == b || shuffled[i] == c
  {
    DistinctPermutation([a, b, c], shuffled);
    forall i | 0 <= i < 3 ensures shuffled[i] == a || shuffled[i] == b || shuffled[i] == c {
      assert shuffled[i] in multiset([a, b, c]);
    }
  }

  /** The three orders that swap two ids throw. */
  lemma TranspositionThrows<T>(a: T, b: T, c: T, j: nat)
    ensures Repair([a, b, c], Rotated([a, c, b], j)).Err?
  {
    ShiftedTranspositionClashes(a, b, c, j);
    RepairFailsIff([a, b, c], Rotated([a, c, b], j));
  }

  /** The identity is repaired by one shift, and the two 3-cycles need none. */
  lemma NonTranspositionReturns<T>(a: T, b: T, c: T, shuffled: seq<T>)
    requires a != b && b != c && a != c
    requires shuffled == [a, b, c] || shuffled == [b, c, a] || shuffled == [c, a, b]
    ensures Repair([a, b, c], shuffled).Ok?
  {
    var k := if shuffled == [a, b, c] then 1 else 0;
    if k == 1 {
      IdentityCleanAfterOneShift(a, b, c);
    } else {
      CycleClean(a, b, c, shuffled);
    }
    RepairFailsIff([a, b, c], shuffled);
  }

  /** The two 3-cycles have no self-match before any shift. */
  lemma CycleClean<T>(a: T, b: T, c: T, shuffled: seq<T>)
    requires a != b && b != c && a != c
    requires shuffled == [b, c, a] || shuffled == [c, a, b]
    ensures !SelfMatchAfter([a, b, c], shuffled, 0)
  {
    assert Rotated(shuffled, 0) == shuffled;
  }

  /** One shift turns the identity into the 3-cycle [c, a, b], which has no
      self-match. */
  lemma IdentityCleanAfterOneShift<T>(a: T, b: T, c: T)
    requires a != b && b != c && a != c
    ensures !SelfMatchAfter([a, b, c], [a, b, c], 1)
  {
    var shifted := Rotated([a, b, c], 1);
    assert shifted == RotateRight(Rotated([a, b, c], 0));
    assert shifted == [c, a, b];
  }

  /** Exactly which shuffles of three distinct ids make the draw throw: the
      three that swap two ids and leave the third in place. */
  lemma ThreeThrowsIff<T>(a: T, b: T, c: T, shuffled: seq<T>)
    requires a != b && b != c && a != c
    requires |shuffled| == 3 && multiset(shuffled) == multiset([a, b, c])
    ensures Repair([a, b, c], shuffled).Err? <==>
      (shuffled == [a, c, b] || shuffled == [b, a, c] || shuffled == [c, b, a])
  {
    ThreeOrderings(a, b, c, shuffled);
    assert Rotated([a, c, b], 1) == [b, a, c];
    assert Rotated([a, c, b], 2) == [c, b, a];
    if shuffled == [a, c, b] || shuffled == [b, a, c] || shuffled == [c, b, a] {
      var j: nat := if shuffled[0] == a then 0 else if shuffled[0] == b then 1 else 2;
      assert Rotated([a, c, b], j) == shuffled;
      TranspositionThrows(a, b, c, j);
    } else {
      NonTranspositionReturns(a, b, c, shuffled);
    }
  }
}
