/** The Secret Santa draw of backend/src/utils/draw.util.js: an in-place
    Fisher-Yates shuffle of the receivers, a self-match audit, at most
    MaxAttempts circular right shifts to repair a self-match, an error when a
    self-match survives, and the giver-to-receiver pairings map.

    Math.random is not modelled: the caller passes the draws it would have
    returned, one real in [0, 1) per shuffle step. */
module DrawUtil {
  import opened Seqs
  import Counting

  datatype Option<T> = None | Some(value: T)

  /** The draw either returns the pairings or throws an Error with a message. */
  datatype Result<T> = Ok(value: T) | Err(message: string)

  /** The repair loop stops after this many circular shifts. */
  const MaxAttempts: nat := 15

  /** The message of the Error thrown when a self-match survives the repair. */
  const NoSelfMatchError: string := "Failed to find a No-Self-Match Pairing after multiple shifts."

  // ---------------------------------------------------------------------------
  // shuffle
  // ---------------------------------------------------------------------------

  /** `rand` holds the values Math.random returns during a shuffle of `n`
      cells: one per step, each in [0, 1). */
  predicate RandomDraws(rand: seq<real>, n: nat) {
    |rand| == n && forall t :: 0 <= t < n ==> 0.0 <= rand[t] < 1.0
  }

  /** Math.floor(u * currentIndex): a cell strictly below `currentIndex`. */
  function PickIndex(u: real, currentIndex: nat): (r: nat)
    requires 0.0 <= u < 1.0 && currentIndex > 0
    ensures r < currentIndex
    ensures r as real <= u * currentIndex as real < r as real + 1.0
  {
    var x := u * currentIndex as real;
    ProductBelow(u, currentIndex as real);
    assert 0.0 <= x < currentIndex as real;
    assert x.Floor as real <= x < x.Floor as real + 1.0;
    x.Floor
  }

  /** The product of two positive reals is positive. */
  lemma PositiveProduct(a: real, b: real)
    requires a > 0.0 && b > 0.0
    ensures a * b > 0.0
  {
  }

  /** Scaling a positive `c` by a fraction in [0, 1) stays in [0, c). */
  lemma ProductBelow(u: real, c: real)
    requires 0.0 <= u < 1.0 && c > 0.0
    ensures 0.0 <= u * c < c
  {
    PositiveProduct(1.0 - u, c);
    if u > 0.0 {
      PositiveProduct(u, c);
    }
    assert u * c + (1.0 - u) * c == (u + (1.0 - u)) * c;
  }

  /** The steps of the shuffle that remain while `currentIndex` cells are
      still unshuffled; step number |s| - currentIndex uses that draw. */
  function ShuffleFrom<T>(s: seq<T>, rand: seq<real>, currentIndex: nat): (r: seq<T>)
    requires RandomDraws(rand, |s|) && currentIndex <= |s|
    ensures |r| == |s|
    ensures forall k :: currentIndex <= k < |s| ==> r[k] == s[k]
    decreases currentIndex
  {
    if currentIndex == 0 then s
    else
      var randomIndex := PickIndex(rand[|s| - currentIndex], currentIndex);
      ShuffleFrom(Swap(s, currentIndex - 1, randomIndex), rand, currentIndex - 1)
  }

  /** Every step is a swap, so the remaining steps rearrange the cells. */
  lemma {:induction false} ShuffleFromPermutation<T>(s: seq<T>, rand: seq<real>, currentIndex: nat)
    requires RandomDraws(rand, |s|) && currentIndex <= |s|
    ensures multiset(ShuffleFrom(s, rand, currentIndex)) == multiset(s)
    decreases currentIndex
  {
    if currentIndex > 0 {
      var randomIndex := PickIndex(rand[|s| - currentIndex], currentIndex);
      var swapped := Swap(s, currentIndex - 1, randomIndex);
      SwapPermutation(s, currentIndex - 1, randomIndex);
      ShuffleFromPermutation(swapped, rand, currentIndex - 1);
    }
  }

  /** The order in which `shuffle` leaves `s` when Math.random returns `rand`. */
  function Shuffled<T>(s: seq<T>, rand: seq<real>): (r: seq<T>)
    requires RandomDraws(rand, |s|)
    ensures |r| == |s|
  {
    ShuffleFrom(s, rand, |s|)
  }

  /** The shuffle returns a rearrangement of its input. */
  lemma ShuffledPermutation<T>(s: seq<T>, rand: seq<real>)
    requires RandomDraws(rand, |s|)
    ensures multiset(Shuffled(s, rand)) == multiset(s)
  {
    ShuffleFromPermutation(s, rand, |s|);
  }

  /** `shuffle`: Fisher-Yates on the array in place.  Each step picks a cell
      below `currentIndex`, decrements `currentIndex` and swaps the two cells. */
  method Shuffle<T>(a: array<T>, rand: seq<real>)
    requires RandomDraws(rand, a.Length)
    modifies a
    ensures a[..] == Shuffled(old(a[..]), rand)
    ensures multiset(a[..]) == multiset(old(a[..]))
  {
    var currentIndex: nat := a.Length;
    while currentIndex != 0
      invariant currentIndex <= a.Length
      invariant ShuffleFrom(a[..], rand, currentIndex) == Shuffled(old(a[..]), rand)
      decreases currentIndex
    {
      ghost var before := a[..];
      var randomIndex := PickIndex(rand[a.Length - currentIndex], currentIndex);
      currentIndex := currentIndex - 1;
      a[currentIndex], a[randomIndex] := a[randomIndex], a[currentIndex];
      assert a[..] == Swap(before, currentIndex, randomIndex);
      assert ShuffleFrom(before, rand, currentIndex + 1) == ShuffleFrom(a[..], rand, currentIndex);
    }
    ShuffledPermutation(old(a[..]), rand);
  }

  // ---------------------------------------------------------------------------
  // drawingAlgorithm: the circular right shift
  // ---------------------------------------------------------------------------

  /** `pop` then `unshift`: the last receiver moves to the front and every
      other receiver moves one place to the right. */
  function RotateRight<T>(s: seq<T>): (r: seq<T>)
    requires |s| > 0
    ensures |r| == |s|
    ensures r[0] == s[|s| - 1]
    ensures forall i :: 1 <= i < |s| ==> r[i] == s[i - 1]
  {
    [s[|s| - 1]] + s[..|s| - 1]
  }

  /** The receivers after `k` shifts.  An empty list is never shifted (the
      audit of an empty list finds nothing), so it is left as it is. */
  function Rotated<T>(s: seq<T>, k: nat): (r: seq<T>)
    ensures |r| == |s|
  {
    if k == 0 || s == [] then s else RotateRight(Rotated(s, k - 1))
  }

  /** Shifting keeps `receivers` a rearrangement of what was shuffled. */
  lemma {:induction false} RotatedPermutation<T>(s: seq<T>, k: nat)
    ensures multiset(Rotated(s, k)) == multiset(s)
  {
    if k > 0 && s != [] {
      RotatedPermutation(s, k - 1);
      RotateRightPermutation(Rotated(s, k - 1));
    }
  }

  /** One shift rearranges the receivers. */
  lemma RotateRightPermutation<T>(s: seq<T>)
    requires |s| > 0
    ensures multiset(RotateRight(s)) == multiset(s)
  {
    var n := |s|;
    assert s == s[..n - 1] + [s[n - 1]];
  }

  /** After `k` shifts, position `i` holds the receiver that started at
      position i - k, counted circularly. */
  lemma {:induction false} RotatedAt<T>(s: seq<T>, k: nat, i: nat)
    requires i < |s|
    ensures Rotated(s, k)[i] == s[(i - k) % |s|]
  {
    if k > 0 {
      var n := |s|;
      var before := Rotated(s, k - 1);
      assert Rotated(s, k) == RotateRight(before);
      if i == 0 {
        RotatedAt(s, k - 1, n - 1);
        Counting.ModAddMultiple(-(k as int), n, 1);
        assert n - 1 - (k - 1) == -(k as int) + n * 1;
      } else {
        RotatedAt(s, k - 1, i - 1);
        assert i - 1 - (k - 1) == i - k;
      }
    }
  }

  // ---------------------------------------------------------------------------
  // drawingAlgorithm: the self-match audit
  // ---------------------------------------------------------------------------

  /** Some giver is, at the same position, their own receiver. */
  predicate HasSelfMatch<T(==)>(givers: seq<T>, receivers: seq<T>)
    requires |receivers| == |givers|
  {
    exists i :: 0 <= i < |givers| && givers[i] == receivers[i]
  }

  /** The shuffled receivers, shifted `k` times, still contain a self-match. */
  predicate SelfMatchAfter<T(==)>(givers: seq<T>, shuffled: seq<T>, k: nat)
    requires |shuffled| == |givers|
  {
    HasSelfMatch(givers, Rotated(shuffled, k))
  }

  /** The audit: scan the positions in order and stop at the first self-match. */
  method SelfMatchAudit<T(==)>(givers: seq<T>, receivers: seq<T>) returns (selfMatchFound: bool)
    requires |receivers| == |givers|
    ensures selfMatchFound <==> HasSelfMatch(givers, receivers)
  {
    selfMatchFound := false;
    var i := 0;
    while i < |givers|
      invariant i <= |givers|
      invariant forall j :: 0 <= j < i ==> givers[j] != receivers[j]
    {
      if givers[i] == receivers[i] {
        selfMatchFound := true;
        break;
      }
      i := i + 1;
    }
  }

  // ---------------------------------------------------------------------------
  // drawingAlgorithm: the pairings map
  // ---------------------------------------------------------------------------

  /** The object built at the end: position by position, in order, key
      givers[i] is assigned receivers[i] (a later position overwrites an
      earlier one with the same giver). */
  function PairingsOf<T>(givers: seq<T>, receivers: seq<T>): (m: map<T, T>)
    requires |receivers| == |givers|
    ensures m.Keys == Elems(givers)
    decreases |givers|
  {
    if |givers| == 0 then map[]
    else
      var n := |givers| - 1;
      assert givers == givers[..n] + [givers[n]];
      PairingsOf(givers[..n], receivers[..n])[givers[n] := receivers[n]]
  }

  /** Every key of the pairings is paired with the receiver at one of its
      positions. */
  lemma {:induction false} PairingsOfFrom<T>(givers: seq<T>, receivers: seq<T>, k: T)
    requires |receivers| == |givers| && k in PairingsOf(givers, receivers)
    ensures exists i :: 0 <= i < |givers| && givers[i] == k && PairingsOf(givers, receivers)[k] == receivers[i]
    decreases |givers|
  {
    var n := |givers| - 1;
    if givers[n] != k {
      assert k in givers[..n];
      PairingsOfFrom(givers[..n], receivers[..n], k);
      var i :| 0 <= i < n && givers[..n][i] == k && PairingsOf(givers[..n], receivers[..n])[k] == receivers[..n][i];
      assert givers[i] == k && PairingsOf(givers, receivers)[k] == receivers[i];
    } else {
      assert givers[n] == k && PairingsOf(givers, receivers)[k] == receivers[n];
    }
  }

  /** The last assignment to a key wins: a giver that does not occur again
      later is paired with the receiver at its position. */
  lemma {:induction false} PairingsOfAt<T>(givers: seq<T>, receivers: seq<T>, i: nat)
    requires |receivers| == |givers| && i < |givers| && givers[i] !in givers[i + 1..]
    ensures PairingsOf(givers, receivers)[givers[i]] == receivers[i]
    decreases |givers|
  {
    var n := |givers| - 1;
    if i < n {
      assert givers[n] in givers[i + 1..];
      assert givers[..n][i + 1..] == givers[i + 1..n];
      assert givers[..n][i] !in givers[..n][i + 1..];
      PairingsOfAt(givers[..n], receivers[..n], i);
    }
  }

  /** The loop that fills `pairingsMap` key by key. */
  method BuildPairings<T>(givers: seq<T>, receivers: seq<T>) returns (pairingsMap: map<T, T>)
    requires |receivers| == |givers|
    ensures pairingsMap == PairingsOf(givers, receivers)
  {
    pairingsMap := map[];
    for i := 0 to |givers|
      invariant pairingsMap == PairingsOf(givers[..i], receivers[..i])
    {
      assert givers[..i + 1][..i] == givers[..i];
      assert receivers[..i + 1][..i] == receivers[..i];
      pairingsMap := pairingsMap[givers[i] := receivers[i]];
    }
    assert givers[..|givers|] == givers;
    assert receivers[..|receivers|] == receivers;
  }

  // ---------------------------------------------------------------------------
  // drawingAlgorithm
  // ---------------------------------------------------------------------------

  /** The first number of shifts, from `from` on and below MaxAttempts, that
      leaves no self-match; None when every one of them leaves one. */
  function FirstCleanRotation<T(==)>(givers: seq<T>, receivers: seq<T>, from: nat): (r: Option<nat>)
    requires |receivers| == |givers|
    ensures r.Some? ==> from <= r.value < MaxAttempts
    ensures r.Some? ==> !SelfMatchAfter(givers, receivers, r.value)
    ensures r.Some? ==> forall k :: from <= k < r.value ==> SelfMatchAfter(givers, receivers, k)
    ensures r.None? ==> forall k :: from <= k < MaxAttempts ==> SelfMatchAfter(givers, receivers, k)
    decreases MaxAttempts - from
  {
    if from >= MaxAttempts then None
    else if !SelfMatchAfter(givers, receivers, from) then Some(from)
    else FirstCleanRotation(givers, receivers, from + 1)
  }

  /** Steps 3 and 4 of drawingAlgorithm on the shuffled receivers: the
      pairings after the fewest shifts that leave no self-match, or the error
      when every audited shift leaves one. */
  function Repair<T(==)>(givers: seq<T>, shuffled: seq<T>): (r: Result<map<T, T>>)
    requires |shuffled| == |givers|
    ensures r.Err? ==> r.message == NoSelfMatchError
    ensures r.Err? ==> forall k :: 0 <= k < MaxAttempts ==> SelfMatchAfter(givers, shuffled, k)
    ensures r.Ok? ==> r.value.Keys == Elems(givers)
    ensures r.Ok? ==> exists k :: 0 <= k < MaxAttempts && !SelfMatchAfter(givers, shuffled, k)
  {
    match FirstCleanRotation(givers, shuffled, 0)
    case None => Err(NoSelfMatchError)
    case Some(k) => Ok(PairingsOf(givers, Rotated(shuffled, k)))
  }

  /** What drawingAlgorithm returns or throws when Math.random returns `rand`. */
  function Draw<T(==)>(participantIds: seq<T>, rand: seq<real>): (r: Result<map<T, T>>)
    requires RandomDraws(rand, |participantIds|)
    ensures r.Err? ==> r.message == NoSelfMatchError
    ensures r.Ok? ==> r.value.Keys == Elems(participantIds)
  {
    Repair(participantIds, Shuffled(participantIds, rand))
  }

  /** A pairing in which every giver is a participant, every receiver is a
      participant, and nobody gives to themselves. */
  predicate NoSelfPairing<T>(pairings: map<T, T>, participantIds: seq<T>) {
    && pairings.Keys == Elems(participantIds)
    && pairings.Values <= Elems(participantIds)
    && forall k :: k in pairings ==> pairings[k] != k
  }

  /** A derangement of the participants: a bijection from the participant set
      onto itself with no fixed point. */
  predicate Derangement<T>(pairings: map<T, T>, participantIds: seq<T>) {
    && NoSelfPairing(pairings, participantIds)
    && pairings.Values == Elems(participantIds)
    && forall a, b :: a in pairings && b in pairings && a != b ==> pairings[a] != pairings[b]
  }

  /** drawingAlgorithm: copy the ids into givers and receivers, shuffle the
      receivers, then audit and shift at most MaxAttempts times; throw if a
      self-match remains, otherwise build the pairings map.  The caller's
      array is only read. */
  method DrawingAlgorithm<T(==)>(participantIds: array<T>, rand: seq<real>) returns (result: Result<map<T, T>>)
    requires RandomDraws(rand, participantIds.Length)
    ensures result == Draw(participantIds[..], rand)
    ensures result.Ok? ==> NoSelfPairing(result.value, participantIds[..])
    ensures result.Ok? && Distinct(participantIds[..]) ==> Derangement(result.value, participantIds[..])
  {
    var givers := participantIds[..];
    var receiverCells := new T[|givers|](i requires 0 <= i < |givers| => givers[i]);
    assert receiverCells[..] == givers;
    Shuffle(receiverCells, rand);
    var receivers := receiverCells[..];
    ghost var shuffled := receivers;

    var selfMatchFound := true;
    var attempts := 0;
    while selfMatchFound && attempts < MaxAttempts
      invariant attempts <= MaxAttempts
      invariant receivers == Rotated(shuffled, attempts)
      invariant forall k :: 0 <= k < attempts ==> SelfMatchAfter(givers, shuffled, k)
      invariant !selfMatchFound ==> attempts < MaxAttempts && !SelfMatchAfter(givers, shuffled, attempts)
    {
      selfMatchFound := SelfMatchAudit(givers, receivers);
      if selfMatchFound {
        var lastReceiver := receivers[|receivers| - 1];
        receivers := [lastReceiver] + receivers[..|receivers| - 1];
        attempts := attempts + 1;
      }
    }

    if selfMatchFound {
      RepairFailsIff(givers, shuffled);
      result := Err(NoSelfMatchError);
    } else {
      var pairingsMap := BuildPairings(givers, receivers);
      RepairStopsAtFirstClean(givers, shuffled, attempts);
      result := Ok(pairingsMap);
    }
    DrawResult(givers, rand);
  }

  // ---------------------------------------------------------------------------
  // Properties of the draw
  // ---------------------------------------------------------------------------

  /** The repair throws exactly when the shuffled receivers and each of
      their first MaxAttempts - 1 shifts all contain a self-match: the shift
      made on the last attempt is never audited. */
  lemma RepairFailsIff<T>(givers: seq<T>, shuffled: seq<T>)
    requires |shuffled| == |givers|
    ensures Repair(givers, shuffled).Err? <==>
      forall k :: 0 <= k < MaxAttempts ==> SelfMatchAfter(givers, shuffled, k)
  {
  }

  /** When some audited shift leaves no self-match, the repair stops at the
      first such shift and pairs the givers with those receivers. */
  lemma RepairStopsAtFirstClean<T>(givers: seq<T>, shuffled: seq<T>, k: nat)
    requires |shuffled| == |givers| && k < MaxAttempts
    requires !SelfMatchAfter(givers, shuffled, k)
    requires forall j :: 0 <= j < k ==> SelfMatchAfter(givers, shuffled, j)
    ensures Repair(givers, shuffled) == Ok(PairingsOf(givers, Rotated(shuffled, k)))
  {
    match FirstCleanRotation(givers, shuffled, 0)
    case None =>
      assert false;
    case Some(first) =>
      if first < k {
        assert false;
      } else if first > k {
        assert false;
      }
  }

  /** When the repair returns, nobody gives to themselves; with distinct
      givers the pairing is a derangement of them. */
  lemma {:induction false} RepairResult<T>(givers: seq<T>, shuffled: seq<T>)
    requires |shuffled| == |givers| && multiset(shuffled) == multiset(givers)
    ensures Repair(givers, shuffled).Ok? ==> NoSelfPairing(Repair(givers, shuffled).value, givers)
    ensures Repair(givers, shuffled).Ok? && Distinct(givers) ==>
      Derangement(Repair(givers, shuffled).value, givers)
  {
    var first := FirstCleanRotation(givers, shuffled, 0);
    if first.Some? {
      var receivers := Rotated(shuffled, first.value);
      RotatedPermutation(shuffled, first.value);
      PairingsNoSelfMatch(givers, receivers);
      if Distinct(givers) {
        DistinctPermutation(givers, receivers);
        PermutationElems(givers, receivers);
        PairingsBijective(givers, receivers);
      }
    }
  }

  /** When the draw returns, nobody gives to themselves; with distinct ids the
      pairing is a derangement of the participants. */
  lemma DrawResult<T>(participantIds: seq<T>, rand: seq<real>)
    requires RandomDraws(rand, |participantIds|)
    ensures Draw(participantIds, rand).Ok? ==> NoSelfPairing(Draw(participantIds, rand).value, participantIds)
    ensures Draw(participantIds, rand).Ok? && Distinct(participantIds) ==>
      Derangement(Draw(participantIds, rand).value, participantIds)
  {
    ShuffledPermutation(participantIds, rand);
    RepairResult(participantIds, Shuffled(participantIds, rand));
  }

  /** Pairing positionally lists without a self-match gives nobody themselves,
      and every value is one of the receivers. */
  lemma PairingsNoSelfMatch<T>(givers: seq<T>, receivers: seq<T>)
    requires |receivers| == |givers| && !HasSelfMatch(givers, receivers)
    requires multiset(receivers) == multiset(givers)
    ensures NoSelfPairing(PairingsOf(givers, receivers), givers)
  {
    var m := PairingsOf(givers, receivers);
    PermutationElems(givers, receivers);
    forall k | k in m ensures m[k] != k && m[k] in Elems(givers) {
      PairingsOfFrom(givers, receivers, k);
      var i :| 0 <= i < |givers| && givers[i] == k && m[k] == receivers[i];
      assert receivers[i] in receivers;
    }
  }

  /** With distinct givers, each giver is paired with the receiver at its
      own position. */
  lemma PairingsDistinctAt<T>(givers: seq<T>, receivers: seq<T>)
    requires |receivers| == |givers| && Distinct(givers)
    ensures forall i :: 0 <= i < |givers| ==> PairingsOf(givers, receivers)[givers[i]] == receivers[i]
  {
    forall i | 0 <= i < |givers| ensures PairingsOf(givers, receivers)[givers[i]] == receivers[i] {
      PairingsOfAt(givers, receivers, i);
    }
  }

  /** With distinct givers, and distinct receivers that are the same
      people, the pairings are a bijection from the givers onto the givers. */
  lemma PairingsBijective<T>(givers: seq<T>, receivers: seq<T>)
    requires |receivers| == |givers| && Distinct(givers) && Distinct(receivers)
    requires Elems(receivers) == Elems(givers)
    ensures PairingsOf(givers, receivers).Values == Elems(givers)
    ensures forall a, b :: a in PairingsOf(givers, receivers) && b in PairingsOf(givers, receivers) && a != b ==>
      PairingsOf(givers, receivers)[a] != PairingsOf(givers, receivers)[b]
  {
    PairingsDistinctAt(givers, receivers);
    PairingsValues(givers, receivers);
    PositionalMapInjective(PairingsOf(givers, receivers), givers, receivers);
  }

  /** A map that sends each giver to the receiver at the same position, over
      distinct receivers, sends different givers to different receivers. */
  lemma PositionalMapInjective<T>(m: map<T, T>, givers: seq<T>, receivers: seq<T>)
    requires |receivers| == |givers| && Distinct(receivers) && m.Keys == Elems(givers)
    requires forall i :: 0 <= i < |givers| ==> m[givers[i]] == receivers[i]
    ensures forall a, b :: a in m && b in m && a != b ==> m[a] != m[b]
  {
    forall a, b | a in m && b in m && a != b ensures m[a] != m[b] {
      var i :| 0 <= i < |givers| && givers[i] == a;
      var j :| 0 <= j < |givers| && givers[j] == b;
      assert m[a] == receivers[i] && m[b] == receivers[j] && i != j;
    }
  }

  lemma PairingsValues<T>(givers: seq<T>, receivers: seq<T>)
    requires |receivers| == |givers|
    requires forall i :: 0 <= i < |givers| ==> PairingsOf(givers, receivers)[givers[i]] == receivers[i]
    ensures PairingsOf(givers, receivers).Values == Elems(receivers)
  {
    var m := PairingsOf(givers, receivers);
    forall x | x in m.Values ensures x in Elems(receivers) {
      var k :| k in m && m[k] == x;
      var i :| 0 <= i < |givers| && givers[i] == k;
      assert receivers[i] in receivers;
    }
    forall x | x in Elems(receivers) ensures x in m.Values {
      var i :| 0 <= i < |receivers| && receivers[i] == x;
      assert givers[i] in m && m[givers[i]] == x;
    }
  }

  // ---------------------------------------------------------------------------
  // Small draws
  // ---------------------------------------------------------------------------

  /** Two participants always give to each other: whichever order the shuffle
      leaves, at most one shift removes the self-matches. */
  lemma RepairTwo<T>(a: T, b: T, shuffled: seq<T>)
    requires a != b && multiset(shuffled) == multiset([a, b])
    ensures Repair([a, b], shuffled) == Ok(map[a := b, b := a])
  {
    assert |shuffled| == |multiset(shuffled)| == 2;
    assert shuffled[0] in multiset(shuffled) && shuffled[1] in multiset(shuffled);
    assert shuffled == [shuffled[0], shuffled[1]];
    if shuffled[0] == shuffled[1] {
      assert false;
    }
    if shuffled[0] == a {
      assert shuffled == [a, b];
      assert Rotated(shuffled, 0)[0] == a;
      assert SelfMatchAfter([a, b], shuffled, 0);
      assert Rotated(shuffled, 1) == [b, a];
      RepairStopsAtFirstClean([a, b], shuffled, 1);
    } else {
      assert shuffled == [b, a];
      RepairStopsAtFirstClean([a, b], shuffled, 0);
    }
    assert PairingsOf([a, b], Rotated(shuffled, if shuffled[0] == a then 1 else 0)) == map[a := b, b := a];
  }

  /** For two distinct ids the draw always returns {A: B, B: A}. */
  lemma DrawTwo<T>(participantIds: seq<T>, rand: seq<real>)
    requires RandomDraws(rand, |participantIds|)
    requires |participantIds| == 2 && participantIds[0] != participantIds[1]
    ensures Draw(participantIds, rand) == Ok(map[participantIds[0] := participantIds[1], participantIds[1] := participantIds[0]])
  {
    assert participantIds == [participantIds[0], participantIds[1]];
    ShuffledPermutation(participantIds, rand);
    RepairTwo(participantIds[0], participantIds[1], Shuffled(participantIds, rand));
  }

  /** No ids give an empty pairing; a single id always clashes with itself,
      whatever the shifts, so the draw throws. */
  lemma DrawDegenerate<T>(participantIds: seq<T>, rand: seq<real>)
    requires RandomDraws(rand, |participantIds|) && |participantIds| <= 1
    ensures |participantIds| == 0 ==> Draw(participantIds, rand) == Ok(map[])
    ensures |participantIds| == 1 ==> Draw(participantIds, rand) == Err(NoSelfMatchError)
  {
    var shuffled := Shuffled(participantIds, rand);
    if |participantIds| == 0 {
      assert !SelfMatchAfter(participantIds, shuffled, 0);
      RepairStopsAtFirstClean(participantIds, shuffled, 0);
    } else {
      ShuffledPermutation(participantIds, rand);
      assert shuffled[0] in multiset(participantIds);
      forall k | 0 <= k < MaxAttempts ensures SelfMatchAfter(participantIds, shuffled, k) {
        RotatedAt(shuffled, k, 0);
        assert Rotated(shuffled, k)[0] == participantIds[0];
      }
      RepairFailsIff(participantIds, shuffled);
    }
  }
}
