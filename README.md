# Secret Santa draw, modelled in Dafny

This project models the draw of the Secret Santa backend
(`backend/src/utils/draw.util.js`) and proves what it guarantees and where
it can fail.

The draw takes the ids of the verified participants. It copies them into
`givers` and `receivers` and shuffles `receivers` in place with Fisher-Yates.
It then audits the two lists position by position for a giver who would
receive their own id. On a self-match it moves the last receiver to the
front (`pop`, then `unshift`), at most 15 times. If a self-match survives,
it throws. Otherwise it builds the giver-to-receiver map.

Files:

- `draw_util.dfy` (module `DrawUtil`) is the model of the source. It has
  - `Shuffle`, an in-place method over an `array` proved against
    `Shuffled`;
  - `SelfMatchAudit` and `BuildPairings`, loops proved against
    `HasSelfMatch` and `PairingsOf`;
  - `DrawingAlgorithm`, the whole draw, proved against `Draw`;
  - the lemmas about these functions.
- `rotation_repair.dfy` (module `RotationRepair`) says when the bounded
  repair can and cannot throw.
- `seqs.dfy` (`Seqs`) and `counting.dfy` (`Counting`) are helpers:
  distinctness, swaps, sums, Euclidean division and a pigeonhole argument.

`Math.random` is not modelled. The caller passes the values it would have
returned: one real in [0, 1) per shuffle step (`RandomDraws`). The index
is `Math.floor(u * currentIndex)`, written out as `PickIndex`.

What is proved:

- The shuffle is a permutation, and every index it picks is in range.
- The audit reports exactly whether some position holds a self-match.
- A shift is the circular right rotation, and k shifts put the receiver
  from position (i - k) mod n at position i.
- The draw throws exactly when the shuffled list and each of its first 14
  shifts hold a self-match. After the 15th shift the loop exits without
  auditing, so that shift is never checked.
- When the draw returns, nobody gives to themselves. With distinct ids
  the map is a bijection of the participants onto themselves.
- With two distinct ids the draw always returns {A: B, B: A}.
- With an even number of distinct ids, at most 15, the draw never throws.
- With three distinct ids it throws exactly when the shuffle swaps two ids
  and leaves the third in place: three of the six orders. For example the
  Math.random values 0.5, 0.5, 0.0 shuffle [a, b, c] into [a, c, b], and
  every shift of that keeps a self-match.
  The caller accepts three participants (group.controller.js:205-207) and
  answers the error with HTTP 500 (group.controller.js:228-230).

Behaviours of the code worth knowing:

- It repairs by at most 15 rotations and can throw on valid input
  (`ThreeCanThrow`, `ThreeThrowsIff`).
- With no ids it returns an empty map, and with one id it throws the
  self-match error (`DrawDegenerate`).
- It does not check for duplicate ids. `DrawingAlgorithm` therefore has no
  distinctness precondition. The guarantees that need distinct ids take
  distinctness as a hypothesis.

## Model

| member | source | states |
|---|---|---|
| DrawUtil.PickIndex | backend/src/utils/draw.util.js:12-13 | `Math.floor(u * currentIndex)` with u in [0, 1) is a cell index below `currentIndex`, and it is the floor of the product |
| Seqs.Swap | backend/src/utils/draw.util.js:16-17 | the destructuring swap exchanges the two cells and leaves every other cell as it was |
| Seqs.SwapPermutation | backend/src/utils/draw.util.js:16-17 | a swap keeps the multiset of the array |
| DrawUtil.ShuffleFrom | backend/src/utils/draw.util.js:10-18 | the remaining shuffle steps keep the length and never touch the cells at or above `currentIndex` |
| DrawUtil.ShuffleFromPermutation | backend/src/utils/draw.util.js:10-18 | each loop step is a swap of two in-range cells, so the remaining steps rearrange the array |
| DrawUtil.Shuffled | backend/src/utils/draw.util.js:7-20 | the shuffled array has the input's length |
| DrawUtil.ShuffledPermutation | backend/src/utils/draw.util.js:7-20 | the shuffle returns a permutation of its input |
| DrawUtil.Shuffle | backend/src/utils/draw.util.js:7-20 | the in-place loop, with `currentIndex` falling from the length to 0, leaves the array equal to `Shuffled` of the old contents and a permutation of them |
| DrawUtil.RotateRight | backend/src/utils/draw.util.js:53-54 | `pop` then `unshift`: the old last element is at index 0 and every other element moves from i to i+1 |
| DrawUtil.Rotated | backend/src/utils/draw.util.js:51-56 | k shifts keep the number of receivers |
| DrawUtil.RotatedPermutation | backend/src/utils/draw.util.js:51-56 | after any number of shifts the receivers are still a permutation of what was shuffled |
| DrawUtil.RotateRightPermutation | backend/src/utils/draw.util.js:53-54 | one `pop`/`unshift` shift keeps the multiset of the receivers |
| DrawUtil.RotatedAt | backend/src/utils/draw.util.js:51-56 | after k shifts, position i holds the receiver that was at position (i - k) mod n |
| DrawUtil.SelfMatchAudit | backend/src/utils/draw.util.js:41-49 | the audit sets `selfMatchFound` exactly when some index i has `givers[i] == receivers[i]` |
| DrawUtil.PairingsOf | backend/src/utils/draw.util.js:65-69 | the map's keys are exactly the givers |
| DrawUtil.PairingsOfFrom | backend/src/utils/draw.util.js:65-69 | every key is mapped to the receiver at one of the positions of that giver |
| DrawUtil.PairingsOfAt | backend/src/utils/draw.util.js:66-69 | the last assignment wins: a giver that does not occur later is mapped to the receiver at its own position |
| DrawUtil.BuildPairings | backend/src/utils/draw.util.js:65-69 | the loop that fills `pairingsMap` key by key builds `PairingsOf` of the two lists |
| DrawUtil.FirstCleanRotation | backend/src/utils/draw.util.js:37-57 | the repair loop stops at the first number of shifts below 15 that leaves no self-match; every earlier number leaves one; None means all 15 leave one |
| DrawUtil.Repair | backend/src/utils/draw.util.js:37-69 | the audit-and-shift loop on the shuffled receivers: it throws only the self-match error, and only when each of the shifts 0 .. 14 holds a self-match; when it returns, some shift below 15 is clean and the map's keys are exactly the givers |
| DrawUtil.Draw | backend/src/utils/draw.util.js:27-72 | the whole draw for given Math.random values (the loop on the Fisher-Yates shuffle of the givers): it throws only the self-match error, and a returned map has exactly the participants as keys; `DrawingAlgorithm` is proved equal to it |
| DrawUtil.DrawingAlgorithm | backend/src/utils/draw.util.js:27-72 | the draw returns or throws what `Draw` says, reads the caller's array without changing it, gives nobody themselves, and with distinct ids returns a derangement |
| DrawUtil.RepairFailsIff | backend/src/utils/draw.util.js:37-62 | the draw throws its "No-Self-Match Pairing" error exactly when the shuffle and each of its first 14 shifts hold a self-match |
| DrawUtil.RepairStopsAtFirstClean | backend/src/utils/draw.util.js:40-69 | when some audited shift is clean, the result is the pairing of the givers with the receivers after the first clean shift |
| DrawUtil.PairingsNoSelfMatch | backend/src/utils/draw.util.js:65-69 | pairing lists without a positional self-match maps nobody to themselves, and every value is a participant |
| DrawUtil.PairingsDistinctAt | backend/src/utils/draw.util.js:66-69 | with distinct givers each giver is mapped to the receiver at its own position |
| DrawUtil.PairingsValues | backend/src/utils/draw.util.js:66-69 | when each giver gets the receiver at its own position, the map's values are exactly the receivers |
| DrawUtil.PositionalMapInjective | backend/src/utils/draw.util.js:66-69 | with distinct receivers, two different givers never get the same receiver |
| DrawUtil.PairingsBijective | backend/src/utils/draw.util.js:65-71 | with distinct givers and receivers that are the same people, the map is a bijection of the participants onto themselves |
| DrawUtil.RepairResult | backend/src/utils/draw.util.js:23-71 | after any shuffle, a returned map has the participants as keys, takes its values among them, and maps nobody to themselves; with distinct ids it is a derangement |
| DrawUtil.DrawResult | backend/src/utils/draw.util.js:23-25 | "no one buys a gift for themselves": the same guarantee for the whole draw, whatever Math.random returns |
| DrawUtil.RepairTwo | backend/src/utils/draw.util.js:34-69 | for two distinct ids, either order of the shuffle ends in {A: B, B: A} |
| DrawUtil.DrawTwo | backend/src/utils/draw.util.js:27-72 | for two distinct ids the draw always returns {A: B, B: A} |
| DrawUtil.DrawDegenerate | backend/src/utils/draw.util.js:40-62 | no ids give an empty map, and a single id always throws the self-match error |
| RotationRepair.ClashGivesOffset | backend/src/utils/draw.util.js:44-54 | a self-match at giver i after k shifts means the receiver that k shifts brought to i, the one shuffled to position (i - k) mod n, has offset k; so k occurs among the offsets |
| RotationRepair.AllShiftsClashOffsets | backend/src/utils/draw.util.js:40-56 | if each of the shifts 0 .. n-1 has a self-match, the n offsets are exactly 0 .. n-1 |
| RotationRepair.OriginsRearrangeRange | backend/src/utils/draw.util.js:30-34 | the shuffled ids come from distinct positions among the givers |
| RotationRepair.OffsetSumDivisible | backend/src/utils/draw.util.js:34-54 | the offsets of any shuffle add up to a multiple of n |
| RotationRepair.SomeShiftClean | backend/src/utils/draw.util.js:40-57 | with an even number n >= 2 of distinct ids, some shift below n leaves no self-match |
| RotationRepair.EvenSizeNeverThrows | backend/src/utils/draw.util.js:59-61 | with an even number of distinct ids, at most 15, the throw is unreachable |
| RotationRepair.ShuffleThree | backend/src/utils/draw.util.js:7-20 | when Math.random returns 0.5, 0.5, 0.0, the shuffle turns [a, b, c] into [a, c, b] |
| RotationRepair.TranspositionAlwaysClashes | backend/src/utils/draw.util.js:40-57 | every one of the 15 audited shifts of [a, c, b] against the givers [a, b, c] holds a self-match |
| RotationRepair.RotatedAdd | backend/src/utils/draw.util.js:51-56 | j shifts followed by k more shifts are j + k shifts |
| RotationRepair.ThreeThrowsIff | backend/src/utils/draw.util.js:40-62 | for three distinct ids and any rearrangement of them as the shuffle, the draw throws if and only if the shuffle is one of the three orders that swap two ids: [a, c, b], [b, a, c] or [c, b, a] |
| RotationRepair.ThreeCanThrow | backend/src/utils/draw.util.js:59-61 | three distinct ids throw when Math.random returns 0.5, 0.5, 0.0, although a derangement of them exists |

## Left out

- `Math.random` and its floating point: each draw is an exact real in [0, 1). The model does not say how likely any shuffle is. It says nothing about uniformity or bias, only which shuffles happen for which draws.
- `DrawUtil.Shuffle`: the array that `shuffle` returns is not modelled. The only caller ignores it and uses the array it passed.
- Object keys: JavaScript turns each key of `pairingsMap` into a string. The model keys the map by the ids themselves. So it assumes that distinct ids give distinct strings, as database keys do.
- Id equality: `===` on ids is modelled as equality of values. Both copies hold the same id references, so identity and equality agree here.
- Fixed-point count: the model does not state that the n shifts together hold exactly n self-matches. The even-size proof instead uses the weaker fact it needs: if every shift has a self-match, each offset occurs exactly once.
- Odd sizes: for odd sizes other than three, the model does not characterise which shuffles make the draw throw; for three, `ThreeThrowsIff` does.
- `group.controller.js` and the other controllers: HTTP and database plumbing. Only their use of the draw is reflected: at least three verified, distinct ids, and a 500 response on the error.
- `email.util.js`, `token.util.js`, `auth.middleware.js`, models, routes, `server.js` and the whole frontend: mail sending, tokens, cookies, schemas and UI, none of which affects the draw.
