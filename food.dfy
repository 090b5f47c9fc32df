/** Food placement by rejection sampling. `Math.random` is not modelled: the caller
    supplies the values it would return, in order, two per attempt (x first, then y). */
module FoodSupply {
  import opened Grid

  /** Every supplied value is one `Math.random` can return. */
  predicate IsRandom(randoms: seq<real>) {
    forall i :: 0 <= i < |randoms| ==> 0.0 <= randoms[i] < 1.0
  }

  /** `Math.floor(Math.random() * tileCount)`: a coordinate on the board. */
  function Scale(r: real, tileCount: int): (n: int)
    ensures 0.0 <= r < 1.0 && tileCount > 0 ==> 0 <= n < tileCount
  {
    var n := (r * tileCount as real).Floor;
    // Both branches give `n`; the test only scopes the proof of the range to the inputs it holds for.
    if 0.0 <= r < 1.0 && tileCount > 0 then
      assert r * tileCount as real < tileCount as real by {
        assert (1.0 - r) * tileCount as real > 0.0;
      }
      assert n as real <= r * tileCount as real;
      n
    else n
  }

  /** The cell proposed by attempt `k`. */
  function Candidate(randoms: seq<real>, k: nat, tileCount: int): (c: Cell)
    requires 2 * k + 1 < |randoms|
    ensures IsRandom(randoms) && tileCount > 0 ==> InGrid(c, tileCount)
  {
    Cell(Scale(randoms[2 * k], tileCount), Scale(randoms[2 * k + 1], tileCount))
  }

  /** Some attempt from `from` on proposes a cell off `body`: the retry loop ends. */
  ghost predicate HasFreeCandidate(randoms: seq<real>, tileCount: int, body: seq<Cell>, from: nat) {
    exists k: nat :: from <= k && 2 * k + 1 < |randoms| && Candidate(randoms, k, tileCount) !in body
  }

  /** Attempt `k` is the first one whose cell is off `body`: where the retry loop stops. */
  predicate FirstFreeAt(randoms: seq<real>, tileCount: int, body: seq<Cell>, k: nat) {
    && 2 * k + 1 < |randoms|
    && Candidate(randoms, k, tileCount) !in body
    && forall j: nat :: j < k ==> Candidate(randoms, j, tileCount) in body
  }
}
