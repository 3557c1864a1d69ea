/** The 32 bit tick counter and the signed comparisons made on it. */
module Ticks {
  const TICK_RANGE: nat := 0x1_0000_0000
  const HALF_RANGE: nat := 0x8000_0000

  type TickType = t: nat | t < TICK_RANGE

  /** The counter value at true time `t`. */
  function Tick(t: nat): TickType {
    t % TICK_RANGE
  }

  /** (int32_t) (a - b) on two counter values. */
  function SignedDiff(a: TickType, b: TickType): int {
    var d := (a - b) % TICK_RANGE;
    if d < HALF_RANGE then d else d - TICK_RANGE
  }

  lemma SameResidue(a: int, b: int, k: int)
    requires a == b - TICK_RANGE * k
    ensures a % TICK_RANGE == b % TICK_RANGE
  {
    var x, y := a / TICK_RANGE, b / TICK_RANGE;
    assert TICK_RANGE * (y - x - k) == a % TICK_RANGE - b % TICK_RANGE;
  }

  /** While two instants are less than half the range apart, the signed difference is the true one. */
  lemma SignedDiffTrue(t: nat, u: nat)
    requires t - u < HALF_RANGE && u - t <= HALF_RANGE
    ensures SignedDiff(Tick(t), Tick(u)) == t - u
  {
    var q, p := t / TICK_RANGE, u / TICK_RANGE;
    assert Tick(t) - Tick(u) == (t - u) - TICK_RANGE * (q - p);
    SameResidue(Tick(t) - Tick(u), t - u, q - p);
  }
}
