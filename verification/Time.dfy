/** Time as the agent counts it: whole nanoseconds. */
module Time {
  type Nanos = int

  const SECOND: Nanos := 1_000_000_000
  const MINUTE: Nanos := 60 * SECOND

  /** The counters that prune start again after 500 or 5000 steps. */
  lemma NextInRound(n: nat)
    ensures (n + 1) % 500 == if n % 500 == 499 then 0 else n % 500 + 1
    ensures (n + 1) % 5_000 == if n % 5_000 == 4_999 then 0 else n % 5_000 + 1
  {
  }
}
