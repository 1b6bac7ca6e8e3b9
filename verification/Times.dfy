/** Instants are nanoseconds since the epoch. */
module Times {
  const SECOND := 1_000_000_000

  /** Time.Unix(): whole seconds, rounded down. */
  function Unix(t: int): int {
    t / SECOND
  }

  /** time.Unix(s, 0). */
  function Instant(s: int): int {
    s * SECOND
  }
}
