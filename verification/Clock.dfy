/** Clock readings in nanoseconds. */
module Clock {
  const SECOND := 1_000_000_000

  /** Time.Unix(). */
  function Unix(now: int): (s: int)
    ensures s * SECOND <= now < (s + 1) * SECOND
    ensures s * 1_000_000_000 <= now < (s + 1) * 1_000_000_000
  {
    now / SECOND
  }

  lemma UnixOrdered(s: int, t: int)
    requires s <= t
    ensures Unix(s) <= Unix(t)
  {}
}
