/** The auto-lock duration on its way from a client to the session's timer,
    in Go's 64-bit arithmetic. */
module Durations {
  import opened Bytes
  import Sessions

  const SECOND: int := 1_000_000_000
  const MAX_SECONDS: int := 9_223_372_036

  type int64 = x: int | -0x8000_0000_0000_0000 <= x < 0x8000_0000_0000_0000

  /** What a 64-bit operation leaves of an exact result. */
  function Wrap(x: int): int64 {
    (x + 0x8000_0000_0000_0000) % 0x1_0000_0000_0000_0000 - 0x8000_0000_0000_0000
  }

  /** Go's division, which truncates toward zero. */
  function Quotient(x: int, y: int): int
    requires y > 0
  {
    if x >= 0 then x / y else -((-x) / y)
  }

  /** UnlockFor: whole seconds go over the wire. */
  function ToSeconds(d: int64): int64 {
    Quotient(d, SECOND)
  }

  /** The unlock request's `for` as the daemon turns it into a duration. */
  function FromSeconds(secs: int64): int64 {
    Wrap(secs * SECOND)
  }

  /** Every client duration of a second or more arms the timer for it, rounded
      down by less than a second; every shorter one, zero and negative ones
      too, disables auto-lock. */
  lemma UnlockForArms(d: int64)
    ensures var a := FromSeconds(ToSeconds(d));
            && (d >= SECOND ==> d - SECOND < a <= d)
            && (a > 0 <==> d >= SECOND)
  {
    var q := ToSeconds(d);
    assert -MAX_SECONDS <= q <= MAX_SECONDS;
    RawSecondsHonoured(q);
  }

  /** A request that names the seconds itself is honoured exactly when its
      nanoseconds fit in 64 bits. */
  lemma RawSecondsHonoured(secs: int64)
    ensures FromSeconds(secs) == secs * SECOND <==> -MAX_SECONDS <= secs <= MAX_SECONDS
  {
  }

  const TWO_63: int := 0x8000_0000_0000_0000

  /** And it arms the timer exactly when the low 64 bits of its nanoseconds,
      read as a signed number, are positive. */
  lemma RawSecondsArm(secs: int64)
    ensures FromSeconds(secs) > 0 <==> 0 < (secs * SECOND) % (2 * TWO_63) < TWO_63
  {
    WrapSign(secs * SECOND, secs * SECOND / (2 * TWO_63));
  }

  lemma WrapSign(x: int, q: int)
    requires q == x / (2 * TWO_63)
    ensures Wrap(x) > 0 <==> 0 < x - q * (2 * TWO_63) < TWO_63
  {
    var m := x - q * (2 * TWO_63);
    assert Wrap(x) == if m < TWO_63 then m else m - 2 * TWO_63;
  }

  /** Beyond the range either may happen: the first count past it turns
      auto-lock off, a later one arms it for 290 milliseconds. */
  lemma RawSecondsOverflow()
    ensures FromSeconds(MAX_SECONDS + 1) < 0
    ensures FromSeconds(18_446_744_074) == 290_448_384
  {
  }

  /** End to end: after UnlockFor(d) the session locks itself a moment `at`
      with now + d - 1s < at <= now + d, or never when d is below a second. */
  lemma UnlockForDeadline(s: Sessions.State, b: nat, d: int64, now: int)
    requires b < |s.buffers| && s.timer == None && s.locksAt == None
    ensures var t := Sessions.Install(s, b, FromSeconds(ToSeconds(d)), now);
            if d >= SECOND
            then t.timer.Some? && t.locksAt.Some? && now + d - SECOND < t.locksAt.value <= now + d
            else t.timer == None && t.locksAt == None
  {
    UnlockForArms(d);
  }
}
