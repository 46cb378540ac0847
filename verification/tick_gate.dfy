/**
  The throttle at the head of the world-tick callback (FeedTheFishMod.java:93-99):
  the fish behaviour runs only on the server, and only on ticks that are a
  multiple of the tick interval.
 */
module TickGate {
  import opened Constants

  /**
    Java's `%` on `int`: the remainder truncates toward zero, so it takes the
    sign of the dividend. Dafny's `%` is Euclidean and never negative.
   */
  function JavaRem(a: int, b: int): (r: int)
    requires b > 0
    ensures a >= 0 ==> 0 <= r < b
    ensures a < 0 ==> -b < r <= 0
    ensures exists q: int :: a == q * b + r
  {
    if a >= 0 then
      assert a == (a / b) * b + a % b;
      a % b
    else
      assert -a == ((-a) / b) * b + (-a) % b;
      assert a == (-((-a) / b)) * b + -((-a) % b);
      -((-a) % b)
  }

  /** True when the end-of-world-tick callback does its work on this tick. */
  predicate IsActiveTick(isClient: bool, ticks: int)
  {
    !isClient && JavaRem(ticks, TickInterval) == 0
  }

  /**
    For the tick interval, a zero Java remainder is the same test as a zero
    Euclidean remainder, for every tick count including negative ones, so the
    gate is the plain divisibility test.
   */
  lemma JavaZeroRemainderAgrees(a: int)
    ensures JavaRem(a, TickInterval) == 0 <==> a % TickInterval == 0
  {
  }

  /** The gate opens exactly on server ticks that are multiples of five. */
  lemma ActiveTicksAreMultiples(isClient: bool, ticks: int)
    ensures IsActiveTick(isClient, ticks) <==> !isClient && exists n: int :: ticks == 5 * n
  {
    JavaZeroRemainderAgrees(ticks);
    if !isClient && ticks % 5 == 0 {
      assert ticks == 5 * (ticks / 5);
    }
    if exists n: int :: ticks == 5 * n {
      var n: int :| ticks == 5 * n;
      assert ticks % 5 == 0;
    }
  }
}
