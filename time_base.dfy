/** The tick and second counters advanced by the timer interrupt. */
module TimeBase {
  import opened Arith

  /** The two counters l_hal_tick and l_hal_sec. */
  datatype Clock = Clock(tick: nat, sec: nat)

  /** One run of the tick handler: the second test looks at the tick value
      BEFORE it is incremented, so tick 0 already starts a second. */
  function Step(c: Clock, perSec: nat): Clock
    requires perSec > 0
  {
    Clock(c.tick + 1, if c.tick % perSec == 0 then c.sec + 1 else c.sec)
  }

  /** The counters after n ticks from the zero-initialised statics. */
  function Run(n: nat, perSec: nat): Clock
    requires perSec > 0
  {
    if n == 0 then Clock(0, 0) else Step(Run(n - 1, perSec), perSec)
  }

  /** ceil(tick / perSec): the second count that goes with a tick count. */
  function SecondsAt(tick: nat, perSec: nat): nat
    requires perSec > 0
  {
    (tick + perSec - 1) / perSec
  }

  /** The second count grows by one exactly when the old tick is a multiple
      of perSec, which is the test the tick handler makes. */
  lemma SecondsStep(n: nat, p: nat)
    requires p > 0
    ensures SecondsAt(n + 1, p) == SecondsAt(n, p) + (if n % p == 0 then 1 else 0)
  {
    var q, r := n / p, n % p;
    assert n == q * p + r;
    DivUnique(n + 1 + p - 1, p, q + 1, r);
    if r == 0 {
      DivUnique(n + p - 1, p, q, p - 1);
    } else {
      DivUnique(n + p - 1, p, q + 1, r - 1);
    }
  }

  /** After n ticks from boot the tick counter is n and the second counter
      is ceil(n / perSec). */
  lemma {:induction false} RunFromBoot(n: nat, p: nat)
    requires p > 0
    ensures Run(n, p) == Clock(n, SecondsAt(n, p))
  {
    if n == 0 {
      assert SecondsAt(0, p) == 0 by { DivUnique(p - 1, p, 0, p - 1); }
    } else {
      RunFromBoot(n - 1, p);
      SecondsStep(n - 1, p);
    }
  }

  /** Compared with floor(tick / perSec), the second counter is one ahead at
      every tick count that is not a multiple of perSec; the very first tick
      already counts as a second. */
  lemma SecondsVersusFloor(n: nat, p: nat)
    requires p > 0
    ensures SecondsAt(n, p) == n / p + (if n % p == 0 then 0 else 1)
    ensures n >= 1 ==> SecondsAt(n, p) >= 1
  {
    var q, r := n / p, n % p;
    assert n == q * p + r;
    if r == 0 {
      DivUnique(n + p - 1, p, q, p - 1);
    } else {
      DivUnique(n + p - 1, p, q + 1, r - 1);
    }
  }
}
