/** The chip-select / critical-section discipline of SPI transactions, read
    off the event trace. */
module BusGuard {
  import opened HalTypes

  /** Critical-section depth, whether chip select is driven low, and whether
      the discipline has held so far: chip select goes low only inside a
      critical section, and the last critical section is left only with chip
      select high. */
  datatype Guard = Guard(depth: nat, csLow: bool, ok: bool)

  const Boot: Guard := Guard(0, false, true)

  /** Events that touch neither the critical section nor chip select. */
  predicate Neutral(e: Event)
  {
    !(e.IntDisable? || e.IntEnable? || e.CsLow? || e.CsHigh?)
  }

  /** INT_Disable counts up; INT_Enable counts down and stops at zero. */
  function Apply(g: Guard, e: Event): Guard
  {
    match e
    case IntDisable => g.(depth := g.depth + 1)
    case IntEnable =>
      var d := if g.depth > 0 then g.depth - 1 else 0;
      g.(depth := d, ok := g.ok && !(d == 0 && g.csLow))
    case CsLow => g.(csLow := true, ok := g.ok && g.depth > 0)
    case CsHigh => g.(csLow := false)
    case _ => g
  }

  function Replay(g: Guard, t: seq<Event>): Guard
    decreases |t|
  {
    if t == [] then g else Replay(Apply(g, t[0]), t[1..])
  }

  lemma {:induction false} ReplayConcat(g: Guard, a: seq<Event>, b: seq<Event>)
    ensures Replay(g, a + b) == Replay(Replay(g, a), b)
    decreases |a|
  {
    if a != [] {
      assert (a + b)[1..] == a[1..] + b;
      ReplayConcat(Apply(g, a[0]), a[1..], b);
    } else {
      assert a + b == b;
    }
  }

  lemma {:induction false} ReplayNeutral(g: Guard, t: seq<Event>)
    requires forall i :: 0 <= i < |t| ==> Neutral(t[i])
    ensures Replay(g, t) == g
    decreases |t|
  {
    if t != [] {
      ReplayNeutral(Apply(g, t[0]), t[1..]);
    }
  }

  /** The guard state after one more event. */
  lemma ReplaySnoc(g: Guard, t: seq<Event>, e: Event)
    ensures Replay(g, t + [e]) == Apply(Replay(g, t), e)
  {
    ReplayConcat(g, t, [e]);
    assert [e][1..] == [];
  }

  /** Appending neutral events leaves the guard state of a trace unchanged. */
  lemma AppendNeutral(t: seq<Event>, u: seq<Event>)
    requires forall i :: 0 <= i < |u| ==> Neutral(u[i])
    ensures Replay(Boot, t + u) == Replay(Boot, t)
  {
    ReplayConcat(Boot, t, u);
    ReplayNeutral(Replay(Boot, t), u);
  }

  /** Once broken, the discipline stays broken. */
  lemma {:induction false} OkMonotone(g: Guard, t: seq<Event>)
    ensures Replay(g, t).ok ==> g.ok
    decreases |t|
  {
    if t != [] {
      OkMonotone(Apply(g, t[0]), t[1..]);
    }
  }

  /** While the discipline holds, chip select is never low outside a
      critical section. */
  ghost predicate Safe(g: Guard)
  {
    g.ok && g.csLow ==> g.depth > 0
  }

  lemma {:induction false} ReplayKeepsSafe(g: Guard, t: seq<Event>)
    requires Safe(g)
    ensures Safe(Replay(g, t))
    decreases |t|
  {
    if t != [] {
      ReplayKeepsSafe(Apply(g, t[0]), t[1..]);
    }
  }

  /** Every trace from boot is safe. */
  lemma BootSafe(t: seq<Event>)
    ensures Safe(Replay(Boot, t))
  {
    ReplayKeepsSafe(Boot, t);
  }

  /** In a trace whose discipline holds, at EVERY point of it, chip select is
      low only inside a critical section. */
  lemma CsLowOnlyInCritical(t: seq<Event>, k: nat)
    requires Replay(Boot, t).ok && k <= |t|
    ensures Replay(Boot, t[..k]).csLow ==> Replay(Boot, t[..k]).depth > 0
  {
    assert t == t[..k] + t[k..];
    ReplayConcat(Boot, t[..k], t[k..]);
    OkMonotone(Replay(Boot, t[..k]), t[k..]);
    ReplayKeepsSafe(Boot, t[..k]);
  }

  /** Select (enter the critical section, then chip select low) and deselect
      (chip select high, then leave it) keep the discipline. */
  lemma SelectDeselectKeepOk(g: Guard)
    ensures Replay(g, [IntDisable, CsLow]) == Guard(g.depth + 1, true, g.ok)
    ensures Replay(g, [CsHigh, IntEnable]) == Guard(if g.depth > 0 then g.depth - 1 else 0, false, g.ok)
  {
    assert [IntDisable, CsLow][1..] == [CsLow];
    assert [CsHigh, IntEnable][1..] == [IntEnable];
  }

  /** The reverse orders break it when no outer critical section is held:
      driving chip select low first, or leaving the section while chip
      select is still low. */
  lemma ReversedOrderBreaksOk(g: Guard)
    requires g.depth == 0
    ensures !Replay(g, [CsLow, IntDisable]).ok
    ensures !Replay(g, [IntDisable, CsLow, IntEnable, CsHigh]).ok
  {
    assert [CsLow, IntDisable][1..] == [IntDisable];
    assert [IntDisable, CsLow, IntEnable, CsHigh][1..] == [CsLow, IntEnable, CsHigh];
    assert [CsLow, IntEnable, CsHigh][1..] == [IntEnable, CsHigh];
    assert [IntEnable, CsHigh][1..] == [CsHigh];
    OkMonotone(Apply(Apply(Apply(g, IntDisable), CsLow), IntEnable), [CsHigh]);
    OkMonotone(Apply(g, CsLow), [IntDisable]);
  }
}
