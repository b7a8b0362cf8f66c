/** The pin-number demultiplexing of external interrupts to their slots. */
module ExtiDispatch {
  import opened HalTypes

  /** The lowest slot index whose descriptor has pin number `pin`. */
  function FirstMatch(table: seq<PinDesc>, pin: nat): (r: Option<nat>)
    ensures r.Some? ==> r.value < |table| && table[r.value].pin == pin
    ensures r.Some? ==> forall j :: 0 <= j < r.value ==> table[j].pin != pin
    ensures r.None? <==> forall j :: 0 <= j < |table| ==> table[j].pin != pin
  {
    if table == [] then None
    else if table[0].pin == pin then Some(0)
    else match FirstMatch(table[1..], pin)
      case None => None
      case Some(k) => Some(k + 1)
  }

  /** A slot that matches and is preceded by no matching slot is the first match. */
  lemma FirstMatchAt(table: seq<PinDesc>, pin: nat, ix: nat)
    requires ix < |table| && table[ix].pin == pin
    requires forall j :: 0 <= j < ix ==> table[j].pin != pin
    ensures FirstMatch(table, pin) == Some(ix)
  {
  }

  /** The callback a raw interrupt on `pin` runs: that of the first matching
      slot, which may be NULL; none when no slot matches. */
  function Selected(table: seq<PinDesc>, cbs: seq<Option<CallbackId>>, pin: nat): Option<CallbackId>
    requires |cbs| == |table|
  {
    match FirstMatch(table, pin)
    case None => None
    case Some(ix) => cbs[ix]
  }

  /** The events of calling a nullable callback. */
  function InvokeOf(cb: Option<CallbackId>): (r: seq<Event>)
    ensures |r| <= 1
    ensures cb.None? <==> r == []
    ensures cb.Some? ==> r == [Invoke(cb.value)]
  {
    match cb
    case None => []
    case Some(c) => [Invoke(c)]
  }

  /** Pin numbers of the table are pairwise different. */
  predicate DistinctPins(table: seq<PinDesc>)
  {
    forall i, j :: 0 <= i < j < |table| ==> table[i].pin != table[j].pin
  }

  /** With distinct pins, an interrupt on a slot's pin runs exactly that
      slot's callback, and nothing when that slot's callback is NULL. */
  lemma DispatchOwnSlot(table: seq<PinDesc>, cbs: seq<Option<CallbackId>>, k: nat)
    requires |cbs| == |table| && DistinctPins(table) && k < |table|
    ensures Selected(table, cbs, table[k].pin) == cbs[k]
  {
    FirstMatchAt(table, table[k].pin, k);
  }

  /** A pin that no slot carries runs no callback. */
  lemma UnmatchedDropped(table: seq<PinDesc>, cbs: seq<Option<CallbackId>>, pin: nat)
    requires |cbs| == |table|
    requires forall j :: 0 <= j < |table| ==> table[j].pin != pin
    ensures Selected(table, cbs, pin) == None
  {
  }

  /** When two slots share a pin, the later one never runs: the scan stops
      at the earlier one whether or not its callback is NULL. */
  lemma SharedPinShadows(table: seq<PinDesc>, cbs: seq<Option<CallbackId>>, j: nat, k: nat)
    requires |cbs| == |table| && j < k < |table| && table[j].pin == table[k].pin
    ensures FirstMatch(table, table[k].pin) != Some(k)
    ensures Selected(table, cbs, table[k].pin) == cbs[FirstMatch(table, table[k].pin).value]
  {
  }
}
