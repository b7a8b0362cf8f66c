/** The pin descriptor table behind the opaque pin handles, with its cached
    output values. A handle is an index into the table; `None` is NULL. */
module PinRegistry {
  import opened HalTypes

  type PinHandle = Option<nat>

  predicate ValidHandle(pins: seq<PinDesc>, h: PinHandle)
  {
    h.Some? ==> h.value < |pins|
  }

  /** hal_pinSet / hal_pinClr on the table: the handle's cached value becomes
      `v`; a NULL handle leaves the table as it is. */
  function Write(pins: seq<PinDesc>, h: PinHandle, v: byte): (r: seq<PinDesc>)
    requires ValidHandle(pins, h)
    ensures |r| == |pins|
    ensures h.Some? ==> r[h.value] == pins[h.value].(val := v)
    ensures forall i :: 0 <= i < |pins| && h != Some(i) ==> r[i] == pins[i]
  {
    if h.None? then pins else pins[h.value := pins[h.value].(val := v)]
  }

  /** hal_pinGet: 0 for NULL, the live level `live` for a pin in exactly
      the input mode, the cached value for every other mode. */
  function Read(pins: seq<PinDesc>, h: PinHandle, live: byte): byte
    requires ValidHandle(pins, h)
  {
    if h.None? then 0
    else if pins[h.value].mode != Input then pins[h.value].val
    else live
  }

  /** Get after set or clear returns what was written, whatever the live
      electrical level is, unless the pin is in plain input mode. */
  lemma ReadAfterWrite(pins: seq<PinDesc>, h: PinHandle, v: byte, live: byte)
    requires ValidHandle(pins, h) && h.Some? && pins[h.value].mode != Input
    ensures Read(Write(pins, h, v), h, live) == v
  {
  }

  /** A pin in plain input mode reads the live level, whatever was written. */
  lemma InputReadsLive(pins: seq<PinDesc>, h: PinHandle, v: byte, live: byte)
    requires ValidHandle(pins, h) && h.Some? && pins[h.value].mode == Input
    ensures Read(Write(pins, h, v), h, live) == live
  {
  }

  /** Writing through one handle is invisible through a different handle. */
  lemma WriteIsolated(pins: seq<PinDesc>, h: PinHandle, g: PinHandle, v: byte, live: byte)
    requires ValidHandle(pins, h) && ValidHandle(pins, g) && h != g && g.Some?
    ensures Read(Write(pins, h, v), g, live) == Read(pins, g, live)
  {
  }

  /** Same ports, pins and modes: only the cached values may differ. */
  predicate SameLayout(a: seq<PinDesc>, b: seq<PinDesc>)
  {
    |a| == |b| &&
    forall i :: 0 <= i < |a| ==> a[i].port == b[i].port && a[i].pin == b[i].pin && a[i].mode == b[i].mode
  }

  /** Writing a cached value keeps the layout of the table. */
  lemma WriteKeepsLayout(pins: seq<PinDesc>, h: PinHandle, v: byte, base: seq<PinDesc>)
    requires ValidHandle(pins, h) && SameLayout(pins, base)
    ensures SameLayout(Write(pins, h, v), base)
  {
  }
}
