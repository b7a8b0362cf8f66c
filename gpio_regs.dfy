/** The GPIO interrupt registers the HAL changes: interrupt enable (IEN),
    interrupt flags (IF), rising-edge (EXTIRISE) and falling-edge (EXTIFALL)
    selection. A 32-bit register is modelled as the set of its bit positions
    that are 1, so `1 << pin` is the set holding only `pin`. */
module GpioRegs {

  type Reg = set<nat>

  /** `1 << pin` */
  function PinMask(pin: nat): (m: Reg)
    requires pin < 32
    ensures pin in m && |m| == 1
    ensures forall b :: b in m ==> b == pin
  {
    {pin}
  }

  /** `reg |= mask` (GPIO_IntEnable): the mask's bits become 1, others keep their value. */
  function SetBits(r: Reg, mask: Reg): (s: Reg)
    ensures forall b :: b in mask ==> b in s
    ensures forall b :: b !in mask ==> (b in s <==> b in r)
  {
    r + mask
  }

  /** `reg &= ~mask` (GPIO_IntDisable; GPIO_IntClear on the flags): the
      mask's bits become 0, others keep their value. */
  function ClearBits(r: Reg, mask: Reg): (s: Reg)
    ensures forall b :: b in mask ==> b !in s
    ensures forall b :: b !in mask ==> (b in s <==> b in r)
  {
    r - mask
  }

  /** One bit written with `v`, as GPIO_IntConfig writes the edge and enable bits. */
  function WriteBit(r: Reg, pin: nat, v: bool): (s: Reg)
    requires pin < 32
    ensures pin in s <==> v
    ensures forall b :: b != pin ==> (b in s <==> b in r)
  {
    if v then SetBits(r, PinMask(pin)) else ClearBits(r, PinMask(pin))
  }
}
