/** The EFM32LG990 board HAL: its global state and the operations that
    update it (target/mcu/efm32lg990f256/efm32lg990.c). */
module Efm32lg990 {
  import opened HalTypes
  import TimeBase
  import GpioRegs
  import ExtiDispatch
  import PinRegistry
  import BusGuard

  /** A GPIO port and pin number. */
  datatype Loc = Loc(port: nat, pin: nat)

  /** The values the board and stack configuration headers supply. */
  datatype BoardConf = BoardConf(
    rfRst: Loc,         // EFM32_IO_PORT_RF_RST / EFM32_IO_PIN_RF_RST
    rfIrq: Loc,         // EFM32_IO_PORT_RF_IRQ / EFM32_IO_PIN_RF_IRQ
    rfSlp: Loc,         // EFM32_IO_PORT_RF_SLP / EFM32_IO_PIN_RF_SLP
    irq0: Loc,          // EFM32_IO_PORT_RF_IRQ_0 / EFM32_IO_PIN_RF_IRQ_0
    irq2: Loc,          // EFM32_IO_PORT_RF_IRQ_2 / EFM32_IO_PIN_RF_IRQ_2
    irq3: Loc,          // EFM32_IO_PORT_RF_IRQ_3 / EFM32_IO_PIN_RF_IRQ_3
    usartCs: Loc,       // EFM32_IO_PORT_USART_CS / EFM32_IO_PIN_USART_CS
    tickSec: nat,       // CONF_TICK_SEC
    clockSecond: nat,   // CLOCK_SECOND
    argChk: bool)       // NETSTK_CFG_ARG_CHK_EN

  /** An EFM32 GPIO port has 16 pins, so every `1 << pin` fits a 32-bit register. */
  predicate ConfOk(c: BoardConf)
  {
    && c.tickSec > 0
    && c.rfRst.pin < 16 && c.rfIrq.pin < 16 && c.rfSlp.pin < 16
    && c.irq0.pin < 16 && c.irq2.pin < 16 && c.irq3.pin < 16
    && c.usartCs.pin < 16
  }

  /** Indices of s_hal_gpio (e_hal_gpios_t). */
  const RF_RST: nat := 0
  const RF_IRQ: nat := 1
  const RF_SLP: nat := 2
  const RF_ISQ_0: nat := 3
  const RF_ISQ_1: nat := 4
  const RF_ISQ_2: nat := 5
  const GPIOS_MAX: nat := 6

  /** The initial contents of s_hal_gpio: the initialiser names the first
      three entries; the three rf_isq entries are zero-initialised, which is
      port 0, pin 0, gpioModeDisabled, value 0. */
  function GpioTable(c: BoardConf): (t: seq<PinDesc>)
    ensures |t| == GPIOS_MAX
  {
    [ PinDesc(c.rfRst.port, c.rfRst.pin, PushPull, 0),
      PinDesc(c.rfIrq.port, c.rfIrq.pin, InputPull, 0),
      PinDesc(c.rfSlp.port, c.rfSlp.pin, PushPull, 0),
      PinDesc(0, 0, Disabled, 0),
      PinDesc(0, 0, Disabled, 0),
      PinDesc(0, 0, Disabled, 0) ]
  }

  /** s_hal_exti_gpio: three external lines and the unsupported all-zero slot 3. */
  function ExtiTable(c: BoardConf): (t: seq<PinDesc>)
    ensures |t| == EXT_INT_MAX
  {
    [ PinDesc(c.irq0.port, c.irq0.pin, InputPull, 0),
      PinDesc(c.irq2.port, c.irq2.pin, InputPull, 0),
      PinDesc(c.irq3.port, c.irq3.pin, InputPull, 0),
      PinDesc(0, 0, Disabled, 0) ]
  }

  /** en_targetExtPin_t, as far as the pin init calls distinguish it. */
  datatype PinKind = RadioRst | RadioSlpTr | OtherPin(code: nat)

  /** The handle hal_spiInit returns: NULL, or the address of s_hal_spi. */
  datatype SpiHandle = NullSpi | SpiDrv

  /** The MOSI bytes hal_spiRead clocks out: 0xFF for each byte read. */
  function Dummy(n: nat): (s: seq<byte>)
    ensures |s| == n && forall i :: 0 <= i < n ==> s[i] == 0xFF
  {
    seq(n, _ => 0xFF)
  }

  class Hal {
    const conf: BoardConf
    /** The SPI slave: its reply to a byte, given every byte sent before. */
    const slave: (seq<byte>, byte) -> byte
    /** s_hal_exti_gpio (never written) */
    const extiGpio: seq<PinDesc>
    /** s_hal_spi.csPin */
    const csPin: PinDesc
    /** s_hal_gpio, whose cached values the pin calls write */
    const gpio: array<PinDesc>
    /** pf_hal_exti */
    const extiCb: array<Option<CallbackId>>

    /** l_hal_tick, l_hal_sec */
    var tick: nat
    var sec: nat
    /** pf_hal_radioCb */
    var radioCb: Option<CallbackId>
    /** GPIO IEN, IF, EXTIRISE and EXTIFALL */
    var ien: GpioRegs.Reg
    var flags: GpioRegs.Reg
    var rise: GpioRegs.Reg
    var fall: GpioRegs.Reg
    /** Nesting depth of INT_Disable, and whether chip select is driven low */
    var critDepth: nat
    var csLow: bool
    /** s_hal_spi.pHndl != NULL */
    var spiReady: bool
    /** Every byte sent on the SPI bus so far */
    var mosi: seq<byte>
    /** Every effect on the vendor library and the application so far */
    var trace: seq<Event>

    ghost predicate Valid()
      reads this, gpio, extiCb
    {
      && ConfOk(conf)
      && extiGpio == ExtiTable(conf)
      && csPin == PinDesc(conf.usartCs.port, conf.usartCs.pin, PushPull, 0)
      && gpio.Length == GPIOS_MAX && extiCb.Length == EXT_INT_MAX
      && PinRegistry.SameLayout(gpio[..], GpioTable(conf))
      // slot 3 has no case in hal_extiRegister, so its callback stays NULL
      && extiCb[EXT_INT_MAX - 1] == None
      && sec == TimeBase.SecondsAt(tick, conf.tickSec)
      && BusGuard.Replay(BusGuard.Boot, trace).depth == critDepth
      && BusGuard.Replay(BusGuard.Boot, trace).csLow == csLow
    }

    /** Chip select has gone low only inside a critical section, and no
        critical section has been left with it low, over the whole trace. */
    ghost predicate GuardOk()
      reads this
    {
      BusGuard.Replay(BusGuard.Boot, trace).ok
    }

    /** The state at reset: zero-initialised statics and registers. */
    constructor (c: BoardConf, bus: (seq<byte>, byte) -> byte)
      requires ConfOk(c)
      ensures Valid() && fresh(gpio) && fresh(extiCb)
      ensures conf == c && slave == bus
      ensures gpio[..] == GpioTable(c)
      ensures forall i :: 0 <= i < extiCb.Length ==> extiCb[i] == None
      ensures tick == 0 && sec == 0 && radioCb == None
      ensures ien == {} && flags == {} && rise == {} && fall == {}
      ensures critDepth == 0 && !csLow && !spiReady && mosi == [] && trace == []
      ensures GuardOk()
    {
      conf := c;
      slave := bus;
      extiGpio := ExtiTable(c);
      csPin := PinDesc(c.usartCs.port, c.usartCs.pin, PushPull, 0);
      var t := GpioTable(c);
      gpio := new PinDesc[GPIOS_MAX](i requires 0 <= i < GPIOS_MAX => t[i]);
      extiCb := new Option<CallbackId>[EXT_INT_MAX](_ => None);
      tick, sec := 0, 0;
      radioCb := None;
      ien, flags, rise, fall := {}, {}, {}, {};
      critDepth, csLow, spiReady := 0, false, false;
      mosi, trace := [], [];
      new;
      assert gpio[..] == t;
      assert TimeBase.SecondsAt(0, c.tickSec) == 0 by {
        TimeBase.SecondsVersusFloor(0, c.tickSec);
      }
    }

    // ---------------------------------------------------------------- time base

    /** _hal_tcCb: the second counter moves when the tick counter, before its
        increment, is a multiple of CONF_TICK_SEC; then the timer service is told. */
    method TimerCallback()
      requires Valid()
      modifies this`tick, this`sec, this`trace
      ensures Valid()
      ensures TimeBase.Clock(tick, sec) == TimeBase.Step(TimeBase.Clock(old(tick), old(sec)), conf.tickSec)
      ensures trace == old(trace) + [TmrUpdate]
      ensures GuardOk() == old(GuardOk())
    {
      TimeBase.SecondsStep(tick, conf.tickSec);
      if tick % conf.tickSec == 0 {
        sec := sec + 1;
      }
      tick := tick + 1;
      BusGuard.AppendNeutral(trace, [TmrUpdate]);
      trace := trace + [TmrUpdate];
    }

    /** TIMER1_IRQHandler, without the timer flag handling: the tick step
        inside a critical section. */
    method TimerIrq()
      requires Valid()
      modifies this`tick, this`sec, this`trace, this`critDepth
      ensures Valid()
      ensures TimeBase.Clock(tick, sec) == TimeBase.Step(TimeBase.Clock(old(tick), old(sec)), conf.tickSec)
      ensures critDepth == old(critDepth)
      ensures trace == old(trace) + [IntDisable, TmrUpdate, IntEnable]
      ensures GuardOk() == old(GuardOk())
    {
      BusGuard.BootSafe(trace);
      EnterCritical();
      TimerCallback();
      ExitCritical();
    }

    /** hal_getTick */
    function GetTick(): (t: nat)
      reads this
      ensures t == tick
    {
      tick
    }

    /** hal_getSec: the second counter is always ceil(tick / CONF_TICK_SEC). */
    function GetSec(): (s: nat)
      reads this, gpio, extiCb
      requires Valid()
      ensures s == TimeBase.SecondsAt(tick, conf.tickSec)
      ensures s == tick / conf.tickSec + (if tick % conf.tickSec == 0 then 0 else 1)
    {
      TimeBase.SecondsVersusFloor(tick, conf.tickSec);
      sec
    }

    /** hal_getTRes */
    function GetTRes(): (r: nat)
      reads this
      ensures r == conf.clockSecond
    {
      conf.clockSecond
    }

    // ---------------------------------------------------------------- critical section

    /** hal_enterCritical */
    method EnterCritical()
      requires Valid()
      modifies this`critDepth, this`trace
      ensures Valid()
      ensures critDepth == old(critDepth) + 1
      ensures trace == old(trace) + [IntDisable]
      ensures GuardOk() == old(GuardOk())
    {
      BusGuard.ReplaySnoc(BusGuard.Boot, trace, IntDisable);
      critDepth := critDepth + 1;
      trace := trace + [IntDisable];
    }

    /** hal_exitCritical; INT_Enable does not count below zero. */
    method ExitCritical()
      requires Valid()
      modifies this`critDepth, this`trace
      ensures Valid()
      ensures critDepth == if old(critDepth) > 0 then old(critDepth) - 1 else 0
      ensures trace == old(trace) + [IntEnable]
      ensures GuardOk() == (old(GuardOk()) && !(critDepth == 0 && csLow))
    {
      BusGuard.ReplaySnoc(BusGuard.Boot, trace, IntEnable);
      critDepth := if critDepth > 0 then critDepth - 1 else 0;
      trace := trace + [IntEnable];
    }

    // ---------------------------------------------------------------- interrupts

    /** hal_init, callback reset only: the radio and every external callback
        become NULL. */
    method Init() returns (status: int)
      requires Valid()
      modifies this`radioCb, extiCb
      ensures Valid()
      ensures status == 1
      ensures radioCb == None
      ensures forall i :: 0 <= i < extiCb.Length ==> extiCb[i] == None
    {
      radioCb := None;
      var ix := 0;
      while ix < EXT_INT_MAX
        invariant 0 <= ix <= EXT_INT_MAX
        invariant radioCb == None
        invariant forall i :: 0 <= i < ix ==> extiCb[i] == None
        invariant extiCb[EXT_INT_MAX - 1] == None
      {
        extiCb[ix] := None;
        ix := ix + 1;
      }
      status := 1;
    }

    /** _hal_radioCb: the radio callback runs when it is not NULL. */
    method RadioCallback(pin: nat)
      requires Valid()
      modifies this`trace
      ensures Valid()
      ensures trace == old(trace) + ExtiDispatch.InvokeOf(radioCb)
      ensures GuardOk() == old(GuardOk())
    {
      if radioCb.Some? {
        BusGuard.AppendNeutral(trace, [Invoke(radioCb.value)]);
        trace := trace + [Invoke(radioCb.value)];
      }
    }

    /** _hal_extiCb: scan the slots in order, stop at the first whose pin is
        `pin`, and run its callback if it is not NULL. */
    method ExtiCallback(pin: nat)
      requires Valid()
      modifies this`trace
      ensures Valid()
      ensures trace == old(trace) + ExtiDispatch.InvokeOf(ExtiDispatch.Selected(extiGpio, extiCb[..], pin))
      ensures GuardOk() == old(GuardOk())
    {
      var ix := 0;
      while ix < EXT_INT_MAX
        invariant 0 <= ix <= EXT_INT_MAX
        invariant forall j :: 0 <= j < ix ==> extiGpio[j].pin != pin
        invariant trace == old(trace)
      {
        if extiGpio[ix].pin == pin {
          ExtiDispatch.FirstMatchAt(extiGpio, pin, ix);
          if extiCb[ix].Some? {
            BusGuard.AppendNeutral(trace, [Invoke(extiCb[ix].value)]);
            trace := trace + [Invoke(extiCb[ix].value)];
          }
          return;
        }
        ix := ix + 1;
      }
    }

    /** hal_extiRegister. With argument checking on a NULL callback changes
        nothing. Otherwise GPIOINT_Init runs, and then: the radio stores its
        callback and is set up rising-edge and enabled whatever `edge` says;
        external lines 0..2 overwrite their own slot, get falling-only edges
        for Falling and rising-only otherwise, and end disabled; the USART and
        unknown identities change nothing more. */
    method ExtiRegister(e: ExtInt, edge: Edge, cb: Option<CallbackId>)
      requires Valid()
      modifies this`radioCb, this`ien, this`rise, this`fall, this`trace, extiCb
      ensures Valid()
      ensures GuardOk() == old(GuardOk())
      ensures flags == old(flags)
      ensures conf.argChk && cb.None? ==>
        && radioCb == old(radioCb) && extiCb[..] == old(extiCb[..])
        && ien == old(ien) && rise == old(rise) && fall == old(fall)
        && trace == old(trace)
      ensures !(conf.argChk && cb.None?) && e.Radio? ==>
        var p := gpio[RF_IRQ];
        && radioCb == cb && extiCb[..] == old(extiCb[..])
        && rise == old(rise) + {p.pin} && fall == old(fall) - {p.pin} && ien == old(ien) + {p.pin}
        && trace == old(trace) + [GpioIntInit] + [ModeSet(p.port, p.pin, p.mode, p.val),
                                                 CallbackRegister(p.pin, RadioHandler),
                                                 IntConfig(p.port, p.pin, true, false, true)]
      ensures !(conf.argChk && cb.None?) && e.Ext? && e.k < EXT_INT_MAX - 1 ==>
        var p := extiGpio[e.k];
        && radioCb == old(radioCb) && extiCb[..] == old(extiCb[..])[e.k := cb]
        && rise == (if edge == Falling then old(rise) - {p.pin} else old(rise) + {p.pin})
        && fall == (if edge == Falling then old(fall) + {p.pin} else old(fall) - {p.pin})
        && ien == old(ien) - {p.pin}
        && trace == old(trace) + [GpioIntInit] + [ModeSet(p.port, p.pin, p.mode, p.val),
                                                 IntConfig(p.port, p.pin, edge != Falling, edge == Falling, true),
                                                 CallbackRegister(p.pin, ExtiHandler)]
      ensures !(conf.argChk && cb.None?) && (e.Usart? || (e.Ext? && e.k >= EXT_INT_MAX - 1)) ==>
        && radioCb == old(radioCb) && extiCb[..] == old(extiCb[..])
        && ien == old(ien) && rise == old(rise) && fall == old(fall)
        && trace == old(trace) + [GpioIntInit]
    {
      if conf.argChk && cb.None? {
        return;
      }
      BusGuard.AppendNeutral(trace, [GpioIntInit]);
      trace := trace + [GpioIntInit];
      match e {
        case Radio =>
          RegisterRadio(cb);
        case Usart =>
        case Ext(k) =>
          if k < EXT_INT_MAX - 1 {
            RegisterExt(k, edge, cb);
          }
      }
    }

    /** The E_TARGET_RADIO_INT case of hal_extiRegister: store the callback,
        configure the radio IRQ pin, register the radio handler and enable a
        rising-edge interrupt on it. */
    method RegisterRadio(cb: Option<CallbackId>)
      requires Valid()
      modifies this`radioCb, this`ien, this`rise, this`fall, this`trace
      ensures Valid()
      ensures GuardOk() == old(GuardOk())
      ensures radioCb == cb
      ensures var p := gpio[RF_IRQ];
        && rise == old(rise) + {p.pin} && fall == old(fall) - {p.pin} && ien == old(ien) + {p.pin}
        && trace == old(trace) + [ModeSet(p.port, p.pin, p.mode, p.val),
                                  CallbackRegister(p.pin, RadioHandler),
                                  IntConfig(p.port, p.pin, true, false, true)]
    {
      radioCb := cb;
      var p := gpio[RF_IRQ];
      var added := [ModeSet(p.port, p.pin, p.mode, p.val),
                    CallbackRegister(p.pin, RadioHandler),
                    IntConfig(p.port, p.pin, true, false, true)];
      rise := GpioRegs.WriteBit(rise, p.pin, true);
      fall := GpioRegs.WriteBit(fall, p.pin, false);
      ien := GpioRegs.WriteBit(ien, p.pin, true);
      BusGuard.AppendNeutral(trace, added);
      trace := trace + added;
    }

    /** The E_TARGET_EXT_INT_0..2 cases of hal_extiRegister: store the
        callback in slot k, configure the line's pin and its edge, register
        the external handler, and leave the line disabled. */
    method RegisterExt(k: nat, edge: Edge, cb: Option<CallbackId>)
      requires Valid() && k < EXT_INT_MAX - 1
      modifies this`ien, this`rise, this`fall, this`trace, extiCb
      ensures Valid()
      ensures GuardOk() == old(GuardOk())
      ensures extiCb[..] == old(extiCb[..])[k := cb]
      ensures var p := extiGpio[k];
        && rise == (if edge == Falling then old(rise) - {p.pin} else old(rise) + {p.pin})
        && fall == (if edge == Falling then old(fall) + {p.pin} else old(fall) - {p.pin})
        && ien == old(ien) - {p.pin}
        && trace == old(trace) + [ModeSet(p.port, p.pin, p.mode, p.val),
                                  IntConfig(p.port, p.pin, edge != Falling, edge == Falling, true),
                                  CallbackRegister(p.pin, ExtiHandler)]
    {
      var p := extiGpio[k];
      extiCb[k] := cb;
      var falling := edge == Falling;
      var added := [ModeSet(p.port, p.pin, p.mode, p.val),
                    IntConfig(p.port, p.pin, !falling, falling, true),
                    CallbackRegister(p.pin, ExtiHandler)];
      rise := GpioRegs.WriteBit(rise, p.pin, !falling);
      fall := GpioRegs.WriteBit(fall, p.pin, falling);
      ien := GpioRegs.WriteBit(ien, p.pin, true);
      BusGuard.AppendNeutral(trace, added);
      trace := trace + added;
      ExtiDisable(Ext(k));
    }

    /** hal_extiEnable: only bit `1 << pin` of the enable register is set.
        The source indexes s_hal_exti_gpio with the identity, so only the
        four table slots are meaningful. */
    method ExtiEnable(e: ExtInt)
      requires Valid() && e.Ext? && e.k < EXT_INT_MAX
      modifies this`ien
      ensures Valid()
      ensures ien == GpioRegs.SetBits(old(ien), GpioRegs.PinMask(extiGpio[e.k].pin))
      ensures extiGpio[e.k].pin in ien
      ensures forall b :: b != extiGpio[e.k].pin ==> (b in ien <==> b in old(ien))
    {
      ien := GpioRegs.SetBits(ien, GpioRegs.PinMask(extiGpio[e.k].pin));
    }

    /** hal_extiDisable: only bit `1 << pin` of the enable register is cleared. */
    method ExtiDisable(e: ExtInt)
      requires Valid() && e.Ext? && e.k < EXT_INT_MAX
      modifies this`ien
      ensures Valid()
      ensures ien == GpioRegs.ClearBits(old(ien), GpioRegs.PinMask(extiGpio[e.k].pin))
      ensures extiGpio[e.k].pin !in ien
      ensures forall b :: b != extiGpio[e.k].pin ==> (b in ien <==> b in old(ien))
    {
      ien := GpioRegs.ClearBits(ien, GpioRegs.PinMask(extiGpio[e.k].pin));
    }

    /** hal_extiClear: only bit `1 << pin` of the flag register is cleared. */
    method ExtiClear(e: ExtInt)
      requires Valid() && e.Ext? && e.k < EXT_INT_MAX
      modifies this`flags
      ensures Valid()
      ensures flags == GpioRegs.ClearBits(old(flags), GpioRegs.PinMask(extiGpio[e.k].pin))
      ensures extiGpio[e.k].pin !in flags
      ensures forall b :: b != extiGpio[e.k].pin ==> (b in flags <==> b in old(flags))
    {
      flags := GpioRegs.ClearBits(flags, GpioRegs.PinMask(extiGpio[e.k].pin));
    }

    // ---------------------------------------------------------------- pins

    /** hal_pinInit: the reset and sleep pins are configured with their
        cached value and driven high, and their descriptor is returned; other
        kinds give NULL. No cached value changes. */
    method PinInit(kind: PinKind) returns (h: PinRegistry.PinHandle)
      requires Valid()
      modifies this`trace
      ensures Valid()
      ensures GuardOk() == old(GuardOk())
      ensures h == match kind
                   case RadioRst => Some(RF_RST)
                   case RadioSlpTr => Some(RF_SLP)
                   case OtherPin(_) => None
      ensures PinRegistry.ValidHandle(gpio[..], h)
      ensures h.Some? ==>
        var p := gpio[h.value];
        trace == old(trace) + [ModeSet(p.port, p.pin, p.mode, p.val), OutSet(p.port, p.pin)]
      ensures h.None? ==> trace == old(trace)
      ensures gpio[..] == old(gpio[..])
    {
      match kind {
        case RadioRst => h := Some(RF_RST);
        case RadioSlpTr => h := Some(RF_SLP);
        case OtherPin(_) => h := None;
      }
      if h.Some? {
        var p := gpio[h.value];
        BusGuard.AppendNeutral(trace, [ModeSet(p.port, p.pin, p.mode, p.val), OutSet(p.port, p.pin)]);
        trace := trace + [ModeSet(p.port, p.pin, p.mode, p.val), OutSet(p.port, p.pin)];
      }
    }

    /** hal_ctrlPinInit, whose body is the same as hal_pinInit's. */
    method CtrlPinInit(kind: PinKind) returns (h: PinRegistry.PinHandle)
      requires Valid()
      modifies this`trace
      ensures Valid()
      ensures GuardOk() == old(GuardOk())
      ensures h == match kind
                   case RadioRst => Some(RF_RST)
                   case RadioSlpTr => Some(RF_SLP)
                   case OtherPin(_) => None
      ensures PinRegistry.ValidHandle(gpio[..], h)
      ensures h.Some? ==>
        var p := gpio[h.value];
        trace == old(trace) + [ModeSet(p.port, p.pin, p.mode, p.val), OutSet(p.port, p.pin)]
      ensures h.None? ==> trace == old(trace)
      ensures gpio[..] == old(gpio[..])
    {
      h := PinInit(kind);
    }

    /** hal_pinSet: a non-NULL handle's cached value becomes 1 and the pin is
        driven high; no other descriptor changes. */
    method PinSet(h: PinRegistry.PinHandle)
      requires Valid() && PinRegistry.ValidHandle(gpio[..], h)
      modifies gpio, this`trace
      ensures Valid()
      ensures GuardOk() == old(GuardOk())
      ensures gpio[..] == PinRegistry.Write(old(gpio[..]), h, 1)
      ensures trace == old(trace) + (if h.Some? then [OutSet(gpio[h.value].port, gpio[h.value].pin)] else [])
    {
      if h.Some? {
        PinRegistry.WriteKeepsLayout(gpio[..], h, 1, GpioTable(conf));
        gpio[h.value] := gpio[h.value].(val := 1);
        BusGuard.AppendNeutral(trace, [OutSet(gpio[h.value].port, gpio[h.value].pin)]);
        trace := trace + [OutSet(gpio[h.value].port, gpio[h.value].pin)];
      }
    }

    /** hal_pinClr: a non-NULL handle's cached value becomes 0 and the pin is
        driven low; no other descriptor changes. */
    method PinClr(h: PinRegistry.PinHandle)
      requires Valid() && PinRegistry.ValidHandle(gpio[..], h)
      modifies gpio, this`trace
      ensures Valid()
      ensures GuardOk() == old(GuardOk())
      ensures gpio[..] == PinRegistry.Write(old(gpio[..]), h, 0)
      ensures trace == old(trace) + (if h.Some? then [OutClear(gpio[h.value].port, gpio[h.value].pin)] else [])
    {
      if h.Some? {
        PinRegistry.WriteKeepsLayout(gpio[..], h, 0, GpioTable(conf));
        gpio[h.value] := gpio[h.value].(val := 0);
        BusGuard.AppendNeutral(trace, [OutClear(gpio[h.value].port, gpio[h.value].pin)]);
        trace := trace + [OutClear(gpio[h.value].port, gpio[h.value].pin)];
      }
    }

    /** hal_pinGet: 0 for NULL; the live level `live` (GPIO_PinInGet) only
        for a pin in exactly the input mode; the cached value otherwise. */
    method PinGet(h: PinRegistry.PinHandle, live: byte) returns (v: byte)
      requires Valid() && PinRegistry.ValidHandle(gpio[..], h)
      ensures v == PinRegistry.Read(gpio[..], h, live)
      ensures h.None? ==> v == 0
      ensures h.Some? && gpio[h.value].mode != Input ==> v == gpio[h.value].val
    {
      if h.None? {
        return 0;
      }
      var p := gpio[h.value];
      if p.mode != Input {
        v := p.val;
      } else {
        v := live;
      }
    }

    // ---------------------------------------------------------------- SPI

    /** hal_spiInit, handle and chip-select part: the driver handle becomes
        non-NULL and chip select is configured and driven high. */
    method SpiInit() returns (h: SpiHandle)
      requires Valid()
      modifies this`spiReady, this`csLow, this`trace
      ensures Valid()
      ensures GuardOk() == old(GuardOk())
      ensures h == SpiDrv && spiReady && !csLow
      ensures trace == old(trace) + [ModeSet(csPin.port, csPin.pin, csPin.mode, csPin.val), CsHigh]
    {
      spiReady := true;
      BusGuard.AppendNeutral(trace, [ModeSet(csPin.port, csPin.pin, csPin.mode, csPin.val)]);
      trace := trace + [ModeSet(csPin.port, csPin.pin, csPin.mode, csPin.val)];
      BusGuard.ReplaySnoc(BusGuard.Boot, trace, CsHigh);
      csLow := false;
      trace := trace + [CsHigh];
      h := SpiDrv;
    }

    /** hal_spiSlaveSel. NULL: status 0 and nothing changes. Select: enter the
        critical section, then chip select low. Deselect: chip select high,
        then leave the critical section. Neither breaks the guard discipline,
        so chip select is low only while a critical section is held. */
    method SlaveSel(h: SpiHandle, action: bool) returns (status: byte)
      requires Valid()
      modifies this`critDepth, this`csLow, this`trace
      ensures Valid()
      ensures GuardOk() == old(GuardOk())
      ensures GuardOk() && csLow ==> critDepth > 0
      ensures h == NullSpi ==>
        status == 0 && trace == old(trace) && critDepth == old(critDepth) && csLow == old(csLow)
      ensures h == SpiDrv && action ==>
        status == 1 && trace == old(trace) + [IntDisable, CsLow]
        && critDepth == old(critDepth) + 1 && csLow
      ensures h == SpiDrv && !action ==>
        status == 1 && trace == old(trace) + [CsHigh, IntEnable]
        && critDepth == (if old(critDepth) > 0 then old(critDepth) - 1 else 0) && !csLow
    {
      if h == NullSpi {
        BusGuard.BootSafe(trace);
        return 0;
      }
      if action {
        EnterCritical();
        BusGuard.ReplaySnoc(BusGuard.Boot, trace, CsLow);
        csLow := true;
        trace := trace + [CsLow];
      } else {
        BusGuard.ReplaySnoc(BusGuard.Boot, trace, CsHigh);
        csLow := false;
        trace := trace + [CsHigh];
        ExitCritical();
      }
      status := 1;
    }

    /** USART_SpiTransfer: one synchronous byte exchange with the slave. */
    method Transfer(tx: byte) returns (rx: byte)
      requires Valid() && spiReady
      modifies this`mosi
      ensures Valid()
      ensures rx == slave(old(mosi), tx)
      ensures mosi == old(mosi) + [tx]
    {
      rx := slave(mosi, tx);
      mosi := mosi + [tx];
    }

    /** hal_spiRead: `len` transfers of 0xFF in index order, reply i stored at
        reg[i]; returns reg[0], which the source reads whatever `len` is. The
        driver handle is used only by a transfer, so `len` = 0 needs no
        hal_spiInit. */
    method SpiRead(reg: array<byte>, len: uint16) returns (first: byte)
      requires Valid() && (len > 0 ==> spiReady)
      requires 1 <= reg.Length && len <= reg.Length
      modifies reg, this`mosi
      ensures Valid()
      ensures mosi == old(mosi) + Dummy(len)
      ensures forall i :: 0 <= i < len ==> reg[i] == slave(old(mosi) + Dummy(i), 0xFF)
      ensures forall i :: len <= i < reg.Length ==> reg[i] == old(reg[i])
      ensures first == reg[0]
    {
      var i := 0;
      while i < len
        invariant 0 <= i <= len
        invariant Valid() && (len > 0 ==> spiReady)
        invariant mosi == old(mosi) + Dummy(i)
        invariant forall k :: 0 <= k < i ==> reg[k] == slave(old(mosi) + Dummy(k), 0xFF)
        invariant forall k :: i <= k < reg.Length ==> reg[k] == old(reg[k])
      {
        var rx := Transfer(0xFF);
        reg[i] := rx;
        assert Dummy(i + 1) == Dummy(i) + [0xFF];
        i := i + 1;
      }
      first := reg[0];
    }

    /** hal_spiWrite: `len` transfers of buf[0..len) in index order; the
        replies are dropped. */
    method SpiWrite(buf: array<byte>, len: uint16)
      requires Valid() && (len > 0 ==> spiReady)
      requires len <= buf.Length
      modifies this`mosi
      ensures Valid()
      ensures mosi == old(mosi) + buf[..len]
    {
      var i := 0;
      while i < len
        invariant 0 <= i <= len
        invariant Valid() && (len > 0 ==> spiReady)
        invariant mosi == old(mosi) + buf[..i]
      {
        var _ := Transfer(buf[i]);
        assert buf[..i + 1] == buf[..i] + [buf[i]];
        i := i + 1;
      }
    }

    /** hal_spiTxRx: `len` transfers in index order, rx[i] the reply to
        tx[i]; tx and rx may be the same buffer. */
    method SpiTxRx(tx: array<byte>, rx: array<byte>, len: uint16)
      requires Valid() && (len > 0 ==> spiReady)
      requires len <= tx.Length && len <= rx.Length
      modifies rx, this`mosi
      ensures Valid()
      ensures mosi == old(mosi) + old(tx[..len])
      ensures forall i :: 0 <= i < len ==> rx[i] == slave(old(mosi) + old(tx[..i]), old(tx[i]))
      ensures forall i :: len <= i < rx.Length ==> rx[i] == old(rx[i])
    {
      ghost var sent := tx[..];
      var ix := 0;
      while ix < len
        invariant 0 <= ix <= len
        invariant Valid() && (len > 0 ==> spiReady)
        invariant forall k :: ix <= k < len ==> tx[k] == sent[k]
        invariant mosi == old(mosi) + sent[..ix]
        invariant forall k :: 0 <= k < ix ==> rx[k] == slave(old(mosi) + sent[..k], sent[k])
        invariant forall k :: ix <= k < rx.Length ==> rx[k] == old(rx[k])
      {
        var b := Transfer(tx[ix]);
        rx[ix] := b;
        assert sent[..ix + 1] == sent[..ix] + [sent[ix]];
        ix := ix + 1;
      }
    }
  }
}
