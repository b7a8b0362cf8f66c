# EFM32LG990 board HAL — Dafny model

This project models the stateful core of the emb6 board support for the
EFM32LG990F256 microcontroller (`target/mcu/efm32lg990f256/efm32lg990.c`).
The file keeps its state in globals. Here that state is the class
`Efm32lg990.Hal`:

- the tick and second counters `l_hal_tick` / `l_hal_sec`;
- the callback table `pf_hal_exti` (an array of nullable callback ids) and `pf_hal_radioCb`;
- the pin descriptor table `s_hal_gpio`, whose cached `val` fields the pin calls write in place;
- the read-only external-interrupt pin table `s_hal_exti_gpio`;
- the SPI chip-select descriptor and the driver handle;
- the GPIO interrupt registers: enable, flags, rising edge, falling edge;
- the `INT_Disable` nesting depth and the chip-select level;
- the bytes sent on the SPI bus;
- an event trace of the vendor-library calls that drive pins and interrupts, and of the application callbacks that run.

Each modelled hardware call is an abstract effect, of one of three kinds:

- **An event in the trace.** These are `INT_Disable` / `INT_Enable`, `GPIO_PinModeSet`, `GPIO_PinOutSet`, `GPIO_PinOutClear` (chip-select writes appear as `CsLow` / `CsHigh`), `GPIO_IntConfig`, `GPIOINT_Init`, `GPIOINT_CallbackRegister`, `Tmr_Update`, and each application callback invocation.
- **A change to a register field.** `GPIO_IntEnable` and `GPIO_IntDisable` change `ien`, `GPIO_IntClear` changes `flags`, and `GPIO_IntConfig` also writes `rise`, `fall` and `ien`.
- **A byte appended to `mosi`.** `USART_SpiTransfer` does this, and answers with the `slave` oracle's reply.

`SPIDRV_Init`, `TIMER_IntGet` / `TIMER_IntClear` and the other calls listed under "## Left out" are not recorded.

Components:

- **Time base** (`TimeBase`, `Hal.TimerCallback`, `Hal.TimerIrq`, getters).
  The second test `tick % CONF_TICK_SEC == 0` runs before the increment. So the
  first tick already counts a second. After `n` ticks from boot,
  `sec = ceil(n / CONF_TICK_SEC)`. The class keeps this as an invariant.
- **Interrupt dispatch** (`ExtiDispatch`, `GpioRegs`, `Hal.ExtiRegister`,
  `Hal.ExtiCallback`, `Hal.RadioCallback`, `Hal.ExtiEnable/Disable/Clear`).
  The dispatcher takes the first slot whose pin matches. It runs that slot's callback
  only if it is non-NULL, then stops. A 32-bit register is modelled as
  the set of its 1-bit positions, so `1 << pin` is `{pin}`.
- **Pin registry** (`PinRegistry`, `Hal.PinInit`, `Hal.PinSet/PinClr/PinGet`).
  A handle is an index into `s_hal_gpio`; `None` is NULL.
- **Bus transaction guard** (`BusGuard`, `Hal.SlaveSel`, `Hal.SpiRead/SpiWrite/SpiTxRx`).
  `BusGuard.Replay` reads the trace. Its `ok` flag records two rules: chip
  select goes low only inside a critical section, and no critical section
  is left while chip select is low. `SlaveSel` never breaks either rule.
  The SPI slave is an oracle `slave(bytesSentBefore, tx)`.

Configuration macros that come from headers outside this file are fields of
`BoardConf`: pin and port numbers, `CONF_TICK_SEC`, `CLOCK_SECOND` and
`NETSTK_CFG_ARG_CHK_EN`. They are not fixed constants. `E_TARGET_EXT_INT_MAX` is 4,
as the four-entry table at lines 208-215 shows. `ExtInt.Ext(k)` is
`E_TARGET_EXT_INT_k` and indexes both tables.

Where the code's comments or interface names suggest otherwise, the model follows the code:

- The radio registration ends with the line enabled and rising-edge only, whatever `e_edge` says and
  despite the "falling edge" comment. Only external lines 0..2 end disabled.
- A NULL callback is refused only when argument checking is configured on. With it off,
  a NULL callback is stored. With it on, registering NULL after a real callback keeps
  the old callback, and the line still fires it: the line is not made inert.
- `GPIOINT_Init` runs before the identity switch. So the USART and unknown
  identities add that one event and change nothing else.
- Nothing checks that a transfer happens between select and deselect. The
  transfer calls dereference the driver handle on each byte. So a call with
  `len` of at least 1 requires `hal_spiInit` to have run. A call with
  `len` = 0 does not.
- `hal_pinGet` returns the cached byte for every mode except exactly
  `gpioModeInput`. That includes `gpioModeInputPull`.
- `hal_pinInit` and `hal_ctrlPinInit` drive the reset and sleep pins high but leave
  their cached `val` unchanged, which is 0 from reset. So a `hal_pinGet` right after
  the first call returns 0 although the pin is driven high.

## Model

| member | source | states |
|---|---|---|
| `Efm32lg990.Hal.constructor` | target/mcu/efm32lg990f256/efm32lg990.c:143-225 | the reset state: counters zero, every callback NULL, the six-entry `s_hal_gpio` (rst, irq, slp as initialised, the three rf_isq entries zeroed) and the four-entry `s_hal_exti_gpio` as initialised, registers clear, empty trace |
| `Efm32lg990.Hal.TimerCallback` | target/mcu/efm32lg990f256/efm32lg990.c:315-323 | tick rises by exactly 1; sec rises by 1 iff the OLD tick is a multiple of CONF_TICK_SEC; one timer-service update; keeps the invariant sec = ceil(tick / CONF_TICK_SEC) |
| `Efm32lg990.Hal.TimerIrq` | target/mcu/efm32lg990f256/efm32lg990.c:241-251 | one tick step bracketed by INT_Disable / INT_Enable; the critical-section depth is unchanged and the guard discipline is kept |
| `TimeBase.SecondsStep` | target/mcu/efm32lg990f256/efm32lg990.c:318-320 | ceil(n / P) grows by one going from n to n + 1 exactly when n is a multiple of P, which is the handler's test |
| `TimeBase.RunFromBoot` | target/mcu/efm32lg990f256/efm32lg990.c:315-320 | after n ticks from zero, tick = n and sec = ceil(n / CONF_TICK_SEC) |
| `TimeBase.SecondsVersusFloor` | target/mcu/efm32lg990f256/efm32lg990.c:318-319 | sec equals floor(tick / P) at multiples of P and is one ahead otherwise; any tick count of at least 1 gives at least one second |
| `Efm32lg990.Hal.GetTick` | target/mcu/efm32lg990f256/efm32lg990.c:847-850 | returns the tick counter, changing nothing |
| `Efm32lg990.Hal.GetSec` | target/mcu/efm32lg990f256/efm32lg990.c:855-858 | returns the second counter, which is ceil(tick / CONF_TICK_SEC) |
| `Efm32lg990.Hal.GetTRes` | target/mcu/efm32lg990f256/efm32lg990.c:864-867 | returns CLOCK_SECOND |
| `Efm32lg990.Hal.EnterCritical` | target/mcu/efm32lg990f256/efm32lg990.c:360-365 | depth rises by one, one INT_Disable event, discipline unchanged |
| `Efm32lg990.Hal.ExitCritical` | target/mcu/efm32lg990f256/efm32lg990.c:370-375 | depth falls by one and not below zero; the discipline breaks exactly when this leaves depth 0 with chip select low |
| `Efm32lg990.Hal.Init` | target/mcu/efm32lg990f256/efm32lg990.c:380-388 | returns 1 and leaves the radio callback and every external callback NULL |
| `Efm32lg990.Hal.RadioCallback` | target/mcu/efm32lg990f256/efm32lg990.c:329-333 | runs the radio callback iff it is non-NULL, and nothing else |
| `Efm32lg990.Hal.ExtiCallback` | target/mcu/efm32lg990f256/efm32lg990.c:338-350 | runs at most one callback: that of the lowest slot whose pin matches, only if non-NULL; none when no slot matches |
| `ExtiDispatch.FirstMatch` | target/mcu/efm32lg990f256/efm32lg990.c:342-348 | the lowest index whose pin matches, with no earlier match; None iff no slot matches |
| `ExtiDispatch.FirstMatchAt` | target/mcu/efm32lg990f256/efm32lg990.c:342-347 | a matching slot with no earlier match is the one the scan stops at |
| `ExtiDispatch.DispatchOwnSlot` | target/mcu/efm32lg990f256/efm32lg990.c:338-350 | with distinct pins, an event on a slot's pin runs exactly that slot's callback, or nothing if it is NULL |
| `ExtiDispatch.UnmatchedDropped` | target/mcu/efm32lg990f256/efm32lg990.c:342-349 | an event on a pin no slot carries runs nothing |
| `ExtiDispatch.SharedPinShadows` | target/mcu/efm32lg990f256/efm32lg990.c:343-347 | when two slots share a pin, the later slot is never dispatched |
| `ExtiDispatch.InvokeOf` | target/mcu/efm32lg990f256/efm32lg990.c:344-345 | a NULL callback produces no invocation, a non-NULL one exactly one |
| `Efm32lg990.Hal.ExtiRegister` | target/mcu/efm32lg990f256/efm32lg990.c:487-569 | NULL with argument checking: no change. Radio: stores the callback, rising-only, enabled. Lines 0..2: only their own slot is overwritten; Falling gives falling-only, else rising-only; the enable bit ends clear. USART or unknown: only the GPIOINT_Init call |
| `Efm32lg990.Hal.RegisterRadio` | target/mcu/efm32lg990f256/efm32lg990.c:509-522 | the radio case: stores the callback, mode set of the radio IRQ pin, handler registration, then rising-only and enabled on that pin |
| `Efm32lg990.Hal.RegisterExt` | target/mcu/efm32lg990f256/efm32lg990.c:527-564 | lines 0..2: only slot k is overwritten; Falling gives falling-only, any other edge rising-only; the line ends disabled |
| `Efm32lg990.Hal.ExtiEnable` | target/mcu/efm32lg990f256/efm32lg990.c:587-593 | sets enable bit `1 << pin` of the slot's pin; every other bit unchanged |
| `Efm32lg990.Hal.ExtiDisable` | target/mcu/efm32lg990f256/efm32lg990.c:598-604 | clears enable bit `1 << pin`; every other bit unchanged |
| `Efm32lg990.Hal.ExtiClear` | target/mcu/efm32lg990f256/efm32lg990.c:575-581 | clears pending bit `1 << pin`; every other bit unchanged |
| `GpioRegs.PinMask` | target/mcu/efm32lg990f256/efm32lg990.c:579 | `1 << pin` has exactly the one bit `pin` |
| `GpioRegs.SetBits` | target/mcu/efm32lg990f256/efm32lg990.c:592 | the mask's bits become 1, all others keep their value |
| `GpioRegs.ClearBits` | target/mcu/efm32lg990f256/efm32lg990.c:603 | the mask's bits become 0, all others keep their value |
| `GpioRegs.WriteBit` | target/mcu/efm32lg990f256/efm32lg990.c:546-556 | the edge and enable bits GPIO_IntConfig writes take the given value, others unchanged |
| `Efm32lg990.Hal.PinInit` | target/mcu/efm32lg990f256/efm32lg990.c:656-686 | RST and SLPTR return their descriptor after mode set and drive high; other kinds return NULL with no effect; no cached value changes |
| `Efm32lg990.Hal.CtrlPinInit` | target/mcu/efm32lg990f256/efm32lg990.c:621-651 | the same as hal_pinInit |
| `Efm32lg990.Hal.PinSet` | target/mcu/efm32lg990f256/efm32lg990.c:691-700 | NULL: no-op; otherwise that descriptor's value becomes 1 and the pin is driven high; no other descriptor changes |
| `Efm32lg990.Hal.PinClr` | target/mcu/efm32lg990f256/efm32lg990.c:705-714 | NULL: no-op; otherwise that descriptor's value becomes 0 and the pin is driven low; no other descriptor changes |
| `Efm32lg990.Hal.PinGet` | target/mcu/efm32lg990f256/efm32lg990.c:719-731 | 0 for NULL, the live level only in exactly input mode, the cached value otherwise |
| `PinRegistry.Write` | target/mcu/efm32lg990f256/efm32lg990.c:695-697 | only the handle's cached value changes, to the written value |
| `PinRegistry.ReadAfterWrite` | target/mcu/efm32lg990f256/efm32lg990.c:697-728 | get after set is 1 and get after clr is 0, whatever the live line says, unless the mode is plain input |
| `PinRegistry.InputReadsLive` | target/mcu/efm32lg990f256/efm32lg990.c:727-730 | a plain input pin reads the live level whatever was written |
| `PinRegistry.WriteIsolated` | target/mcu/efm32lg990f256/efm32lg990.c:695-713 | writing through one handle is invisible through another |
| `PinRegistry.WriteKeepsLayout` | target/mcu/efm32lg990f256/efm32lg990.c:696-697 | set and clr never change a descriptor's port, pin or mode |
| `Efm32lg990.Hal.SpiInit` | target/mcu/efm32lg990f256/efm32lg990.c:747-756 | handle becomes non-NULL; chip select is configured and driven high |
| `Efm32lg990.Hal.SlaveSel` | target/mcu/efm32lg990f256/efm32lg990.c:762-786 | NULL: returns 0, no change. Select: INT_Disable then CS low. Deselect: CS high then INT_Enable. Returns 1. The discipline is kept, so CS is low only while a critical section is held |
| `BusGuard.SelectDeselectKeepOk` | target/mcu/efm32lg990f256/efm32lg990.c:773-784 | select and deselect in the source's order leave the discipline flag as it was |
| `BusGuard.ReversedOrderBreaksOk` | target/mcu/efm32lg990f256/efm32lg990.c:773-784 | with the order of either pair reversed, the discipline would break |
| `BusGuard.CsLowOnlyInCritical` | target/mcu/efm32lg990f256/efm32lg990.c:762-786 | in a trace that keeps the discipline, at every point of it CS is low only inside a critical section |
| `BusGuard.ReplayKeepsSafe` | target/mcu/efm32lg990f256/efm32lg990.c:360-375 | no sequence of events reaches CS low at depth 0 without breaking the discipline |
| `Efm32lg990.Hal.SpiRead` | target/mcu/efm32lg990f256/efm32lg990.c:791-797 | exactly len transfers of 0xFF in index order; reg[i] is the reply to the i-th; the rest of reg untouched; returns reg[0]; with len = 0 it needs no initialised driver |
| `Efm32lg990.Hal.SpiWrite` | target/mcu/efm32lg990f256/efm32lg990.c:802-807 | exactly len transfers, of buf[0..len) in index order; with len = 0 it needs no initialised driver |
| `Efm32lg990.Hal.SpiTxRx` | target/mcu/efm32lg990f256/efm32lg990.c:810-818 | exactly len transfers in index order; rx[i] is the reply to tx[i]; len = 0 sends nothing and needs no initialised driver; also holds when tx and rx are one buffer |
| `UserIo.AsWrittenOverreads` | target/mcu/efm32lg990f256/efm32lg990.c:403-411 | the loop bounded by `sizeof(s_hal_userio)` visits indices past the two-entry table |
| `UserIo.IntendedStaysInTable` | target/mcu/efm32lg990f256/efm32lg990.c:403-405 | bounded by the element count, the loop visits exactly entries 0 and 1 |

## Left out

- Chip and clock bring-up (`CHIP_Init`, `_hal_clksInit`) and timer register set-up (`_hal_tcInit`): one-shot vendor configuration with no state of this file's.
- The timer interrupt flag read and clear in `TIMER1_IRQHandler`: hardware bookkeeping. Only the critical section and the tick step are modelled.
- Watchdog init, start, stop and reset: pure pass-through to emlib.
- `hal_delay_us`: a busy-wait with no observable state.
- `hal_ledOn` / `hal_ledOff`: hardware writes with no cached state. Indices other than 0 and 1 do nothing.
- The user-IO loop of `hal_init` is not part of `Hal.Init`. Its bound is a defect, see Findings.
- `hal_getrand`: a placeholder that always returns 0.
- `SPIDRV_Init` configuration and the `LOG_ERR` message of `hal_spiSlaveSel`: vendor set-up and logging.
- `Tmr_Update`: recorded only as a `TmrUpdate` event. The timer service is not part of this model.
- The GPIOINT dispatcher that maps a raw pin interrupt to `_hal_radioCb` / `_hal_extiCb`, and whether the enable bit masks the event, are inside emlib. `GPIOINT_CallbackRegister` is recorded as an event.
- Real interrupt preemption and concurrency: the critical section is a depth counter plus trace events. `INT_Enable` is taken not to count below zero.
- Live electrical levels (`GPIO_PinInGet`) and the USART: `PinGet` takes the live level as a parameter, and the bus is the `slave` oracle.
- Counter widths: `clock_time_t` is not shown, so the counters are unbounded `nat` and wrap-around is not modelled.
- `GPIO_IntConfig` port selection and any pending-flag clearing inside emlib: only the edge and enable bits it writes are modelled.
- `Hal.SpiInit` configures chip select push-pull with output value 0 before driving it high. That brief low level sits inside `ModeSet`, which `BusGuard` does not treat as a chip-select event.
- Efm32lg990.Hal.SpiTxRx: models `p_tx` and `p_rx` as the same buffer or as disjoint buffers. Partly overlapping buffers, such as `p_rx = p_tx + 1` where each reply becomes the next byte sent, are not modelled.
- ExtiEnable: requires an identity inside the four-entry table, because the source indexes `s_hal_exti_gpio` with it unchecked.
- ExtiDisable: requires an identity inside the four-entry table, for the same reason.
- ExtiClear: requires an identity inside the four-entry table, for the same reason.
- Efm32lg990.Hal.SpiRead: requires `reg` to hold at least one byte and `len` bytes, because the source reads `*p_reg` unconditionally. For `len` of at least 1 it also requires `hal_spiInit` to have run, because each transfer dereferences the driver handle.
- Efm32lg990.Hal.SpiWrite: requires `buf` to hold `len` bytes. For `len` of at least 1 it also requires `hal_spiInit` to have run, for the same reason.
- Efm32lg990.Hal.SpiTxRx: requires both buffers to hold `len` bytes. For `len` of at least 1 it also requires `hal_spiInit` to have run, for the same reason.

## Findings

| source | as written | input that shows it | evidently intended | confidence | as-written member | corrected member |
|---|---|---|---|---|---|---|
| target/mcu/efm32lg990f256/efm32lg990.c:403 | `ix < sizeof( s_hal_userio)` bounds the loop by the table's size in bytes | any descriptor size of at least 2 bytes; with 4-byte enums the descriptor is 16 bytes (enum, `uint8_t` and 3 padding bytes, enum, `uint8_t` and 3 padding bytes), giving 32 iterations over a 2-entry table that read `s_hal_userio[2..31]` | `ix < sizeof(s_hal_userio) / sizeof(s_hal_userio[0])`, two iterations | not executed; high | `UserIo.AsWrittenOverreads` | `UserIo.IntendedStaysInTable` |
