/** Values shared by every part of the EFM32LG990 board HAL model. */
module HalTypes {

  /** uint8_t */
  type byte = x: int | 0 <= x < 0x100

  /** uint16_t, the length type of the SPI transfer calls */
  type uint16 = x: int | 0 <= x < 0x1_0000

  /** A nullable value: `None` stands for C NULL. */
  datatype Option<+T> = None | Some(value: T)

  /** An application callback (`pfn_intCallb_t`), identified abstractly. */
  type CallbackId = nat

  /** Number of entries of the external-interrupt tables (E_TARGET_EXT_INT_MAX). */
  const EXT_INT_MAX: nat := 4

  /** The GPIO modes the board tables use (GPIO_Mode_TypeDef). */
  datatype Mode = Disabled | Input | InputPull | PushPull

  /** s_hal_gpio_pin_t: port, pin number, mode and cached output value. */
  datatype PinDesc = PinDesc(port: nat, pin: nat, mode: Mode, val: byte)

  /** en_targetExtInt_t: the logical interrupt identities. `Ext(k)` is
      E_TARGET_EXT_INT_k; any k without a case in the register switch
      behaves like an unknown identity. */
  datatype ExtInt = Radio | Usart | Ext(k: nat)

  /** en_targetIntEdge_t */
  datatype Edge = Falling | Rising | Both

  /** The two internal handlers registered with the GPIO interrupt dispatcher. */
  datatype Handler = RadioHandler | ExtiHandler

  /** Observable effects of the HAL on the vendor library and the application,
      in the order they happen. */
  datatype Event =
    | IntDisable                                      // INT_Disable
    | IntEnable                                       // INT_Enable
    | CsLow                                           // SPI chip select driven low
    | CsHigh                                          // SPI chip select driven high
    | ModeSet(port: nat, pin: nat, mode: Mode, out: byte)   // GPIO_PinModeSet
    | OutSet(port: nat, pin: nat)                     // GPIO_PinOutSet
    | OutClear(port: nat, pin: nat)                   // GPIO_PinOutClear
    | IntConfig(port: nat, pin: nat, rising: bool, falling: bool, enable: bool)  // GPIO_IntConfig
    | GpioIntInit                                     // GPIOINT_Init
    | CallbackRegister(pin: nat, handler: Handler)    // GPIOINT_CallbackRegister
    | Invoke(cb: CallbackId)                          // an application callback runs
    | TmrUpdate                                       // Tmr_Update of the timer service
}
