/** Pin capabilities, cached pin state and the two mode alphabets: the host's flags and Firmata's codes. */
module WiringPin {
  import opened Basics

  /** The 8-bit mode field of the caches. */
  type flags = bv8

  const UNSPECIFIED: flags := 0x00
  const ANALOG_READ: flags := 0x01
  const ANALOG_WRITE: flags := 0x02
  const DIGITAL_READ: flags := 0x04
  const DIGITAL_READ_WITH_PULLUP: flags := 0x08
  const DIGITAL_WRITE: flags := 0x10

  const PIN_MODE_INPUT: byte := 0x00
  const PIN_MODE_OUTPUT: byte := 0x01
  const PIN_MODE_ANALOG: byte := 0x02
  const PIN_MODE_PWM: byte := 0x03
  const PIN_MODE_PULLUP: byte := 0x0B
  /** Also the terminator of a pin in a capability response. */
  const PIN_MODE_IGNORE: byte := 0x7F

  /** The five modes the host knows; a cached mode outside them is unspecified or uninitialised. */
  predicate IsMode(flag: flags) {
    flag == ANALOG_READ || flag == ANALOG_WRITE || flag == DIGITAL_READ
    || flag == DIGITAL_READ_WITH_PULLUP || flag == DIGITAL_WRITE
  }

  /** The flag for a Firmata mode, `UNSPECIFIED` for a mode the host does not recognise. */
  function FlagOf(mode: byte): flags {
    if mode == PIN_MODE_ANALOG then ANALOG_READ
    else if mode == PIN_MODE_PWM then ANALOG_WRITE
    else if mode == PIN_MODE_INPUT then DIGITAL_READ
    else if mode == PIN_MODE_PULLUP then DIGITAL_READ_WITH_PULLUP
    else if mode == PIN_MODE_OUTPUT then DIGITAL_WRITE
    else UNSPECIFIED
  }

  /** The Firmata mode of a flag. */
  function CodeOf(flag: flags): (mode: byte)
    requires IsMode(flag)
    ensures FlagOf(mode) == flag
    ensures forall m: byte :: FlagOf(m) == flag ==> m == mode
  {
    if flag == ANALOG_READ then PIN_MODE_ANALOG
    else if flag == ANALOG_WRITE then PIN_MODE_PWM
    else if flag == DIGITAL_READ then PIN_MODE_INPUT
    else if flag == DIGITAL_READ_WITH_PULLUP then PIN_MODE_PULLUP
    else PIN_MODE_OUTPUT
  }

  datatype PinInfo = PinInfo(supportedModes: flags, analogReadBits: byte, analogWriteBits: byte, reserved: byte)
  {
    predicate Supports(flag: flags) {
      supportedModes & flag != 0
    }
  }

  const BLANK := PinInfo(0, 0, 0, 0)

  datatype PinState = PinState(mode: flags, value: uint16)

  /** An interrupt slot: a null handler is `None`. */
  datatype Isr = Isr(handler: Option<nat>, context: nat, mode: nat)

  /** Adding one flag to a set of flags adds that mode and no other. */
  lemma SupportsUnion(have: flags, added: flags, flag: flags)
    requires IsMode(flag) && (IsMode(added) || added == UNSPECIFIED)
    ensures (have | added) & flag != 0 <==> have & flag != 0 || added == flag
  {
  }
}
