/** What the host writes to the serial channel and what the board sends back, marshalling aside. */
module Messages {
  import opened Basics

  datatype Message =
    | CapabilityQuery
    | AnalogMappingQuery
    | PinStateQuery(pin: nat)
    | SetPinMode(pin: nat, mode: byte)
    | DigitalValue(pin: nat, high: bool)
    | AnalogValue(pin: nat, amount: nat)
    | ReportAnalog(pin: nat, enable: bool)
    | ReportDigital(port: nat, enable: bool)
    | SystemReset

  /** `argv` is the payload between the sysex delimiters, after the command byte. */
  datatype Inbound =
    | CapabilityResponse(argv: seq<byte>)
    | AnalogMappingResponse(argv: seq<byte>)
    | PinStateResponse(argv: seq<byte>)
    | AnalogReport(command: byte, sample: uint16)
    | DigitalReport(command: byte, levels: uint16)
}

/**
 The host-side replica as a value, and each operation as one function from a replica to its effect.
 Class FirmataDevice is proved to refine these functions; the theorems about runs are about them.
 `junk` stands for the contents of freshly allocated, uninitialised slots.
 */
module Host {
  import opened Basics
  import opened WiringPin
  import opened Messages
  import opened Capability

  const LOW: nat := 0
  const HIGH: nat := 1
  const CHANGE: nat := 2
  const RISING: nat := 3
  const FALLING: nat := 4

  const OUTPUT: nat := 0
  const INPUT: nat := 1
  const INPUT_PULLUP: nat := 2

  const DATA_NOT_AVAILABLE_ANALOG: uint16 := 0x4000
  const UINT_MAX: nat := 0xFFFF_FFFF

  /** The public API: Wiring plus the asynchronous Telemorph calls. */
  datatype Call =
    | PinMode(pin: nat, mode: nat)
    | AnalogRead(pin: nat)
    | AnalogWrite(pin: nat, amount: nat)
    | DigitalRead(pin: nat)
    | DigitalWrite(pin: nat, high: bool)
    | AttachInterrupt(pin: nat, isr: Isr)
    | DetachInterrupt(pin: nat)
    | Survey(upon: Signal)
    | Refresh(upon: Signal)
    | Reset(upon: Signal)

  datatype Junk = Junk(states: seq<PinState>, isrs: seq<Isr>)

  /**
   The replica after an operation, and what the operation sent, which asynchronous calls it completed
   (`fired`), which interrupt handlers it ran (`rung`), what it raised and what it returned.
   */
  datatype Effect = Effect(
    host: Host, sent: seq<Message>, fired: seq<Signal>, rung: seq<Signal>, error: Errno, value: nat)

  datatype Decision = Adopt(flag: flags) | Refuse(error: Errno)

  /** How `pinMode` resolves a Wiring mode, `info` being absent on an unsurveyed board. */
  function Decide(info: Option<PinInfo>, mode: nat): Decision {
    var can := (flag: flags) => info.None? || info.value.Supports(flag);
    if mode == OUTPUT then
      if can(ANALOG_WRITE) && can(DIGITAL_WRITE) then Adopt(UNSPECIFIED)
      else if can(ANALOG_WRITE) then Adopt(ANALOG_WRITE)
      else if can(DIGITAL_WRITE) then Adopt(DIGITAL_WRITE)
      else Refuse(EPERM)
    else if mode == INPUT then
      if can(DIGITAL_READ) then Adopt(DIGITAL_READ) else Refuse(EPERM)
    else if mode == INPUT_PULLUP then
      if can(DIGITAL_READ_WITH_PULLUP) then Adopt(DIGITAL_READ_WITH_PULLUP) else Refuse(EPERM)
    else Refuse(EINVAL)
  }

  /** The messages that put `pin` into the mode `pinMode` adopted. */
  function Announce(pin: nat, flag: flags): seq<Message> {
    if !IsMode(flag) then []
    else if flag == DIGITAL_READ || flag == DIGITAL_READ_WITH_PULLUP then
      [SetPinMode(pin, CodeOf(flag)), ReportDigital(pin / 8, true)]
    else [SetPinMode(pin, CodeOf(flag))]
  }

  /** The mode to cache for a reported Firmata mode: inputs are forgotten unless reporting is on. */
  function Translate(report: bool, code: byte): flags {
    var flag := FlagOf(code);
    if !report && (flag == ANALOG_READ || flag == DIGITAL_READ || flag == DIGITAL_READ_WITH_PULLUP)
    then UNSPECIFIED
    else flag
  }

  /** What the host sends upon learning the Firmata mode of a pin. */
  function Reaction(report: bool, pin: nat, code: byte): seq<Message> {
    if code == PIN_MODE_ANALOG then [ReportAnalog(pin, report)]
    else if code == PIN_MODE_INPUT || code == PIN_MODE_PULLUP then
      if report then [SetPinMode(pin, code)] else [ReportDigital(pin / 8, false)]
    else []
  }

  /** `(high << 7) | low` for bytes. */
  function Join(high: byte, low: byte): uint16 {
    if high % 2 == 1 && low >= 0x80 then high * 0x80 + low - 0x80 else high * 0x80 + low
  }

  function Pow2(i: nat): (n: nat)
    ensures n >= 1
  {
    if i == 0 then 1 else 2 * Pow2(i - 1)
  }

  /** Bit `i` of `levels`. */
  predicate Bit(levels: nat, i: nat) {
    if i == 0 then levels % 2 == 1 else Bit(levels / 2, i - 1)
  }

  /** `(1 << i) & levels`. */
  function Masked(levels: uint16, i: nat): (m: uint16)
    requires i < 8
    ensures m != 0 <==> Bit(levels, i)
  {
    Pow2Range(i);
    if Bit(levels, i) then Pow2(i) else 0
  }

  lemma {:induction false} Pow2Range(i: nat)
    requires i < 8
    ensures Pow2(i) <= 128
    decreases 7 - i
  {
    if i == 7 {
      assert Pow2(7) == 128;
    } else {
      Pow2Range(i + 1);
    }
  }

  /** One state query per pin, in ascending order. */
  function Queries(from: nat, end: nat): seq<Message>
    decreases end - from
  {
    if from >= end then [] else [PinStateQuery(from)] + Queries(from + 1, end)
  }

  predicate Triggers(mode: nat, levels: uint16) {
    || mode == CHANGE
    || (levels != 0 && (mode == HIGH || mode == RISING))
    || (levels == 0 && (mode == LOW || mode == FALLING))
  }

  datatype Host = Host(
    jit: bool,
    report: bool,
    info: Option<seq<PinInfo>>,
    states: seq<PinState>,
    isrs: seq<Isr>,
    survey: Option<Signal>,
    refresh: Option<Signal>,
    locked: bool)
  {
    /** Every pin that the state cache has room for is covered by the info cache, if there is one. */
    predicate Valid() {
      info.Some? ==> |info.value| >= |states|
    }

    function InfoOf(pin: nat): Option<PinInfo>
      requires Valid() && pin < |states|
    {
      if info.Some? then Some(info.value[pin]) else None
    }

    predicate Can(pin: nat, flag: flags)
      requires Valid() && pin < |states|
    {
      info.Some? ==> info.value[pin].Supports(flag)
    }

    function SetMode(pin: nat, flag: flags): Host
      requires pin < |states|
    {
      this.(states := states[pin := states[pin].(mode := flag)])
    }

    function SetValue(pin: nat, amount: uint16): Host
      requires pin < |states|
    {
      this.(states := states[pin := states[pin].(value := amount)])
    }

    /** An unsurveyed board has as many pins as the caller has named. */
    function Grow(pin: nat, junk: seq<PinState>): (h: Host)
      requires Valid()
      ensures h.Valid()
    {
      if info.Some? || pin < |states| then this
      else this.(states := states + Slots(pin + 1 - |states|, junk, PinState(0, 0)))
    }

    function GrowIsrs(pin: nat, junk: seq<Isr>): Host {
      if pin < |isrs| then this
      else this.(isrs := isrs + Slots(pin + 1 - |isrs|, junk, Isr(None, 0, 0)))
    }

    function Stay(error: Errno, value: nat): Effect {
      Effect(this, [], [], [], error, value)
    }

    function Send(sent: seq<Message>): Effect {
      Effect(this, sent, [], [], OK, 0)
    }

    // ---- The implementation behind each API call ----

    function PinModeEffect(pin: nat, mode: nat, junk: seq<PinState>): Effect
      requires Valid()
    {
      var h := Grow(pin, junk);
      if pin >= |h.states| then Stay(ENXIO, 0)
      else
        match Decide(h.InfoOf(pin), mode)
        case Refuse(error) => h.Stay(error, 0)
        case Adopt(flag) => h.SetMode(pin, flag).Send(Announce(pin, flag))
    }

    function AnalogReadEffect(pin: nat, junk: seq<PinState>): Effect
      requires Valid()
    {
      var h := Grow(pin, junk);
      if pin >= |h.states| then Stay(ENXIO, UINT_MAX)
      else if !h.Can(pin, ANALOG_READ) then Stay(EOPNOTSUPP, UINT_MAX)
      else if h.states[pin].mode == ANALOG_READ then h.Stay(OK, h.states[pin].value)
      else
        Effect(h.(states := h.states[pin := PinState(ANALOG_READ, DATA_NOT_AVAILABLE_ANALOG)]),
               [SetPinMode(pin, PIN_MODE_ANALOG)], [], [], OK, DATA_NOT_AVAILABLE_ANALOG)
    }

    function AnalogWriteEffect(pin: nat, amount: nat): Effect
      requires Valid()
    {
      if pin >= |states| then Stay(ENXIO, 0)
      else if !Can(pin, ANALOG_WRITE) then Stay(EOPNOTSUPP, 0)
      else if states[pin].mode == ANALOG_WRITE then Send([AnalogValue(pin, amount)])
      else SetMode(pin, ANALOG_WRITE).Send([SetPinMode(pin, PIN_MODE_PWM), AnalogValue(pin, amount)])
    }

    function DigitalReadEffect(pin: nat): Effect
      requires Valid()
    {
      if pin >= |states| then Stay(ENXIO, 0)
      else if !Can(pin, DIGITAL_READ) then Stay(EOPNOTSUPP, 0)
      else if states[pin].mode == DIGITAL_READ || states[pin].mode == DIGITAL_READ_WITH_PULLUP then
        Stay(OK, if states[pin].value != 0 then 1 else 0)
      else Stay(EPERM, 0)
    }

    function DigitalWriteEffect(pin: nat, high: bool): Effect
      requires Valid()
    {
      if pin >= |states| then Stay(ENXIO, 0)
      else if !Can(pin, DIGITAL_WRITE) then Stay(EOPNOTSUPP, 0)
      else if states[pin].mode == DIGITAL_WRITE then Send([DigitalValue(pin, high)])
      else if states[pin].mode == UNSPECIFIED then
        SetMode(pin, DIGITAL_WRITE).Send([SetPinMode(pin, PIN_MODE_OUTPUT), DigitalValue(pin, high)])
      else Stay(EPERM, 0)
    }

    function AttachEffect(pin: nat, isr: Isr, junk: seq<Isr>): Effect
      requires Valid()
    {
      if pin >= |states| then Stay(ENXIO, 0)
      else if !Can(pin, DIGITAL_READ) then Stay(EOPNOTSUPP, 0)
      else
        var h := GrowIsrs(pin, junk);
        h.(isrs := h.isrs[pin := isr]).Stay(OK, 0)
    }

    function DetachEffect(pin: nat): Effect {
      if pin >= |isrs| then Stay(ENXIO, 0)
      else this.(isrs := isrs[pin := Isr(None, 0, LOW)]).Stay(OK, 0)
    }

    function SurveyEffect(upon: Option<Signal>): Effect {
      this.(survey := upon).Send([CapabilityQuery])
    }

    function RefreshEffect(upon: Option<Signal>): Effect {
      this.(refresh := upon, locked := true).Send(Queries(0, |states|))
    }

    /** The mode and value a pin has after a reset of the board. */
    function ResetState(pin: nat): PinState
      requires Valid() && info.Some? && pin < |states|
    {
      PinState(if Can(pin, ANALOG_READ) then ANALOG_READ
               else if Can(pin, DIGITAL_WRITE) then DIGITAL_WRITE
               else UNSPECIFIED, 0)
    }

    function ResetEffect(upon: Option<Signal>): Effect
      requires Valid() && (states != [] ==> info.Some?)
    {
      Effect(this.(report := !jit, states := seq(|states|, pin requires 0 <= pin < |states| => ResetState(pin))),
             [SystemReset], if upon.Some? then [upon.value] else [], [], OK, 0)
    }

    // ---- The argument guards of Wiring and their composition with the implementation ----

    predicate Accepts(call: Call) {
      match call
      case PinMode(pin, mode) => pin <= 127 && (mode == INPUT || mode == INPUT_PULLUP || mode == OUTPUT)
      case AnalogWrite(pin, amount) => pin <= 127 && amount <= 255
      case AttachInterrupt(pin, isr) => pin <= 127 && isr.handler.Some? && isr.mode <= FALLING
      case AnalogRead(pin) => pin <= 127
      case DigitalRead(pin) => pin <= 127
      case DigitalWrite(pin, _) => pin <= 127
      case DetachInterrupt(pin) => pin <= 127
      case _ => true
    }

    /** `reset` dereferences the info cache of every pin, so it needs a surveyed board. */
    predicate CanCall(call: Call) {
      Valid() && (call.Reset? && states != [] ==> info.Some?)
    }

    function Invoke(call: Call, junk: Junk): Effect
      requires CanCall(call)
    {
      if !Accepts(call) then Stay(EINVAL, if call.AnalogRead? then UINT_MAX else 0)
      else
        match call
        case PinMode(pin, mode) => PinModeEffect(pin, mode, junk.states)
        case AnalogRead(pin) =>
          var e := AnalogReadEffect(pin, junk.states);
          if e.value > 1023 then e.(error := ERANGE, value := 1024) else e
        case AnalogWrite(pin, amount) => AnalogWriteEffect(pin, amount)
        case DigitalRead(pin) => DigitalReadEffect(pin)
        case DigitalWrite(pin, high) => DigitalWriteEffect(pin, high)
        case AttachInterrupt(pin, isr) => AttachEffect(pin, isr, junk.isrs)
        case DetachInterrupt(pin) => DetachEffect(pin)
        case Survey(upon) => SurveyEffect(Some(upon))
        case Refresh(upon) => RefreshEffect(Some(upon))
        case Reset(upon) => ResetEffect(Some(upon))
    }

    // ---- Inbound messages ----

    function CapabilityEffect(argv: seq<byte>, junk: seq<PinState>): Effect {
      var pins := Pins([], argv);
      this.(info := if pins == [] then info else Some(DescribeAll(pins)),
            states := Slots(|pins|, junk, PinState(0, 0)))
          .Send([AnalogMappingQuery])
    }

    function MappingEffect(argv: seq<byte>): Effect
      requires argv != [] ==> info.Some? && |argv| <= |info.value|
    {
      var mapped := if argv == [] then info else Some(seq(|info.value|, k requires 0 <= k < |info.value| =>
          if k < |argv| then info.value[k].(reserved := argv[k]) else info.value[k]));
      this.(info := mapped).RefreshEffect(survey)
    }

    function PinStateEffect(argv: seq<byte>): Effect
      requires |argv| >= 3 ==> argv[0] != |states|
    {
      if |argv| < 3 then Stay(EILSEQ, 0)
      else if argv[0] > |states| then Stay(ENXIO, 0)
      else
        var pin, code := argv[0], argv[1];
        var amount := if |argv| == 3 then argv[2] else Join(argv[2], argv[3]);
        var h := this.(states := states[pin := PinState(Translate(report, code), amount)]);
        var sent := Reaction(report, pin, code);
        var last := pin == |states| - 1;
        var calls := last && refresh.Some?;
        Effect(h.(report := report && !last, locked := locked && !calls), sent,
               if calls then [refresh.value] else [], [], if FlagOf(code) == UNSPECIFIED then EINVAL else OK, 0)
    }

    /** The first pin in `[from, |states|)` mapped to `channel`, or `|states|`. */
    function Mapped(channel: nat, from: nat): (pin: nat)
      requires Valid() && info.Some? && from <= |states|
      ensures from <= pin <= |states|
      ensures pin < |states| ==> info.value[pin].reserved == channel
      ensures forall p :: from <= p < pin ==> info.value[p].reserved != channel
      decreases |states| - from
    {
      if from == |states| || info.value[from].reserved == channel then from else Mapped(channel, from + 1)
    }

    function AnalogReportEffect(command: byte, sample: uint16): Effect
      requires Valid()
    {
      var channel := command % 16;
      var pin := if info.Some? then Mapped(channel, 0) else channel;
      if pin < |states| then SetValue(pin, sample).Stay(OK, 0) else Stay(OK, 0)
    }

    /** Whether a report of `levels` on the port of `pin` calls the handler of `pin`. */
    predicate Rings(pin: nat, levels: uint16) {
      pin < |isrs| && isrs[pin].handler.Some? && Triggers(isrs[pin].mode, levels)
    }

    function Ringing(from: nat, to: nat, levels: uint16): seq<nat> {
      if to <= from then []
      else Ringing(from, to - 1, levels) + if Rings(to - 1, levels) then [to - 1] else []
    }

    function Handlers(from: nat, to: nat, levels: uint16): seq<Signal> {
      if to <= from then []
      else
        Handlers(from, to - 1, levels)
        + if Rings(to - 1, levels) then [Signal(isrs[to - 1].handler.value, isrs[to - 1].context)] else []
    }

    /** One past the last pin of `port`, cut off at the pin count. */
    function PortEnd(port: nat): nat {
      if |states| < 8 * port + 8 then |states| else 8 * port + 8
    }

    /** The state cache with the pins `[from, to)` set to their bits of `levels`. */
    function Captured(from: nat, to: nat, levels: uint16): (captured: seq<PinState>)
      requires to - from <= 8
      ensures |captured| == |states|
    {
      seq(|states|, pin requires 0 <= pin < |states| =>
        if from <= pin < to then states[pin].(value := Masked(levels, pin - from)) else states[pin])
    }

    function DigitalReportEffect(command: byte, levels: uint16): Effect {
      var from := 8 * (command % 16);
      var to := PortEnd(command % 16);
      Effect(this.(states := Captured(from, to, levels)), [], [], Handlers(from, to, levels), OK, 0)
    }

    /**
     What the host demands of the board: a mapping no longer than the pin list, and a pin number
     different from the pin count, which the bounds check of the pin state response lets through.
     */
    predicate CanReceive(inbound: Inbound) {
      Valid() &&
      match inbound
      case AnalogMappingResponse(argv) => argv != [] ==> info.Some? && |argv| <= |info.value|
      case PinStateResponse(argv) => |argv| >= 3 ==> argv[0] != |states|
      case _ => true
    }

    function Receive(inbound: Inbound, junk: Junk): Effect
      requires CanReceive(inbound)
    {
      match inbound
      case CapabilityResponse(argv) => CapabilityEffect(argv, junk.states)
      case AnalogMappingResponse(argv) => MappingEffect(argv)
      case PinStateResponse(argv) => PinStateEffect(argv)
      case AnalogReport(command, sample) => AnalogReportEffect(command, sample)
      case DigitalReport(command, levels) => DigitalReportEffect(command, levels)
    }
  }

  function Initial(jit: bool): Host {
    Host(jit, !jit, None, [], [], None, None, false)
  }
}
