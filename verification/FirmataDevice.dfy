/**
 The telemorph object: caches that are reallocated and updated in place, an outbound channel and
 callbacks. Each method is proved to have exactly the effect its function in module Host describes.
 The Wiring guards are the methods without the suffix Impl.
 */
module FirmataDevice {
  import opened Basics
  import opened WiringPin
  import opened Messages
  import opened Capability
  import opened Host
  import opened RwUtility

  class FirmataDevice {
    const jitInput: bool
    var pinCount: nat
    var pinInfoCache: array?<PinInfo>
    var pinIsrCache: array<Isr>
    var pinIsrCount: nat
    var pinStateCache: array<PinState>
    var reportOnQuery: bool
    var refreshMutexHeld: bool
    var uponSurvey: Option<Signal>
    var uponRefresh: Option<Signal>
    var errno: Errno
    var sent: seq<Message>
    var fired: seq<Signal>
    var rung: seq<Signal>

    /** Every loop and every guarded access stays inside its cache. */
    ghost predicate Valid()
      reads this
    {
      && pinCount == pinStateCache.Length
      && pinIsrCount == pinIsrCache.Length
      && (pinInfoCache != null ==> pinCount <= pinInfoCache.Length)
    }

    ghost function Model(): (h: Host)
      requires Valid()
      reads this, pinInfoCache, pinIsrCache, pinStateCache
      ensures h.Valid()
    {
      Host(jitInput, reportOnQuery, if pinInfoCache == null then None else Some(pinInfoCache[..]),
           pinStateCache[..], pinIsrCache[..], uponSurvey, uponRefresh, refreshMutexHeld)
    }

    /** The caches are the ones of the earlier state or were allocated since. */
    twostate predicate Framed()
      reads this
    {
      && (pinInfoCache == old(pinInfoCache) || fresh(pinInfoCache))
      && (pinIsrCache == old(pinIsrCache) || fresh(pinIsrCache))
      && (pinStateCache == old(pinStateCache) || fresh(pinStateCache))
    }

    /** The object went through exactly the effect `e`. */
    twostate predicate Did(e: Effect)
      reads this, pinInfoCache, pinIsrCache, pinStateCache
    {
      && Valid()
      && Model() == e.host
      && sent == old(sent) + e.sent
      && fired == old(fired) + e.fired
      && rung == old(rung) + e.rung
      && errno == if e.error == OK then old(errno) else e.error
    }

    constructor (jitInput: bool)
      ensures Valid() && Model() == Initial(jitInput)
      ensures reportOnQuery == !jitInput && pinCount == pinIsrCount == 0 && pinInfoCache == null && !refreshMutexHeld
      ensures sent == [] && fired == [] && rung == [] && errno == OK
      ensures fresh(pinIsrCache) && fresh(pinStateCache)
    {
      this.jitInput := jitInput;
      pinCount, pinIsrCount := 0, 0;
      pinInfoCache := null;
      pinIsrCache := new Isr[0];
      pinStateCache := new PinState[0];
      reportOnQuery, refreshMutexHeld := !jitInput, false;
      uponSurvey, uponRefresh := None, None;
      errno, sent, fired, rung := OK, [], [], [];
    }

    /** The marshaller calls between two flushes of the stream. */
    method Transmit(batch: seq<Message>)
      modifies this`sent
      ensures sent == old(sent) + batch
    {
      sent := sent + batch;
    }

    method SetMode(pin: nat, flag: flags)
      requires pin < pinStateCache.Length
      modifies pinStateCache
      ensures pinStateCache[..] == old(pinStateCache[..])[pin := old(pinStateCache[pin]).(mode := flag)]
    {
      pinStateCache[pin] := pinStateCache[pin].(mode := flag);
    }

    method SetValue(pin: nat, amount: uint16)
      requires pin < pinStateCache.Length
      modifies pinStateCache
      ensures pinStateCache[..] == old(pinStateCache[..])[pin := old(pinStateCache[pin]).(value := amount)]
    {
      pinStateCache[pin] := pinStateCache[pin].(value := amount);
    }

    // ---- Storage ----

    method UpdateStorageForPin(pin: nat) returns (ghost junk: seq<PinState>)
      requires Valid() && pinInfoCache == null
      modifies this
      ensures Framed() && pinInfoCache == null && Did(old(Model()).Grow(pin, junk).Stay(OK, 0))
      ensures pin < pinCount
    {
      junk := [];
      if pin < pinCount {
      } else {
        var grown := Realloc(pinStateCache, pin + 1);
        junk := grown[pinCount..];
        assert grown[..] == pinStateCache[..] + junk;
        pinStateCache := grown;
        pinCount := pin + 1;
      }
    }

    method UpdateStorageForPinInterrupt(pin: nat) returns (ghost junk: seq<Isr>)
      requires Valid()
      modifies this
      ensures Framed() && pinInfoCache == old(pinInfoCache) && pinStateCache == old(pinStateCache)
      ensures Did(old(Model()).GrowIsrs(pin, junk).Stay(OK, 0))
      ensures pin < pinIsrCount
    {
      junk := [];
      if pin < pinIsrCount {
      } else {
        var grown := Realloc(pinIsrCache, pin + 1);
        junk := grown[pinIsrCount..];
        assert grown[..] == pinIsrCache[..] + junk;
        pinIsrCache := grown;
        pinIsrCount := pin + 1;
      }
    }

    // ---- Reads, writes and modes ----

    method AnalogReadImpl(pin: nat) returns (result: nat, ghost junk: seq<PinState>)
      requires Valid()
      modifies this, pinStateCache
      ensures Framed()
      ensures Did(old(Model()).AnalogReadEffect(pin, junk))
      ensures result == old(Model()).AnalogReadEffect(pin, junk).value
    {
      junk := [];
      if pinInfoCache == null {
        junk := UpdateStorageForPin(pin);
      }
      if pin >= pinCount {
        result, errno := UINT_MAX, ENXIO;
      } else if pinInfoCache != null && !pinInfoCache[pin].Supports(ANALOG_READ) {
        result, errno := UINT_MAX, EOPNOTSUPP;
      } else if pinStateCache[pin].mode != ANALOG_READ {
        result := DATA_NOT_AVAILABLE_ANALOG;
        SetValue(pin, DATA_NOT_AVAILABLE_ANALOG);
        SetMode(pin, ANALOG_READ);
        assert pinStateCache[..] == old(Model()).AnalogReadEffect(pin, junk).host.states;
        Transmit([SetPinMode(pin, PIN_MODE_ANALOG)]);
      } else {
        result := pinStateCache[pin].value;
      }
    }

    method AnalogRead(pin: nat) returns (result: nat, ghost junk: Junk)
      requires Valid()
      modifies this, pinStateCache
      ensures Framed()
      ensures Did(old(Model()).Invoke(Call.AnalogRead(pin), junk))
      ensures result == old(Model()).Invoke(Call.AnalogRead(pin), junk).value
    {
      ghost var slots := [];
      if 127 < pin {
        errno, result := EINVAL, UINT_MAX;
      } else {
        result, slots := AnalogReadImpl(pin);
        if 1023 < result {
          errno, result := ERANGE, 1024;
        }
      }
      junk := Junk(slots, []);
    }

    method AnalogWriteImpl(pin: nat, amount: nat) returns (error: Errno)
      requires Valid()
      modifies this, pinStateCache
      ensures Framed()
      ensures Did(old(Model()).AnalogWriteEffect(pin, amount))
      ensures error == old(Model()).AnalogWriteEffect(pin, amount).error
    {
      error := OK;
      if pin >= pinCount {
        error, errno := ENXIO, ENXIO;
      } else if pinInfoCache != null && !pinInfoCache[pin].Supports(ANALOG_WRITE) {
        error, errno := EOPNOTSUPP, EOPNOTSUPP;
      } else if pinStateCache[pin].mode != ANALOG_WRITE {
        SetMode(pin, ANALOG_WRITE);
        Transmit([SetPinMode(pin, PIN_MODE_PWM), AnalogValue(pin, amount)]);
      } else {
        Transmit([AnalogValue(pin, amount)]);
      }
    }

    method AnalogWrite(pin: nat, amount: nat)
      requires Valid()
      modifies this, pinStateCache
      ensures Framed()
      ensures Did(old(Model()).Invoke(Call.AnalogWrite(pin, amount), Junk([], [])))
    {
      if 127 < pin {
        errno := EINVAL;
      } else if 255 < amount {
        errno := EINVAL;
      } else {
        var error := AnalogWriteImpl(pin, amount);
        if error != OK {
          errno := error;
        }
      }
    }

    method DigitalRead(pin: nat) returns (result: bool)
      requires Valid()
      modifies this`errno
      ensures Framed()
      ensures Did(old(Model()).Invoke(Call.DigitalRead(pin), Junk([], [])))
      ensures result <==> old(Model()).Invoke(Call.DigitalRead(pin), Junk([], [])).value != 0
    {
      if 127 < pin {
        errno, result := EINVAL, false;
      } else if pin >= pinCount {
        result, errno := false, ENXIO;
      } else if pinInfoCache != null && !pinInfoCache[pin].Supports(DIGITAL_READ) {
        result, errno := false, EOPNOTSUPP;
      } else if pinStateCache[pin].mode != DIGITAL_READ && pinStateCache[pin].mode != DIGITAL_READ_WITH_PULLUP {
        result, errno := false, EPERM;
      } else {
        result := pinStateCache[pin].value != 0;
      }
    }

    method DigitalWriteImpl(pin: nat, high: bool) returns (error: Errno)
      requires Valid()
      modifies this, pinStateCache
      ensures Framed()
      ensures Did(old(Model()).DigitalWriteEffect(pin, high))
      ensures error == old(Model()).DigitalWriteEffect(pin, high).error
    {
      error := OK;
      if pin >= pinCount {
        error, errno := ENXIO, ENXIO;
      } else if pinInfoCache != null && !pinInfoCache[pin].Supports(DIGITAL_WRITE) {
        error, errno := EOPNOTSUPP, EOPNOTSUPP;
      } else if pinStateCache[pin].mode == UNSPECIFIED {
        SetMode(pin, DIGITAL_WRITE);
        Transmit([SetPinMode(pin, PIN_MODE_OUTPUT), DigitalValue(pin, high)]);
      } else if pinStateCache[pin].mode != DIGITAL_WRITE {
        error, errno := EPERM, EPERM;
      } else {
        Transmit([DigitalValue(pin, high)]);
      }
    }

    method DigitalWrite(pin: nat, high: bool)
      requires Valid()
      modifies this, pinStateCache
      ensures Framed()
      ensures Did(old(Model()).Invoke(Call.DigitalWrite(pin, high), Junk([], [])))
    {
      if 127 < pin {
        errno := EINVAL;
      } else {
        var error := DigitalWriteImpl(pin, high);
        if error != OK {
          errno := error;
        }
      }
    }

    /** The switch over the modes of `pinMode` for a pin whose capabilities are known. */
    method SwitchPin(pin: nat, mode: nat) returns (error: Errno)
      requires Valid() && pinInfoCache != null && pin < pinCount
      modifies this`sent, pinStateCache
      ensures match Decide(Some(pinInfoCache[pin]), mode)
              case Refuse(refusal) =>
                error == refusal && sent == old(sent) && pinStateCache[..] == old(pinStateCache[..])
              case Adopt(flag) =>
                && error == OK && sent == old(sent) + Announce(pin, flag)
                && pinStateCache[..] == old(pinStateCache[..])[pin := old(pinStateCache[pin]).(mode := flag)]
    {
      var firmataMode := PIN_MODE_IGNORE;
      error := OK;
      if mode == OUTPUT {
        if pinInfoCache[pin].Supports(ANALOG_WRITE) && pinInfoCache[pin].Supports(DIGITAL_WRITE) {
          SetMode(pin, UNSPECIFIED);
        } else if pinInfoCache[pin].Supports(ANALOG_WRITE) {
          SetMode(pin, ANALOG_WRITE);
          firmataMode := PIN_MODE_PWM;
        } else if pinInfoCache[pin].Supports(DIGITAL_WRITE) {
          SetMode(pin, DIGITAL_WRITE);
          firmataMode := PIN_MODE_OUTPUT;
        } else {
          error := EPERM;
        }
      } else if mode == INPUT {
        if pinInfoCache[pin].Supports(DIGITAL_READ) {
          SetMode(pin, DIGITAL_READ);
          Transmit([SetPinMode(pin, PIN_MODE_INPUT), ReportDigital(pin / 8, true)]);
        } else {
          error := EPERM;
        }
      } else if mode == INPUT_PULLUP {
        if pinInfoCache[pin].Supports(DIGITAL_READ_WITH_PULLUP) {
          SetMode(pin, DIGITAL_READ_WITH_PULLUP);
          Transmit([SetPinMode(pin, PIN_MODE_PULLUP), ReportDigital(pin / 8, true)]);
        } else {
          error := EPERM;
        }
      } else {
        error := EINVAL;
      }
      if firmataMode != PIN_MODE_IGNORE {
        Transmit([SetPinMode(pin, firmataMode)]);
      }
    }

    method PinModeSurveyed(pin: nat, mode: nat) returns (error: Errno)
      requires Valid() && pinInfoCache != null
      modifies this`errno, this`sent, pinStateCache
      ensures Did(old(Model()).PinModeEffect(pin, mode, []))
      ensures error == old(Model()).PinModeEffect(pin, mode, []).error
    {
      if pin >= pinCount {
        error := ENXIO;
      } else {
        error := SwitchPin(pin, mode);
      }
      if error != OK {
        errno := error;
      }
    }

    method PinModeUnsurveyed(pin: nat, mode: nat) returns (error: Errno, ghost junk: seq<PinState>)
      requires Valid() && pinInfoCache == null
      modifies this
      modifies pinStateCache
      ensures Framed()
      ensures Did(old(Model()).PinModeEffect(pin, mode, junk))
      ensures error == old(Model()).PinModeEffect(pin, mode, junk).error
    {
      junk := UpdateStorageForPin(pin);
      error := OK;
      if mode == OUTPUT {
        SetMode(pin, UNSPECIFIED);
      } else if mode == INPUT {
        SetMode(pin, DIGITAL_READ);
        Transmit([SetPinMode(pin, PIN_MODE_INPUT), ReportDigital(pin / 8, true)]);
      } else if mode == INPUT_PULLUP {
        SetMode(pin, DIGITAL_READ_WITH_PULLUP);
        Transmit([SetPinMode(pin, PIN_MODE_PULLUP), ReportDigital(pin / 8, true)]);
      } else {
        error, errno := EINVAL, EINVAL;
      }
    }

    method PinModeImpl(pin: nat, mode: nat) returns (error: Errno, ghost junk: seq<PinState>)
      requires Valid()
      modifies this, pinStateCache
      ensures Framed()
      ensures Did(old(Model()).PinModeEffect(pin, mode, junk))
      ensures error == old(Model()).PinModeEffect(pin, mode, junk).error
    {
      junk := [];
      if pinInfoCache != null {
        error := PinModeSurveyed(pin, mode);
      } else {
        error, junk := PinModeUnsurveyed(pin, mode);
      }
    }

    method PinMode(pin: nat, mode: nat) returns (ghost junk: Junk)
      requires Valid()
      modifies this, pinStateCache
      ensures Framed()
      ensures Did(old(Model()).Invoke(Call.PinMode(pin, mode), junk))
    {
      ghost var slots := [];
      if 127 < pin {
        errno := EINVAL;
      } else if mode == INPUT || mode == INPUT_PULLUP || mode == OUTPUT {
        var error;
        error, slots := PinModeImpl(pin, mode);
        if error != OK {
          errno := error;
        }
      } else {
        errno := EINVAL;
      }
      junk := Junk(slots, []);
    }

    // ---- Interrupts ----

    method AttachInterruptImpl(pin: nat, isr: Isr) returns (error: Errno, ghost junk: seq<Isr>)
      requires Valid()
      modifies this, pinIsrCache
      ensures Framed()
      ensures Did(old(Model()).AttachEffect(pin, isr, junk))
      ensures error == old(Model()).AttachEffect(pin, isr, junk).error
    {
      junk := [];
      error := OK;
      if pin >= pinCount {
        error, errno := ENXIO, ENXIO;
      } else if pinInfoCache != null && !pinInfoCache[pin].Supports(DIGITAL_READ) {
        error, errno := EOPNOTSUPP, EOPNOTSUPP;
      } else {
        junk := UpdateStorageForPinInterrupt(pin);
        pinIsrCache[pin] := isr;
      }
    }

    method AttachInterrupt(pin: nat, isr: Isr) returns (ghost junk: Junk)
      requires Valid()
      modifies this, pinIsrCache
      ensures Framed()
      ensures Did(old(Model()).Invoke(Call.AttachInterrupt(pin, isr), junk))
    {
      ghost var slots := [];
      if 127 < pin {
        errno := EINVAL;
      } else if isr.handler.None? {
        errno := EINVAL;
      } else if isr.mode == CHANGE || isr.mode == FALLING || isr.mode == HIGH || isr.mode == LOW || isr.mode == RISING {
        var error;
        error, slots := AttachInterruptImpl(pin, isr);
        if error != OK {
          errno := error;
        }
      } else {
        errno := EINVAL;
      }
      junk := Junk([], slots);
    }

    method DetachInterrupt(pin: nat)
      requires Valid()
      modifies this, pinIsrCache
      ensures Framed()
      ensures Did(old(Model()).Invoke(Call.DetachInterrupt(pin), Junk([], [])))
    {
      if 127 < pin {
        errno := EINVAL;
      } else if pin >= pinIsrCount {
        errno := ENXIO;
      } else {
        pinIsrCache[pin] := Isr(None, 0, LOW);
      }
    }

    // ---- Survey, refresh and reset ----

    method SurveyImpl(upon: Option<Signal>)
      requires Valid()
      modifies this
      ensures Framed()
      ensures Did(old(Model()).SurveyEffect(upon))
    {
      uponSurvey := upon;
      Transmit([CapabilityQuery]);
    }

    method RefreshImpl(upon: Option<Signal>)
      requires Valid()
      modifies this
      ensures Framed() && pinInfoCache == old(pinInfoCache)
      ensures Did(old(Model()).RefreshEffect(upon))
    {
      refreshMutexHeld := true;
      uponRefresh := upon;
      for pin := 0 to pinCount
        invariant sent + Queries(pin, pinCount) == old(sent) + Queries(0, pinCount)
        invariant Valid() && Framed() && fired == old(fired) && rung == old(rung) && errno == old(errno)
        invariant pinInfoCache == old(pinInfoCache)
        invariant Model() == old(Model()).(refresh := upon, locked := true)
      {
        Transmit([PinStateQuery(pin)]);
      }
    }

    method ResetPin(pin: nat)
      requires Valid() && pinInfoCache != null && pin < pinCount
      modifies pinStateCache
      ensures Valid() && pinStateCache[..] == old(pinStateCache[..])[pin := old(Model()).ResetState(pin)]
    {
      var mode := UNSPECIFIED;
      if pinInfoCache[pin].Supports(ANALOG_READ) {
        mode := ANALOG_READ;
      } else if pinInfoCache[pin].Supports(DIGITAL_WRITE) {
        mode := DIGITAL_WRITE;
      }
      pinStateCache[pin] := PinState(mode, 0);
    }

    method ResetImpl(upon: Option<Signal>)
      requires Valid() && (pinCount > 0 ==> pinInfoCache != null)
      modifies this, pinStateCache
      ensures Framed()
      ensures Did(old(Model()).ResetEffect(upon))
    {
      ghost var was := Model();
      reportOnQuery := !jitInput;
      Transmit([SystemReset]);
      for pin := 0 to pinCount
        invariant unchanged(`pinCount, `pinInfoCache, `pinIsrCache, `pinIsrCount, `pinStateCache)
        invariant unchanged(`refreshMutexHeld, `uponSurvey, `uponRefresh, `errno, `fired, `rung)
        invariant reportOnQuery == !jitInput && sent == old(sent) + [SystemReset]
        invariant forall p :: 0 <= p < pin ==> pinStateCache[p] == was.ResetState(p)
      {
        ResetPin(pin);
      }
      assert pinStateCache[..] == was.ResetEffect(upon).host.states;
      if upon.Some? {
        fired := fired + [upon.value];
      }
    }

    /** The end of a blocking call: `errno` is returned as it stands, not only when this call set it. */
    method Await(block: bool, wait: Wait) returns (result: Errno)
      modifies this`errno
      ensures errno == if !block || wait == Ready then old(errno) else if wait == TimedOut then ETIME else EWOULDBLOCK
      ensures result == errno
    {
      if block {
        match wait {
          case Ready =>
          case TimedOut => errno := ETIME;
          case Deferred => errno := EWOULDBLOCK;
        }
      }
      result := errno;
    }

    method Survey(upon: Option<Signal>, own: Signal, wait: Wait) returns (result: Errno)
      requires Valid()
      modifies this
      ensures Framed()
      ensures Did(old(Model()).Invoke(Call.Survey(Callback(upon, own)), Junk([], [])).(error := WaitError(upon, wait)))
      ensures uponSurvey == if upon.Some? then upon else Some(own)
      ensures errno == result
      ensures result ==
        if upon.Some? || wait == Ready then old(errno) else if wait == TimedOut then ETIME else EWOULDBLOCK
      ensures result == OK <==> old(errno) == OK && (upon.Some? || wait == Ready)
    {
      SurveyImpl(Some(Callback(upon, own)));
      result := Await(upon.None?, wait);
    }

    method Refresh(upon: Option<Signal>, own: Signal, wait: Wait) returns (result: Errno)
      requires Valid()
      modifies this
      ensures Framed()
      ensures Did(old(Model()).Invoke(Call.Refresh(Callback(upon, own)), Junk([], [])).(error := WaitError(upon, wait)))
      ensures uponRefresh == if upon.Some? then upon else Some(own)
      ensures errno == result
      ensures result ==
        if upon.Some? || wait == Ready then old(errno) else if wait == TimedOut then ETIME else EWOULDBLOCK
      ensures result == OK <==> old(errno) == OK && (upon.Some? || wait == Ready)
    {
      RefreshImpl(Some(Callback(upon, own)));
      result := Await(upon.None?, wait);
    }

    method Reset(upon: Option<Signal>, own: Signal, wait: Wait) returns (result: Errno)
      requires Valid() && Model().CanCall(Call.Reset(own))
      modifies this, pinStateCache
      ensures Framed()
      ensures Did(old(Model()).Invoke(Call.Reset(Callback(upon, own)), Junk([], [])).(error := WaitError(upon, wait)))
      ensures fired == old(fired) + [if upon.Some? then upon.value else own]
      ensures errno == result
      ensures result ==
        if upon.Some? || wait == Ready then old(errno) else if wait == TimedOut then ETIME else EWOULDBLOCK
      ensures result == OK <==> old(errno) == OK && (upon.Some? || wait == Ready)
    {
      ResetImpl(Some(Callback(upon, own)));
      result := Await(upon.None?, wait);
    }

    // ---- Inbound messages ----

    method OnAnalogReport(command: byte, sample: uint16)
      requires Valid()
      modifies pinStateCache
      ensures Framed()
      ensures Did(old(Model()).AnalogReportEffect(command, sample))
    {
      var pinTransform := command % 16;
      var pin := pinTransform;
      if pinInfoCache != null {
        pin := 0;
        while pin < pinCount && pinTransform != pinInfoCache[pin].reserved
          invariant pin <= pinCount
          invariant Model().Mapped(pinTransform, pin) == Model().Mapped(pinTransform, 0)
        {
          pin := pin + 1;
        }
      }
      if pin < pinCount {
        SetValue(pin, sample);
      }
    }

    method OnDigitalReport(command: byte, levels: uint16)
      requires Valid()
      modifies this`rung, pinStateCache
      ensures Framed()
      ensures Did(old(Model()).DigitalReportEffect(command, levels))
    {
      var port := command % 16;
      var pinOffset := port * 8;
      var captureCount := CaptureCount(pinCount, pinOffset);
      ghost var was := Model();
      CaptureCountMeaning(was, port);
      Capture(pinOffset, captureCount, levels);
    }

    /** The loop over the captured pins; a handler runs right after the value of its pin is stored. */
    method Capture(pinOffset: nat, captureCount: int, levels: uint16)
      requires Valid() && captureCount <= 8
      requires captureCount > 0 ==> pinOffset + captureCount <= pinCount
      modifies this`rung, pinStateCache
      ensures pinStateCache[..] == old(Model()).Captured(pinOffset, Max(pinOffset, pinOffset + captureCount), levels)
      ensures rung == old(rung) + old(Model()).Handlers(pinOffset, Max(pinOffset, pinOffset + captureCount), levels)
    {
      ghost var was := Model();
      for i := 0 to if captureCount < 0 then 0 else captureCount
        invariant pinStateCache[..] == was.Captured(pinOffset, pinOffset + i, levels)
        invariant rung == old(rung) + was.Handlers(pinOffset, pinOffset + i, levels)
      {
        var pin := pinOffset + i;
        SetValue(pin, Masked(levels, i));
        assert was.Captured(pinOffset, pin + 1, levels)
            == was.Captured(pinOffset, pin, levels)[pin := was.states[pin].(value := Masked(levels, i))];
        if pinIsrCount > pin && pinIsrCache[pin].handler.Some? {
          if || pinIsrCache[pin].mode == CHANGE
             || (levels != 0 && (pinIsrCache[pin].mode == HIGH || pinIsrCache[pin].mode == RISING))
             || (levels == 0 && (pinIsrCache[pin].mode == LOW || pinIsrCache[pin].mode == FALLING))
          {
            rung := rung + [Signal(pinIsrCache[pin].handler.value, pinIsrCache[pin].context)];
          }
        }
      }
    }

    method OnAnalogMappingResponse(argv: seq<byte>)
      requires Valid() && Model().CanReceive(AnalogMappingResponse(argv))
      modifies this, pinInfoCache
      ensures Framed()
      ensures Did(old(Model()).MappingEffect(argv))
    {
      ghost var was := Model();
      for i := 0 to |argv|
        invariant Valid() && Framed() && pinInfoCache == old(pinInfoCache)
        invariant sent == old(sent) && fired == old(fired) && rung == old(rung) && errno == old(errno)
        invariant uponSurvey == old(uponSurvey)
        invariant pinInfoCache != null ==> forall k :: 0 <= k < pinInfoCache.Length ==>
          pinInfoCache[k] == if k < i then was.info.value[k].(reserved := argv[k]) else was.info.value[k]
        invariant Model() == was.(info := if pinInfoCache == null then None else Some(pinInfoCache[..]))
      {
        pinInfoCache[i] := pinInfoCache[i].(reserved := argv[i]);
      }
      assert pinInfoCache != null ==> pinInfoCache[..] == was.MappingEffect(argv).host.info.value;
      RefreshImpl(uponSurvey);
    }

    method AppendPinInfo(pinData: PinInfo)
      requires pinCount > 0 ==> pinInfoCache != null && pinInfoCache.Length == pinCount
      modifies this`pinCount, this`pinInfoCache
      ensures pinCount == old(pinCount) + 1 && pinInfoCache != null && fresh(pinInfoCache)
      ensures pinInfoCache[..] == (if old(pinCount) == 0 then [] else old(pinInfoCache[..])) + [pinData]
    {
      pinCount := pinCount + 1;
      var grown := Realloc(pinInfoCache, pinCount);
      grown[pinCount - 1] := pinData;
      assert pinCount > 1 ==> grown[..pinCount - 1] == pinInfoCache[..];
      pinInfoCache := grown;
    }

    /** The byte loop: one info per pin that the grammar completes, and the pin count. */
    method ParseCapabilities(argv: seq<byte>)
      requires Valid()
      modifies this`pinCount, this`pinInfoCache
      ensures pinCount == |Pins([], argv)|
      ensures pinCount == 0 ==> pinInfoCache == old(pinInfoCache)
      ensures pinCount > 0 ==>
        pinInfoCache != null && fresh(pinInfoCache) && pinInfoCache[..] == DescribeAll(Pins([], argv))
    {
      var analogResolution, modeByte, pwmResolution := false, true, false;
      var pinData := BLANK;
      ghost var done: seq<seq<Ability>> := [];
      ghost var current: seq<Ability> := [];
      pinCount := 0;
      for i := 0 to |argv|
        invariant modeByte || (i > 0 && argv[i - 1] != PIN_MODE_IGNORE)
        invariant Pins([], argv) == done + Pins(current, if modeByte then argv[i..] else argv[i - 1..])
        invariant pinData == if modeByte then Describe(current) else Mark(Describe(current), argv[i - 1])
        invariant analogResolution <==> !modeByte && argv[i - 1] == PIN_MODE_ANALOG
        invariant pwmResolution <==> !modeByte && argv[i - 1] == PIN_MODE_PWM
        invariant pinCount == |done|
        invariant pinCount == 0 ==> pinInfoCache == old(pinInfoCache)
        invariant pinCount > 0 ==> fresh(pinInfoCache) && pinInfoCache != null && pinInfoCache[..] == DescribeAll(done)
      {
        if modeByte {
          if argv[i] == PIN_MODE_IGNORE {
            AppendPinInfo(pinData);
            pinData := BLANK;
            modeByte := !modeByte;
            assert DescribeAll(done + [current]) == DescribeAll(done) + [Describe(current)];
            done, current := done + [current], [];
          } else {
            if argv[i] == PIN_MODE_ANALOG {
              analogResolution := true;
            } else if argv[i] == PIN_MODE_PWM {
              pwmResolution := true;
            }
            pinData := Mark(pinData, argv[i]);
          }
        } else {
          if analogResolution {
            pinData := pinData.(analogReadBits := argv[i]);
            analogResolution := false;
          } else if pwmResolution {
            pinData := pinData.(analogWriteBits := argv[i]);
            pwmResolution := false;
          }
          current := current + [Ability(argv[i - 1], argv[i])];
        }
        modeByte := !modeByte;
      }
      assert done == Pins([], argv);
    }

    method OnCapabilityResponse(argv: seq<byte>) returns (ghost junk: seq<PinState>)
      requires Valid()
      modifies this
      ensures Framed()
      ensures Did(old(Model()).CapabilityEffect(argv, junk))
    {
      ParseCapabilities(argv);
      pinStateCache := new PinState[pinCount];
      junk := pinStateCache[..];
      Transmit([AnalogMappingQuery]);
    }

    method AdoptReportedMode(pin: nat, code: byte)
      requires Valid() && pin < pinCount
      modifies this`errno, this`sent, pinStateCache
      ensures pinStateCache[..]
           == old(pinStateCache[..])[pin := old(pinStateCache[pin]).(mode := Translate(reportOnQuery, code))]
      ensures sent == old(sent) + Reaction(reportOnQuery, pin, code)
      ensures errno == if FlagOf(code) == UNSPECIFIED then EINVAL else old(errno)
    {
      if code == PIN_MODE_ANALOG {
        if reportOnQuery {
          SetMode(pin, ANALOG_READ);
          Transmit([ReportAnalog(pin, true)]);
        } else {
          SetMode(pin, UNSPECIFIED);
          Transmit([ReportAnalog(pin, false)]);
        }
      } else if code == PIN_MODE_INPUT {
        if reportOnQuery {
          SetMode(pin, DIGITAL_READ);
          Transmit([SetPinMode(pin, PIN_MODE_INPUT)]);
        } else {
          SetMode(pin, UNSPECIFIED);
          Transmit([ReportDigital(pin / 8, false)]);
        }
      } else if code == PIN_MODE_OUTPUT {
        SetMode(pin, DIGITAL_WRITE);
      } else if code == PIN_MODE_PULLUP {
        if reportOnQuery {
          SetMode(pin, DIGITAL_READ_WITH_PULLUP);
          Transmit([SetPinMode(pin, PIN_MODE_PULLUP)]);
        } else {
          SetMode(pin, UNSPECIFIED);
          Transmit([ReportDigital(pin / 8, false)]);
        }
      } else if code == PIN_MODE_PWM {
        SetMode(pin, ANALOG_WRITE);
      } else {
        SetMode(pin, UNSPECIFIED);
        errno := EINVAL;
      }
    }

    /** The callback on the reply for the last pin, which also ends reporting upon query. */
    method FinishRefresh(pin: nat)
      requires Valid() && pin < pinCount
      modifies this`reportOnQuery, this`refreshMutexHeld, this`fired
      ensures reportOnQuery == (old(reportOnQuery) && pin != pinCount - 1)
      ensures refreshMutexHeld == (old(refreshMutexHeld) && (pin != pinCount - 1 || uponRefresh.None?))
      ensures fired == old(fired) + if pin == pinCount - 1 && uponRefresh.Some? then [uponRefresh.value] else []
    {
      if pin == pinCount - 1 {
        reportOnQuery := false;
        if uponRefresh.Some? {
          refreshMutexHeld := false;
          fired := fired + [uponRefresh.value];
        }
      }
    }

    /** A reply for a pin in range. */
    method StoreReply(argv: seq<byte>)
      requires Valid() && |argv| >= 3 && argv[0] < pinCount
      modifies this, pinStateCache
      ensures Framed()
      ensures Did(old(Model()).PinStateEffect(argv))
    {
      var pin := argv[0];
      AdoptReportedMode(pin, argv[1]);
      if |argv| - 2 == 1 {
        SetValue(pin, argv[2]);
      } else {
        SetValue(pin, Join(argv[2], argv[3]));
      }
      assert pinStateCache[..] == old(Model()).PinStateEffect(argv).host.states;
      FinishRefresh(pin);
    }

    method OnPinStateResponse(argv: seq<byte>)
      requires Valid() && Model().CanReceive(PinStateResponse(argv))
      modifies this, pinStateCache
      ensures Framed()
      ensures Did(old(Model()).PinStateEffect(argv))
    {
      if 3 > |argv| {
        errno := EILSEQ;
      } else if argv[0] > pinCount {
        errno := ENXIO;
      } else {
        StoreReply(argv);
      }
    }
  }

  // ---- The window of a digital report ----

  function Max(a: nat, b: int): nat {
    if a < b then b else a
  }

  /** Conversion of a `size_t` to a 32-bit `int`. */
  function AsInt(size: nat): int {
    var low := size % 0x1_0000_0000;
    if low < 0x8000_0000 then low else low - 0x1_0000_0000
  }

  /** The number of pins captured, with the unsigned subtraction and the conversion to `int` as coded. */
  function CaptureCount(count: nat, offset: nat): int {
    if count >= offset + 8 then 8 else AsInt((count - offset) % 0x1_0000_0000_0000_0000)
  }

  /** The wrapped subtraction still yields the pins of the port, and none when the port lies beyond them. */
  lemma CaptureCountMeaning(h: Host, port: nat)
    requires port < 16
    ensures CaptureCount(|h.states|, 8 * port) > 0 ==> 8 * port + CaptureCount(|h.states|, 8 * port) == h.PortEnd(port)
    ensures CaptureCount(|h.states|, 8 * port) <= 0 ==> h.PortEnd(port) <= 8 * port
    ensures CaptureCount(|h.states|, 8 * port) <= 8
  {
    var d := |h.states| - 8 * port;
    if d < 0 {
      Wrapped(d);
    }
  }

  /** A small negative difference survives the wrap to `size_t` and back. */
  lemma Wrapped(d: int)
    requires -120 <= d < 0
    ensures AsInt(d % 0x1_0000_0000_0000_0000) == d
  {
    assert d % 0x1_0000_0000_0000_0000 == d + 0x1_0000_0000_0000_0000;
    assert d + 0x1_0000_0000_0000_0000 == 0xFFFF_FFFF * 0x1_0000_0000 + (d + 0x1_0000_0000);
    assert (d + 0x1_0000_0000_0000_0000) % 0x1_0000_0000 == d + 0x1_0000_0000;
  }
}
