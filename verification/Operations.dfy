/**
 What each call and each reply does, case by case and in the terms of a caller: when it succeeds, what it
 then caches, sends and returns, and with which error it is refused otherwise. Nothing here is stated
 through the functions that decide it.
 */
module Operations {
  import opened Basics
  import opened WiringPin
  import opened Messages
  import opened Capability
  import opened Host

  /** The pin exists and, on a surveyed board, announced the mode. */
  predicate Able(h: Host, pin: nat, flag: flags)
    requires h.Valid()
  {
    pin < |h.states| && (h.info.Some? ==> h.info.value[pin].Supports(flag))
  }

  /** The error of a call that is allowed for pins that exist and can do `flag`. */
  function Refusal(h: Host, pin: nat): Errno {
    if pin >= |h.states| then ENXIO else EOPNOTSUPP
  }

  /** The call is refused and leaves no trace but `error`. */
  predicate Refused(h: Host, e: Effect, error: Errno) {
    e.host == h && e.sent == [] && e.fired == [] && e.rung == [] && e.error == error
  }

  /** The call succeeds, caches `flag` for `pin` and sends exactly `sent`; a pin beyond the last is added. */
  predicate Switched(h: Host, e: Effect, pin: nat, flag: flags, sent: seq<Message>) {
    && e.error == OK && e.sent == sent && e.fired == [] && e.rung == []
    && e.host == h.(states := e.host.states)
    && |e.host.states| == (if pin < |h.states| then |h.states| else pin + 1)
    && e.host.states[pin].mode == flag
    && (pin < |h.states| ==> e.host.states[pin].value == h.states[pin].value)
    && forall p :: 0 <= p < |h.states| && p != pin ==> e.host.states[p] == h.states[p]
  }

  // ---- pinMode ----

  /** On an unsurveyed board every pin that can be named can be anything. */
  predicate Grants(h: Host, pin: nat, flag: flags)
    requires h.Valid()
  {
    h.info.Some? ==> Able(h, pin, flag)
  }

  lemma PinModeIsGuarded(h: Host, pin: nat, mode: nat, junk: Junk)
    requires h.Valid()
    ensures pin > 127 || mode > 2 ==> Refused(h, h.Invoke(PinMode(pin, mode), junk), EINVAL)
    ensures pin <= 127 && mode <= 2 && h.info.Some? && pin >= |h.states| ==>
      Refused(h, h.Invoke(PinMode(pin, mode), junk), ENXIO)
  {
  }

  /** INPUT is Firmata's plain input, and turns on the reports of the pin's port. */
  lemma PinModeInput(h: Host, pin: nat, junk: Junk)
    requires h.Valid() && pin <= 127 && (h.info.Some? ==> pin < |h.states|)
    ensures var e := h.Invoke(PinMode(pin, INPUT), junk);
      if Grants(h, pin, DIGITAL_READ) then
        Switched(h, e, pin, DIGITAL_READ, [SetPinMode(pin, PIN_MODE_INPUT), ReportDigital(pin / 8, true)])
      else Refused(h, e, EPERM)
  {
  }

  /** INPUT_PULLUP is the pulled-up input, and turns on the reports of the pin's port. */
  lemma PinModePullup(h: Host, pin: nat, junk: Junk)
    requires h.Valid() && pin <= 127 && (h.info.Some? ==> pin < |h.states|)
    ensures var e := h.Invoke(PinMode(pin, INPUT_PULLUP), junk);
      if Grants(h, pin, DIGITAL_READ_WITH_PULLUP) then
        Switched(h, e, pin, DIGITAL_READ_WITH_PULLUP, [SetPinMode(pin, PIN_MODE_PULLUP), ReportDigital(pin / 8, true)])
      else Refused(h, e, EPERM)
  {
  }

  /** OUTPUT stays open while both kinds of output are possible; the only kind there is is chosen at once. */
  lemma PinModeOutput(h: Host, pin: nat, junk: Junk)
    requires h.Valid() && pin <= 127 && (h.info.Some? ==> pin < |h.states|)
    ensures var e := h.Invoke(PinMode(pin, OUTPUT), junk);
      var analog, digital := Grants(h, pin, ANALOG_WRITE), Grants(h, pin, DIGITAL_WRITE);
      && (analog && digital ==> Switched(h, e, pin, UNSPECIFIED, []))
      && (analog && !digital ==> Switched(h, e, pin, ANALOG_WRITE, [SetPinMode(pin, PIN_MODE_PWM)]))
      && (!analog && digital ==> Switched(h, e, pin, DIGITAL_WRITE, [SetPinMode(pin, PIN_MODE_OUTPUT)]))
      && (!analog && !digital ==> Refused(h, e, EPERM))
  {
  }

  // ---- Writing and reading ----

  /**
   A digital write succeeds exactly on an able pin that is an output or still open. It then sends the given
   level, after the output mode exactly when the pin was open.
   */
  lemma DigitalWriteSends(h: Host, pin: nat, high: bool, junk: Junk)
    requires h.Valid()
    ensures var e := h.Invoke(DigitalWrite(pin, high), junk);
      && (e.error == OK <==>
           && pin <= 127 && Able(h, pin, DIGITAL_WRITE)
           && (h.states[pin].mode == DIGITAL_WRITE || h.states[pin].mode == UNSPECIFIED))
      && (e.error == OK ==> Switched(h, e, pin, DIGITAL_WRITE,
            (if h.states[pin].mode == UNSPECIFIED then [SetPinMode(pin, PIN_MODE_OUTPUT)] else [])
            + [DigitalValue(pin, high)]))
      && (e.error != OK ==> Refused(h, e,
            if pin > 127 then EINVAL else if !Able(h, pin, DIGITAL_WRITE) then Refusal(h, pin) else EPERM))
  {
  }

  /**
   An analog write succeeds exactly for an amount up to 255 on an able pin. It then sends that amount, after
   the PWM mode exactly when the pin was not in it.
   */
  lemma AnalogWriteSends(h: Host, pin: nat, amount: nat, junk: Junk)
    requires h.Valid()
    ensures var e := h.Invoke(AnalogWrite(pin, amount), junk);
      && (e.error == OK <==> pin <= 127 && amount <= 255 && Able(h, pin, ANALOG_WRITE))
      && (e.error == OK ==> Switched(h, e, pin, ANALOG_WRITE,
            (if h.states[pin].mode == ANALOG_WRITE then [] else [SetPinMode(pin, PIN_MODE_PWM)])
            + [AnalogValue(pin, amount)]))
      && (e.error != OK ==> Refused(h, e, if pin > 127 || amount > 255 then EINVAL else Refusal(h, pin)))
  {
  }

  /** A digital read is permitted exactly on an able pin cached as an input of either kind. */
  lemma DigitalReadReturns(h: Host, pin: nat, junk: Junk)
    requires h.Valid()
    ensures var e := h.Invoke(DigitalRead(pin), junk);
      && (e.error == OK <==>
           && pin <= 127 && Able(h, pin, DIGITAL_READ)
           && (h.states[pin].mode == DIGITAL_READ || h.states[pin].mode == DIGITAL_READ_WITH_PULLUP))
      && (e.error == OK ==> e == h.Stay(OK, e.value) && (e.value != 0 <==> h.states[pin].value != 0))
      && (e.error != OK ==> e.value == 0 && Refused(h, e,
            if pin > 127 then EINVAL else if !Able(h, pin, DIGITAL_READ) then Refusal(h, pin) else EPERM))
  {
  }

  /**
   An analog read of a pin in analog mode returns its sample if that is at most 1023, else 1024 with a range
   error. On any other pin it switches to analog mode, loses the old value and reports a range error.
   */
  lemma AnalogReadReturns(h: Host, pin: nat, junk: Junk)
    requires h.Valid() && pin <= 127 && Able(h, pin, ANALOG_READ)
    ensures var e := h.Invoke(AnalogRead(pin), junk);
      && e.fired == [] && e.rung == []
      && if h.states[pin].mode == ANALOG_READ then
           && e.host == h && e.sent == []
           && (h.states[pin].value <= 1023 ==> e.error == OK && e.value == h.states[pin].value)
           && (h.states[pin].value > 1023 ==> e.error == ERANGE && e.value == 1024)
         else
           && e.error == ERANGE && e.value == 1024 && e.sent == [SetPinMode(pin, PIN_MODE_ANALOG)]
           && e.host == h.(states := h.states[pin := PinState(ANALOG_READ, 0x4000)])
  {
  }

  /** Any other analog read is refused, except that an unsurveyed board gets the pin and answers from it. */
  lemma AnalogReadRefuses(h: Host, pin: nat, junk: Junk)
    requires h.Valid() && !Able(h, pin, ANALOG_READ)
    ensures var e := h.Invoke(AnalogRead(pin), junk);
      && (pin > 127 ==> Refused(h, e, EINVAL) && e.value == 0xFFFF_FFFF)
      && (pin <= 127 && h.info.Some? ==> Refused(h, e, ERANGE) && e.value == 1024)
      && (pin <= 127 && h.info.None? ==>
            exists g: Host ::
              && g == h.(states := g.states) && |g.states| == pin + 1 && g.states[..|h.states|] == h.states
              && e == g.Invoke(AnalogRead(pin), junk))
  {
    var g := h.Grow(pin, junk.states);
    assert g.states[..|h.states|] == h.states;
    assert pin <= 127 && h.info.None? ==> h.Invoke(AnalogRead(pin), junk) == g.Invoke(AnalogRead(pin), junk);
  }

  /** Behind the clamp, a surveyed board refuses a pin it does not have and a pin that cannot sample. */
  lemma AnalogReadImplRefuses(h: Host, pin: nat, junk: seq<PinState>)
    requires h.Valid() && h.info.Some? && !Able(h, pin, ANALOG_READ)
    ensures var e := h.AnalogReadEffect(pin, junk); Refused(h, e, Refusal(h, pin)) && e.value == 0xFFFF_FFFF
  {
  }

  // ---- Interrupts ----

  /** An attach succeeds exactly for a handler and one of the five modes on a pin able to read. */
  lemma AttachStores(h: Host, pin: nat, isr: Isr, junk: Junk)
    requires h.Valid()
    ensures var e := h.Invoke(AttachInterrupt(pin, isr), junk);
      && (e.error == OK <==>
           && pin <= 127 && isr.handler.Some? && Able(h, pin, DIGITAL_READ)
           && (isr.mode == LOW || isr.mode == HIGH || isr.mode == CHANGE || isr.mode == RISING || isr.mode == FALLING))
      && (e.error == OK ==>
           && e.host == h.(isrs := e.host.isrs) && e.sent == [] && e.fired == [] && e.rung == []
           && |e.host.isrs| == (if pin < |h.isrs| then |h.isrs| else pin + 1) && e.host.isrs[pin] == isr
           && forall p :: 0 <= p < |h.isrs| && p != pin ==> e.host.isrs[p] == h.isrs[p])
      && (e.error != OK ==> Refused(h, e,
            if pin > 127 || isr.handler.None? || isr.mode > 4 then EINVAL else Refusal(h, pin)))
  {
  }

  /** A detach succeeds exactly on an allocated slot, and leaves it without a handler. */
  lemma DetachClears(h: Host, pin: nat, junk: Junk)
    requires h.Valid()
    ensures var e := h.Invoke(DetachInterrupt(pin), junk);
      && (pin <= 127 && pin < |h.isrs| ==>
           e == h.(isrs := h.isrs[pin := Isr(None, 0, 0)]).Stay(OK, 0))
      && (pin > 127 ==> Refused(h, e, EINVAL))
      && (pin <= 127 && pin >= |h.isrs| ==> Refused(h, e, ENXIO))
  {
  }

  // ---- Survey, refresh, reset ----

  lemma SurveyAsks(h: Host, upon: Signal, junk: Junk)
    requires h.Valid()
    ensures var e := h.Invoke(Survey(upon), junk);
      e.host == h.(survey := Some(upon)) && e.sent == [CapabilityQuery] && e.fired == [] && e.error == OK
  {
  }

  /** A refresh asks for the pins that exist, each once, from the first to the last. */
  lemma RefreshAsks(h: Host, upon: Signal, junk: Junk)
    requires h.Valid()
    ensures var e := h.Invoke(Refresh(upon), junk);
      && e.host == h.(refresh := Some(upon), locked := true) && e.fired == [] && e.error == OK
      && |e.sent| == |h.states| && forall k :: 0 <= k < |e.sent| ==> e.sent[k] == PinStateQuery(k)
  {
    QueriesInOrder(0, |h.states|);
  }

  lemma {:induction false} QueriesInOrder(from: nat, end: nat)
    requires from <= end
    ensures |Queries(from, end)| == end - from
    ensures forall k :: 0 <= k < end - from ==> Queries(from, end)[k] == PinStateQuery(from + k)
    decreases end - from
  {
    if from < end {
      QueriesInOrder(from + 1, end);
    }
  }

  /** A reset reports again as at construction and leaves every pin in the mode its capabilities prefer, at 0. */
  lemma ResetClears(h: Host, upon: Signal, junk: Junk)
    requires h.Valid() && h.info.Some?
    ensures var e := h.Invoke(Reset(upon), junk);
      && e.sent == [SystemReset] && e.fired == [upon] && e.rung == [] && e.error == OK
      && e.host == h.(report := !h.jit, states := e.host.states) && |e.host.states| == |h.states|
      && forall p :: 0 <= p < |h.states| ==>
           && e.host.states[p].value == 0
           && (Able(h, p, ANALOG_READ) ==> e.host.states[p].mode == ANALOG_READ)
           && (!Able(h, p, ANALOG_READ) && Able(h, p, DIGITAL_WRITE) ==> e.host.states[p].mode == DIGITAL_WRITE)
           && (!Able(h, p, ANALOG_READ) && !Able(h, p, DIGITAL_WRITE) ==> e.host.states[p].mode == UNSPECIFIED)
  {
  }

  // ---- Replies and reports ----

  /** `info` offers exactly the modes that were listed, at the resolutions listed last, and is not mapped yet. */
  ghost predicate Lists(info: PinInfo, abilities: seq<Ability>) {
    && (info.Supports(DIGITAL_READ) <==> Offers(abilities, PIN_MODE_INPUT))
    && (info.Supports(DIGITAL_READ_WITH_PULLUP) <==> Offers(abilities, PIN_MODE_PULLUP))
    && (info.Supports(DIGITAL_WRITE) <==> Offers(abilities, PIN_MODE_OUTPUT))
    && (info.Supports(ANALOG_READ) <==> Offers(abilities, PIN_MODE_ANALOG))
    && (info.Supports(ANALOG_WRITE) <==> Offers(abilities, PIN_MODE_PWM))
    && IsLastResolution(abilities, PIN_MODE_ANALOG, info.analogReadBits)
    && IsLastResolution(abilities, PIN_MODE_PWM, info.analogWriteBits)
    && info.reserved == 0
  }

  /** The capabilities of the pins replace the old ones, but a reply that completes no pin leaves those behind. */
  lemma CapabilitiesAreStored(h: Host, argv: seq<byte>, junk: Junk)
    requires h.Valid()
    ensures var e, pins := h.Receive(CapabilityResponse(argv), junk), Pins([], argv);
      && e.sent == [AnalogMappingQuery] && e.fired == [] && e.rung == [] && e.error == OK
      && e.host == h.(info := e.host.info, states := e.host.states) && |e.host.states| == |pins|
      && (pins == [] ==> e.host.info == h.info)
      && (pins != [] ==>
            && e.host.info.Some? && |e.host.info.value| == |pins|
            && forall p :: 0 <= p < |pins| ==> Lists(e.host.info.value[p], pins[p]))
  {
    var pins := Pins([], argv);
    forall p | 0 <= p < |pins|
      ensures Lists(Describe(pins[p]), pins[p])
    {
      ListedIsDescribed(pins[p]);
    }
  }

  lemma ListedIsDescribed(abilities: seq<Ability>)
    ensures Lists(Describe(abilities), abilities)
  {
    DescribeMeaning(abilities);
    assert FlagOf(PIN_MODE_INPUT) == DIGITAL_READ && FlagOf(PIN_MODE_PULLUP) == DIGITAL_READ_WITH_PULLUP;
    assert FlagOf(PIN_MODE_OUTPUT) == DIGITAL_WRITE && FlagOf(PIN_MODE_ANALOG) == ANALOG_READ;
    assert FlagOf(PIN_MODE_PWM) == ANALOG_WRITE;
  }

  /** The mapping is stored in order, for as many pins as the reply has, and a refresh for the survey begins. */
  lemma MappingIsStored(h: Host, argv: seq<byte>, junk: Junk)
    requires h.CanReceive(AnalogMappingResponse(argv)) && h.info.Some?
    ensures var e := h.Receive(AnalogMappingResponse(argv), junk);
      && e.fired == [] && e.rung == [] && e.error == OK
      && e.host == h.(info := e.host.info, refresh := h.survey, locked := true)
      && e.host.info.Some? && |e.host.info.value| == |h.info.value|
      && (forall p :: 0 <= p < |argv| ==> e.host.info.value[p] == h.info.value[p].(reserved := argv[p]))
      && (forall p :: |argv| <= p < |h.info.value| ==> e.host.info.value[p] == h.info.value[p])
      && |e.sent| == |h.states| && forall k :: 0 <= k < |e.sent| ==> e.sent[k] == PinStateQuery(k)
  {
    QueriesInOrder(0, |h.states|);
  }

  /** `flag` is what a reply with mode `code` leaves in the cache of a host that is reporting or is not. */
  predicate Shows(report: bool, code: byte, flag: flags) {
    && (code == PIN_MODE_OUTPUT ==> flag == DIGITAL_WRITE)
    && (code == PIN_MODE_PWM ==> flag == ANALOG_WRITE)
    && (code == PIN_MODE_INPUT ==> flag == if report then DIGITAL_READ else UNSPECIFIED)
    && (code == PIN_MODE_PULLUP ==> flag == if report then DIGITAL_READ_WITH_PULLUP else UNSPECIFIED)
    && (code == PIN_MODE_ANALOG ==> flag == if report then ANALOG_READ else UNSPECIFIED)
    && (code !in {PIN_MODE_OUTPUT, PIN_MODE_PWM, PIN_MODE_INPUT, PIN_MODE_PULLUP, PIN_MODE_ANALOG} ==>
          flag == UNSPECIFIED)
  }

  /** What the host tells the board upon such a reply. */
  predicate Tells(report: bool, pin: nat, code: byte, sent: seq<Message>) {
    && (code == PIN_MODE_ANALOG ==> sent == [ReportAnalog(pin, report)])
    && (code == PIN_MODE_INPUT || code == PIN_MODE_PULLUP ==>
          sent == [if report then SetPinMode(pin, code) else ReportDigital(pin / 8, false)])
    && (code != PIN_MODE_ANALOG && code != PIN_MODE_INPUT && code != PIN_MODE_PULLUP ==> sent == [])
  }

  lemma TranslateShows(report: bool, pin: nat, code: byte)
    ensures Shows(report, code, Translate(report, code))
    ensures Tells(report, pin, code, Reaction(report, pin, code))
  {
  }

  /** A reply for a pin caches its mode and value, tells the board, and on the last pin ends the refresh. */
  lemma ReplyIsTaken(h: Host, argv: seq<byte>)
    requires h.CanReceive(PinStateResponse(argv)) && |argv| >= 3 && argv[0] < |h.states|
    ensures var pin, code, e := argv[0], argv[1], h.PinStateEffect(argv);
      var last := pin == |h.states| - 1;
      && Shows(h.report, code, e.host.states[pin].mode)
      && e.host.states[pin].value == (if |argv| == 3 then argv[2] else Join(argv[2], argv[3]))
      && (forall p :: 0 <= p < |h.states| && p != pin ==> e.host.states[p] == h.states[p])
      && Tells(h.report, pin, code, e.sent)
      && e.fired == (if last && h.refresh.Some? then [h.refresh.value] else []) && e.rung == []
      && e.host == h.(states := e.host.states, report := h.report && !last,
                      locked := h.locked && !(last && h.refresh.Some?))
      && (e.error == OK <==>
            code in {PIN_MODE_OUTPUT, PIN_MODE_PWM, PIN_MODE_INPUT, PIN_MODE_PULLUP, PIN_MODE_ANALOG})
      && (e.error != OK ==> e.error == EINVAL)
  {
  }

  /** A value of two bytes is their bitwise or, the first one shifted by seven places. */
  lemma JoinIsOr(high: byte, low: byte, i: nat)
    ensures Bit(Join(high, low), i) <==> Bit(low, i) || (i >= 7 && Bit(high, i - 7))
  {
    var q := low / 0x80;
    BitOfSum(q, 7, low % 0x80, i);
    BitOfSum(if q == 1 && high % 2 == 0 then high + 1 else high, 7, low % 0x80, i);
    if i > 7 {
      NoHighBit(i - 8);
    }
  }

  lemma {:induction false} NoHighBit(i: nat)
    ensures !Bit(0, i)
  {
    if i > 0 {
      NoHighBit(i - 1);
    }
  }

  lemma {:induction false} BitOfSum(q: nat, k: nat, r: nat, i: nat)
    requires r < Pow2(k)
    ensures Bit(q * Pow2(k) + r, i) <==> if i < k then Bit(r, i) else Bit(q, i - k)
    decreases k
  {
    if k > 0 {
      var m := q * Pow2(k - 1);
      assert q * Pow2(k) + r == 2 * m + r;
      if i > 0 {
        BitOfSum(q, k - 1, r / 2, i - 1);
        assert (2 * m + r) / 2 == m + r / 2;
      }
    }
  }

  lemma ReplyIsRefused(h: Host, argv: seq<byte>)
    requires h.CanReceive(PinStateResponse(argv))
    ensures |argv| < 3 ==> Refused(h, h.PinStateEffect(argv), EILSEQ)
    ensures |argv| >= 3 && argv[0] > |h.states| ==> Refused(h, h.PinStateEffect(argv), ENXIO)
  {
  }

  /** Without a survey the channel of a sample is the pin. */
  lemma UnsurveyedSample(h: Host, command: byte, sample: uint16)
    requires h.Valid() && h.info.None?
    ensures var h', pin := h.AnalogReportEffect(command, sample).host, command % 16;
      && (pin >= |h.states| ==> h' == h)
      && (pin < |h.states| ==> h' == h.(states := h.states[pin := PinState(h.states[pin].mode, sample)]))
  {
  }
}
