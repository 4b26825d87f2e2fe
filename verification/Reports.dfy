/**
 What reports and calls do to the replica on their own: fan-out of port reports, interrupt dispatch,
 routing of analog samples, and calls that fail. Any board may be at the other end here.
 */
module Reports {
  import opened Basics
  import opened WiringPin
  import opened Messages
  import opened Host

  // ---- Runs of the host alone ----

  datatype HostEvent = Do(call: Call, junk: Junk) | Take(inbound: Inbound, junk: Junk)

  predicate Possible(h: Host, event: HostEvent) {
    match event
    case Do(call, _) => h.CanCall(call)
    case Take(inbound, _) => h.CanReceive(inbound)
  }

  function Effected(h: Host, event: HostEvent): (e: Effect)
    requires Possible(h, event)
    ensures e.host.Valid()
  {
    match event
    case Do(call, junk) =>
      var e := h.Invoke(call, junk);
      EffectIsValid(h, call, junk);
      e
    case Take(inbound, junk) => h.Receive(inbound, junk)
  }

  lemma EffectIsValid(h: Host, call: Call, junk: Junk)
    requires h.CanCall(call)
    ensures h.Invoke(call, junk).host.Valid()
  {
  }

  lemma OtherCallsKeepIsrs(h: Host, call: Call, junk: Junk)
    requires h.CanCall(call) && !call.AttachInterrupt? && !call.DetachInterrupt?
    ensures h.Invoke(call, junk).host.isrs == h.isrs
  {
  }

  predicate AllPossible(h: Host, events: seq<HostEvent>)
    decreases |events|
  {
    events == [] || (Possible(h, events[0]) && AllPossible(Effected(h, events[0]).host, events[1..]))
  }

  function After(h: Host, events: seq<HostEvent>): (h': Host)
    requires AllPossible(h, events)
    decreases |events|
  {
    if events == [] then h else After(Effected(h, events[0]).host, events[1..])
  }

  // ---- Interrupt dispatch ----

  /** The slots that successful attaches and detaches have written, and what they last wrote. */
  function Registry(h: Host, events: seq<HostEvent>, known: map<nat, Isr>): map<nat, Isr>
    requires AllPossible(h, events)
    decreases |events|
  {
    if events == [] then known
    else Registry(Effected(h, events[0]).host, events[1..], Registered(h, events[0], known))
  }

  function Registered(h: Host, event: HostEvent, known: map<nat, Isr>): map<nat, Isr>
    requires Possible(h, event)
  {
    if event.Do? && Effected(h, event).error == OK then
      match event.call
      case AttachInterrupt(pin, isr) => known[pin := isr]
      case DetachInterrupt(pin) => known[pin := Isr(None, 0, LOW)]
      case _ => known
    else known
  }

  predicate Records(h: Host, known: map<nat, Isr>) {
    forall pin :: pin in known ==> pin < |h.isrs| && h.isrs[pin] == known[pin]
  }

  lemma {:induction false} RegistryIsRecorded(h: Host, events: seq<HostEvent>, known: map<nat, Isr>)
    requires AllPossible(h, events) && Records(h, known)
    ensures Records(After(h, events), Registry(h, events, known))
    decreases |events|
  {
    if events != [] {
      EventRecords(h, events[0], known);
      RegistryIsRecorded(Effected(h, events[0]).host, events[1..], Registered(h, events[0], known));
    }
  }

  lemma EventRecords(h: Host, event: HostEvent, known: map<nat, Isr>)
    requires Possible(h, event) && Records(h, known)
    ensures Records(Effected(h, event).host, Registered(h, event, known))
  {
    if event.Do? && event.call.AttachInterrupt? {
      if h.Accepts(event.call) {
        AttachWrites(h, event.call.pin, event.call.isr, event.junk.isrs);
      }
    } else if event.Do? && !event.call.DetachInterrupt? {
      OtherCallsKeepIsrs(h, event.call, event.junk);
    } else if event.Take? {
      InboundKeepsIsrs(h, event.inbound, event.junk);
    }
  }

  lemma InboundKeepsIsrs(h: Host, inbound: Inbound, junk: Junk)
    requires h.CanReceive(inbound)
    ensures h.Receive(inbound, junk).host.isrs == h.isrs
  {
  }

  /** Attaching writes one slot and keeps all others, however far the cache had to grow. */
  lemma AttachWrites(h: Host, pin: nat, isr: Isr, junk: seq<Isr>)
    requires h.Valid()
    ensures var e := h.AttachEffect(pin, isr, junk);
      && (e.error != OK ==> e.host == h)
      && (e.error == OK ==> pin < |e.host.isrs| && e.host.isrs[pin] == isr)
      && |h.isrs| <= |e.host.isrs|
      && forall p :: 0 <= p < |h.isrs| && p != pin ==> e.host.isrs[p] == h.isrs[p]
  {
  }

  lemma {:induction false} RingingMeaning(h: Host, from: nat, end: nat, levels: uint16)
    ensures var pins := h.Ringing(from, end, levels);
      && (forall j, k :: 0 <= j < k < |pins| ==> pins[j] < pins[k])
      && (forall p :: p in pins <==> from <= p < end && h.Rings(p, levels))
      && forall k :: 0 <= k < |pins| ==> h.Rings(pins[k], levels)
    decreases end
  {
    if from < end {
      RingingMeaning(h, from, end - 1, levels);
      var before, pins := h.Ringing(from, end - 1, levels), h.Ringing(from, end, levels);
      assert forall k :: 0 <= k < |before| ==> pins[k] == before[k] && pins[k] in before;
    }
  }

  lemma {:induction false} HandlersOfRinging(h: Host, from: nat, end: nat, levels: uint16)
    ensures var pins := h.Ringing(from, end, levels);
      && |h.Handlers(from, end, levels)| == |pins|
      && forall k :: 0 <= k < |pins| ==>
           h.Rings(pins[k], levels)
           && h.Handlers(from, end, levels)[k] == Signal(h.isrs[pins[k]].handler.value, h.isrs[pins[k]].context)
    decreases end
  {
    if from < end {
      HandlersOfRinging(h, from, end - 1, levels);
    }
  }

  /** Every allocated interrupt slot of the captured window is in `known`. */
  predicate CapturedAreKnown(h: Host, known: map<nat, Isr>, command: byte) {
    forall pin :: 8 * (command % 16) <= pin < h.PortEnd(command % 16) && pin < |h.isrs| ==> pin in known
  }

  /** When a handler registered with `mode` is due, the port value as a whole being `levels`. */
  predicate IsDue(mode: nat, levels: uint16) {
    match mode
    case 0 => levels == 0 // LOW
    case 1 => levels != 0 // HIGH
    case 2 => true        // CHANGE
    case 3 => levels != 0 // RISING
    case 4 => levels == 0 // FALLING
    case _ => false
  }

  /** The report rings a pin of the captured window exactly when its known handler is triggered. */
  ghost predicate RingsTheKnown(h: Host, known: map<nat, Isr>, command: byte, levels: uint16) {
    forall pin :: 8 * (command % 16) <= pin < h.PortEnd(command % 16) ==>
      (h.Rings(pin, levels) <==> pin in known && known[pin].handler.Some? && IsDue(known[pin].mode, levels))
  }

  /**
   After any run of a host, if every allocated slot that the report looks at was attached or detached, it
   calls in ascending pin order, once each, the handlers registered for pins of the port that exist: those
   for CHANGE always, for HIGH and RISING on a non-zero port value, for LOW and FALLING on a zero one.
   */
  lemma DispatchCallsTheRegistered(jit: bool, events: seq<HostEvent>, command: byte, levels: uint16)
      returns (pins: seq<nat>)
    requires AllPossible(Initial(jit), events)
    requires CapturedAreKnown(After(Initial(jit), events), Registry(Initial(jit), events, map[]), command)
    ensures var h, registry := After(Initial(jit), events), Registry(Initial(jit), events, map[]);
      var rung := h.DigitalReportEffect(command, levels).rung;
      && (forall j, k :: 0 <= j < k < |pins| ==> pins[j] < pins[k])
      && (forall pin :: pin in pins <==>
           && pin / 8 == command % 16 && pin < |h.states|
           && pin in registry && registry[pin].handler.Some? && IsDue(registry[pin].mode, levels))
      && |rung| == |pins|
      && forall k :: 0 <= k < |pins| ==>
           pins[k] in registry && registry[pins[k]].handler.Some?
           && rung[k] == Signal(registry[pins[k]].handler.value, registry[pins[k]].context)
  {
    var h := After(Initial(jit), events);
    var from := 8 * (command % 16);
    RegistryIsRecorded(Initial(jit), events, map[]);
    RingingMeaning(h, from, h.PortEnd(command % 16), levels);
    HandlersOfRinging(h, from, h.PortEnd(command % 16), levels);
    pins := h.Ringing(from, h.PortEnd(command % 16), levels);
  }

  // ---- When exactly dispatch is right ----

  /** The same calls and messages, whatever uninitialised memory held. */
  predicate SameCalls(events: seq<HostEvent>, others: seq<HostEvent>) {
    && |events| == |others|
    && forall k :: 0 <= k < |events| ==>
         match events[k]
         case Do(call, _) => others[k].Do? && others[k].call == call
         case Take(inbound, _) => others[k].Take? && others[k].inbound == inbound
  }

  /** What decides about growth and refusals: everything but modes, values and handlers. */
  predicate Alike(h: Host, h': Host) {
    h.info == h'.info && |h.states| == |h'.states| && |h.isrs| == |h'.isrs| && h.Valid() && h'.Valid()
  }

  /** The pin count after a call, from what `Alike` compares. */
  function CountAfter(h: Host, call: Call): nat {
    if (call.PinMode? || call.AnalogRead?) && h.Accepts(call) && h.info.None? && call.pin >= |h.states|
    then call.pin + 1 else |h.states|
  }

  predicate Attaches(h: Host, call: Call)
    requires h.Valid()
  {
    call.AttachInterrupt? && h.Accepts(call) && call.pin < |h.states| && h.Can(call.pin, DIGITAL_READ)
  }

  predicate Grown(h: Host, h': Host, count: nat, isrCount: nat) {
    h'.info == h.info && |h'.states| == count && |h'.isrs| == isrCount
  }

  lemma PinCallShape(h: Host, pin: nat, mode: nat, junk: seq<PinState>)
    requires h.Valid()
    ensures var count := if h.info.None? && pin >= |h.states| then pin + 1 else |h.states|;
      && Grown(h, h.PinModeEffect(pin, mode, junk).host, count, |h.isrs|)
      && Grown(h, h.AnalogReadEffect(pin, junk).host, count, |h.isrs|)
  {
  }

  lemma WriteShape(h: Host, pin: nat, amount: nat, high: bool)
    requires h.Valid()
    ensures Grown(h, h.AnalogWriteEffect(pin, amount).host, |h.states|, |h.isrs|)
    ensures Grown(h, h.DigitalWriteEffect(pin, high).host, |h.states|, |h.isrs|)
  {
  }

  lemma CallShape(h: Host, call: Call, junk: Junk)
    requires h.CanCall(call)
    ensures Grown(h, h.Invoke(call, junk).host, CountAfter(h, call),
                  if Attaches(h, call) && call.pin >= |h.isrs| then call.pin + 1 else |h.isrs|)
  {
    match call {
      case PinMode(pin, mode) => PinCallShape(h, pin, mode, junk.states);
      case AnalogRead(pin) => PinCallShape(h, pin, 0, junk.states);
      case AnalogWrite(pin, amount) => WriteShape(h, pin, amount, false);
      case DigitalWrite(pin, high) => WriteShape(h, pin, 0, high);
      case _ =>
    }
  }

  lemma CallsAlike(h: Host, h': Host, call: Call, junk: Junk, junk': Junk)
    requires Alike(h, h') && h.CanCall(call)
    ensures h'.CanCall(call) && Alike(h.Invoke(call, junk).host, h'.Invoke(call, junk').host)
    ensures call.AttachInterrupt? || call.DetachInterrupt? ==>
      (h.Invoke(call, junk).error == OK <==> h'.Invoke(call, junk').error == OK)
  {
    CallShape(h, call, junk);
    CallShape(h', call, junk');
    EffectIsValid(h, call, junk);
    EffectIsValid(h', call, junk');
  }

  lemma MappingAlike(h: Host, h': Host, argv: seq<byte>)
    requires Alike(h, h') && h.CanReceive(AnalogMappingResponse(argv))
    ensures Alike(h.MappingEffect(argv).host, h'.MappingEffect(argv).host)
  {
    var e, e' := h.MappingEffect(argv).host, h'.MappingEffect(argv).host;
    assert e.info.Some? ==> e.info.value == e'.info.value;
  }

  lemma PinStateAlike(h: Host, h': Host, argv: seq<byte>)
    requires Alike(h, h') && h.CanReceive(PinStateResponse(argv))
    ensures Alike(h.PinStateEffect(argv).host, h'.PinStateEffect(argv).host)
  {
  }

  /** Reports change values only. */
  lemma SampleIsAlike(h: Host, command: byte, sample: uint16)
    requires h.Valid()
    ensures Alike(h, h.AnalogReportEffect(command, sample).host)
  {
  }

  lemma LevelsAreAlike(h: Host, command: byte, levels: uint16)
    requires h.Valid()
    ensures Alike(h, h.DigitalReportEffect(command, levels).host)
  {
  }

  lemma MessagesAlike(h: Host, h': Host, inbound: Inbound, junk: Junk, junk': Junk)
    requires Alike(h, h') && h.CanReceive(inbound)
    ensures h'.CanReceive(inbound) && Alike(h.Receive(inbound, junk).host, h'.Receive(inbound, junk').host)
  {
    match inbound {
      case AnalogMappingResponse(argv) => MappingAlike(h, h', argv);
      case PinStateResponse(argv) => PinStateAlike(h, h', argv);
      case CapabilityResponse(argv) =>
      case AnalogReport(command, sample) =>
        SampleIsAlike(h, command, sample);
        SampleIsAlike(h', command, sample);
      case DigitalReport(command, levels) =>
        LevelsAreAlike(h, command, levels);
        LevelsAreAlike(h', command, levels);
    }
  }

  lemma EventsAlike(h: Host, h': Host, event: HostEvent, other: HostEvent, known: map<nat, Isr>)
    requires Alike(h, h') && Possible(h, event) && SameCalls([event], [other])
    ensures Possible(h', other) && Alike(Effected(h, event).host, Effected(h', other).host)
    ensures Registered(h, event, known) == Registered(h', other, known)
  {
    assert [event][0] == event && [other][0] == other;
    match event {
      case Do(call, junk) => CallsAlike(h, h', call, junk, other.junk);
      case Take(inbound, junk) => MessagesAlike(h, h', inbound, junk, other.junk);
    }
  }

  lemma {:induction false} RunsAlike(
      h: Host, h': Host, events: seq<HostEvent>, others: seq<HostEvent>, known: map<nat, Isr>)
    requires Alike(h, h') && AllPossible(h, events) && SameCalls(events, others)
    ensures AllPossible(h', others)
    ensures Alike(After(h, events), After(h', others))
    ensures Registry(h, events, known) == Registry(h', others, known)
    decreases |events|
  {
    if events != [] {
      EventsAlike(h, h', events[0], others[0], known);
      assert SameCalls(events[1..], others[1..]);
      RunsAlike(Effected(h, events[0]).host, Effected(h', others[0]).host, events[1..], others[1..],
                Registered(h, events[0], known));
    }
  }

  const STRAY := Isr(Some(0), 0, CHANGE)

  /** The same event, with a live handler in every slot that it leaves uninitialised. */
  function Haunted(event: HostEvent): HostEvent {
    match event
    case Do(AttachInterrupt(pin, isr), junk) =>
      Do(AttachInterrupt(pin, isr), Junk(junk.states, seq(pin + 1, _ => STRAY)))
    case _ => event
  }

  function AllHaunted(events: seq<HostEvent>): (others: seq<HostEvent>)
    ensures SameCalls(events, others)
  {
    seq(|events|, k requires 0 <= k < |events| => Haunted(events[k]))
  }

  predicate Haunts(h: Host, known: map<nat, Isr>) {
    forall pin :: 0 <= pin < |h.isrs| && pin !in known ==> h.isrs[pin] == STRAY
  }

  lemma HauntedStep(h: Host, event: HostEvent, known: map<nat, Isr>)
    requires Possible(h, Haunted(event)) && Haunts(h, known)
    ensures Haunts(Effected(h, Haunted(event)).host, Registered(h, Haunted(event), known))
  {
    if event.Take? {
      InboundKeepsIsrs(h, event.inbound, event.junk);
    } else if !event.call.AttachInterrupt? && !event.call.DetachInterrupt? {
      OtherCallsKeepIsrs(h, event.call, event.junk);
    } else if event.call.AttachInterrupt? && h.Accepts(event.call) {
      HauntedAttach(h, event.call.pin, event.call.isr, Haunted(event).junk.isrs);
    }
  }

  lemma HauntedAttach(h: Host, pin: nat, isr: Isr, junk: seq<Isr>)
    requires h.Valid() && |junk| == pin + 1 && forall k :: 0 <= k < |junk| ==> junk[k] == STRAY
    ensures var e := h.AttachEffect(pin, isr, junk);
      && (e.error != OK ==> e.host == h)
      && forall p :: 0 <= p < |e.host.isrs| && (p != pin || e.error != OK) ==>
           e.host.isrs[p] == if p < |h.isrs| then h.isrs[p] else STRAY
  {
  }

  lemma {:induction false} HauntedRun(h: Host, events: seq<HostEvent>, known: map<nat, Isr>)
    requires Haunts(h, known) && AllPossible(h, AllHaunted(events))
    ensures Haunts(After(h, AllHaunted(events)), Registry(h, AllHaunted(events), known))
    decreases |events|
  {
    if events != [] {
      var others := AllHaunted(events);
      HauntedStep(h, events[0], known);
      assert others[1..] == AllHaunted(events[1..]);
      HauntedRun(Effected(h, others[0]).host, events[1..], Registered(h, others[0], known));
    }
  }

  /** On a host whose slots agree with `known`, knowing the captured slots is enough. */
  lemma KnownSlotsRing(h: Host, known: map<nat, Isr>, command: byte, levels: uint16)
    requires Records(h, known) && CapturedAreKnown(h, known, command)
    ensures RingsTheKnown(h, known, command, levels)
  {
  }

  /**
   A report rings exactly the registered handlers that match after every run that makes the same calls,
   whatever uninitialised memory held, if and only if every allocated slot of the captured window was
   attached or detached.
   */
  lemma DispatchIsRightIff(jit: bool, events: seq<HostEvent>, command: byte, levels: uint16)
    requires AllPossible(Initial(jit), events)
    ensures (forall others :: SameCalls(events, others) ==>
               && AllPossible(Initial(jit), others)
               && RingsTheKnown(After(Initial(jit), others), Registry(Initial(jit), others, map[]), command, levels))
       <==> CapturedAreKnown(After(Initial(jit), events), Registry(Initial(jit), events, map[]), command)
  {
    var h0 := Initial(jit);
    var h, known := After(h0, events), Registry(h0, events, map[]);
    if CapturedAreKnown(h, known, command) {
      forall others | SameCalls(events, others)
        ensures AllPossible(h0, others)
        ensures RingsTheKnown(After(h0, others), Registry(h0, others, map[]), command, levels)
      {
        RunsAlike(h0, h0, events, others, map[]);
        RegistryIsRecorded(h0, others, map[]);
        KnownSlotsRing(After(h0, others), known, command, levels);
      }
    } else {
      var pin :| 8 * (command % 16) <= pin < h.PortEnd(command % 16) && pin < |h.isrs| && pin !in known;
      var others := AllHaunted(events);
      RunsAlike(h0, h0, events, others, map[]);
      HauntedRun(h0, events, map[]);
      assert After(h0, others).Rings(pin, levels);
      assert SameCalls(events, others);
    }
  }

  /** The smallest wrong dispatch: a slot that growth left uninitialised is called. */
  lemma UninitialisedSlotIsCalled()
    ensures var stray := Isr(Some(7), 0, CHANGE);
      var attach := Do(AttachInterrupt(1, Isr(Some(8), 0, LOW)), Junk([], [stray, stray]));
      var events := [Do(PinMode(1, INPUT), Junk([], [])), attach];
      && AllPossible(Initial(false), events)
      && 0 !in Registry(Initial(false), events, map[])
      && Signal(7, 0) in After(Initial(false), events).DigitalReportEffect(0, 1).rung
  {
    var stray := Isr(Some(7), 0, CHANGE);
    var first := Do(PinMode(1, INPUT), Junk([], []));
    var attach := Do(AttachInterrupt(1, Isr(Some(8), 0, LOW)), Junk([], [stray, stray]));
    var events := [first, attach];
    var h1 := Effected(Initial(false), first).host;
    var h2 := Effected(h1, attach).host;
    assert events[1..] == [attach] && events[1..][1..] == [];
    assert After(Initial(false), events) == After(h1, [attach]) == After(h2, []) == h2;
    var known: map<nat, Isr> := map[];
    assert Registered(Initial(false), first, known) == known;
    assert Registry(Initial(false), events, known) == Registry(h1, [attach], known);
    assert Registry(h1, [attach], known) == Registered(h1, attach, known);
    assert h2.isrs[0] == stray && |h2.states| == 2;
    assert h2.Rings(0, 1) && h2.Handlers(0, 1, 1) == [Signal(7, 0)];
  }

  // ---- Digital fan-out ----

  /**
   A port report changes exactly the values of the existing pins of its port, a permitted read of such a
   pin then returns its bit, and which reads are permitted is unaffected.
   */
  lemma DigitalFanOut(h: Host, command: byte, levels: uint16, pin: nat)
    requires h.Valid() && pin < |h.states|
    ensures var h' := h.DigitalReportEffect(command, levels).host;
      && h' == h.(states := h'.states) && |h'.states| == |h.states|
      && h'.states[pin].mode == h.states[pin].mode
      && (pin / 8 != command % 16 ==> h'.states[pin] == h.states[pin])
      && h'.DigitalReadEffect(pin).error == h.DigitalReadEffect(pin).error
      && (pin / 8 == command % 16 && h.DigitalReadEffect(pin).error == OK ==>
            (h'.DigitalReadEffect(pin).value != 0 <==> Bit(levels, pin % 8)))
  {
  }

  /** The values cached for the first `n` pins from `from`, added up. */
  function TotalValue(h: Host, from: nat, n: nat): nat
    requires from + n <= |h.states|
  {
    if n == 0 then 0 else TotalValue(h, from, n - 1) + h.states[from + n - 1].value
  }

  function Weight(levels: nat, n: nat): nat {
    if n == 0 then 0 else Weight(levels, n - 1) + if Bit(levels, n - 1) then Pow2(n - 1) else 0
  }

  lemma {:induction false} WeightSplits(levels: nat, n: nat)
    ensures Weight(levels, n + 1) == levels % 2 + 2 * Weight(levels / 2, n)
  {
    if n > 0 {
      WeightSplits(levels, n - 1);
    } else {
      assert Weight(levels, 1) == if Bit(levels, 0) then 1 else 0;
    }
  }

  lemma {:induction false} WeightIsLowBits(levels: nat, n: nat)
    ensures Weight(levels, n) == levels % Pow2(n)
  {
    if n > 0 {
      WeightSplits(levels, n - 1);
      WeightIsLowBits(levels / 2, n - 1);
      HalvedRemainder(levels, Pow2(n - 1));
    }
  }

  lemma HalvedRemainder(x: nat, m: nat)
    requires m >= 1
    ensures x % (2 * m) == x % 2 + 2 * ((x / 2) % m)
  {
    var q, r := (x / 2) / m, (x / 2) % m;
    assert x == (2 * m) * q + (2 * r + x % 2);
    QuotientAndRemainder(x, 2 * m, q, 2 * r + x % 2);
  }

  /** The values stored for a full port add up to the low byte of the report: no bit is lost or moved. */
  lemma PortIsConserved(h: Host, command: byte, levels: uint16)
    requires h.Valid() && 8 * (command % 16) + 8 <= |h.states|
    ensures TotalValue(h.DigitalReportEffect(command, levels).host, 8 * (command % 16), 8) == levels % 256
  {
    StoredIsWeight(h, command, levels, 8);
    WeightIsLowBits(levels, 8);
    assert Pow2(8) == 256;
  }

  lemma {:induction false} StoredIsWeight(h: Host, command: byte, levels: uint16, n: nat)
    requires h.Valid() && n <= 8 && 8 * (command % 16) + 8 <= |h.states|
    ensures TotalValue(h.DigitalReportEffect(command, levels).host, 8 * (command % 16), n) == Weight(levels, n)
  {
    if n > 0 {
      StoredIsWeight(h, command, levels, n - 1);
    }
  }

  // ---- Analog routing ----

  /** No two pins share an analog channel. */
  predicate InjectiveMapping(h: Host)
    requires h.Valid()
  {
    h.info.Some? && forall p, q :: 0 <= p < q < |h.states| && h.info.value[p].reserved < 16 ==>
      h.info.value[p].reserved != h.info.value[q].reserved
  }

  /** A sample reaches the least pin mapped to its channel, and only it; with an injective mapping, the pin. */
  lemma SampleIsRouted(h: Host, command: byte, sample: uint16, pin: nat)
    requires h.Valid() && h.info.Some? && pin < |h.states|
    requires h.info.value[pin].reserved == command % 16
    ensures var target := h.Mapped(command % 16, 0);
      && target <= pin && h.info.value[target].reserved == command % 16
      && (forall p :: 0 <= p < target ==> h.info.value[p].reserved != command % 16)
      && h.AnalogReportEffect(command, sample).host == h.SetValue(target, sample)
      && (InjectiveMapping(h) ==> target == pin)
  {
  }

  lemma UnmappedSampleIsDropped(h: Host, command: byte, sample: uint16)
    requires h.Valid() && h.info.Some?
    requires forall p :: 0 <= p < |h.states| ==> h.info.value[p].reserved != command % 16
    ensures h.AnalogReportEffect(command, sample).host == h
  {
  }

  /**
   The public `analogRead` of a fresh pin reports a range error and puts the pin in analog mode; once a
   sample for the channel of the pin has come in, it returns that sample and sends nothing more.
   */
  lemma ReadAfterSample(h: Host, pin: nat, command: byte, sample: uint16, junk: Junk)
    requires h.Valid() && InjectiveMapping(h) && pin <= 127 && pin < |h.states| && h.Can(pin, ANALOG_READ)
    requires h.info.value[pin].reserved == command % 16 && sample <= 1023
    requires h.states[pin].mode != ANALOG_READ
    ensures var first := h.Invoke(AnalogRead(pin), junk);
      var again := first.host.AnalogReportEffect(command, sample).host.Invoke(AnalogRead(pin), junk);
      && first.error == ERANGE && first.value == 1024 && first.sent == [SetPinMode(pin, PIN_MODE_ANALOG)]
      && again.error == OK && again.value == sample && again.sent == []
  {
  }

  // ---- Pin state replies ----

  /**
   A reply with one value byte stores that byte, a longer one the 14-bit number whose high septet is the
   first of two; a reply for another pin, or a malformed one, leaves the pin alone.
   */
  lemma ReplyStoresValue(h: Host, argv: seq<byte>, pin: nat)
    requires h.CanReceive(PinStateResponse(argv)) && pin < |h.states|
    requires forall k :: 0 <= k < |argv| ==> argv[k] < 0x80
    ensures var stored := h.PinStateEffect(argv).host.states[pin];
      if |argv| < 3 || argv[0] != pin then stored == h.states[pin]
      else stored.mode == Translate(h.report, argv[1])
           && (|argv| == 3 ==> stored.value == argv[2])
           && (|argv| > 3 ==> stored.value == (argv[2] as int) * 0x80 + argv[3])
  {
  }

  // ---- Failing calls ----

  predicate Writes(call: Call) {
    call.PinMode? || call.AnalogWrite? || call.DigitalWrite? || call.AttachInterrupt?
  }

  /** A mode change, write or attach that fails behind the guards of Wiring leaves no trace. */
  lemma FailureIsAtomic(h: Host, call: Call, junk: Junk)
    requires h.Valid() && Writes(call) && h.Invoke(call, junk).error != OK
    ensures h.Invoke(call, junk) == h.Stay(h.Invoke(call, junk).error, 0)
  {
  }

  /**
   Behind the guard, `_pinMode` alone is not atomic: a failing call leaves the replica as it was exactly
   when the board has been surveyed or already has the pin; otherwise the pin count has grown.
   */
  lemma RawPinModeFailure(h: Host, pin: nat, mode: nat, junk: seq<PinState>)
    requires h.Valid() && h.PinModeEffect(pin, mode, junk).error != OK
    ensures h.PinModeEffect(pin, mode, junk).sent == []
    ensures h.PinModeEffect(pin, mode, junk).host == h <==> h.info.Some? || pin < |h.states|
  {
  }

  /**
   The smallest such case: an unknown mode on a pin of a board that was never surveyed. The public `pinMode`
   refuses the mode before it gets here, so only another caller of the implementation could meet it.
   */
  lemma RawPinModeGrowsTheBoard()
    ensures Initial(false).PinModeEffect(0, 3, []).error == EINVAL
    ensures |Initial(false).PinModeEffect(0, 3, []).host.states| == 1
  {
  }
}
