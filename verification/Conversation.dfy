/** The steps of the host on the view of a system keep it good; hence so does every run. */
module Conversation {
  import opened Basics
  import opened WiringPin
  import opened Messages
  import opened Capability
  import opened Host
  import opened Board
  import opened Coherence
  import opened Operations
  import opened Telemorph

  /** The view after a call. */
  function CallOn(v: View, call: Call, junk: Junk): View
    requires v.board.Valid() && v.host.CanCall(call)
  {
    var e := v.host.Invoke(call, junk);
    View(e.host, Replay(v.board, e.sent), v.expected + Answers(v.board, e.sent), AfterCall(v.history, v.host, call, e))
  }

  /** The view after the host has taken `inbound`, whose reply was the next one expected. */
  function DeliverOn(v: View, inbound: Inbound, rest: seq<Reply>, junk: Junk): View
    requires v.board.Valid() && v.host.CanReceive(inbound)
  {
    var e := v.host.Receive(inbound, junk);
    View(e.host, Replay(v.board, e.sent), rest + Answers(v.board, e.sent), AfterDelivery(v.history, inbound, e))
  }

  /** The host sent `out`: once surveyed, only values that fit, and no unsupported mode. */
  ghost predicate Careful(v: View, v': View, out: seq<Message>)
    requires v.board.Valid() && v'.board.Valid()
  {
    v.host.info.Some? ==>
      && v'.host.info.Some?
      && SafeTrace(v.board, out)
      && (v.board.ReportsSupported() ==> v'.board.ReportsSupported())
  }

  /** The cache holds the capabilities of every pin and the translation of its mode; reporting has ended. */
  ghost predicate Complete(v: View)
    requires v.board.Valid()
  {
    Surveyed(v.host, v.board) && v.Answered(|v.board.pins|) && !v.host.report
  }

  /** Until it calls back, a conversation changes no pin of the board; when it does, the cache is complete. */
  ghost predicate Continues(v: View, v': View)
    requires v.board.Valid() && v'.board.Valid()
  {
    !v.history.Settled() ==>
      && v'.board == v.board
      && v'.history.started == v.history.started
      && v'.history.reporting == v.history.reporting
      && (v'.history.Settled() ==> Complete(v'))
  }

  ghost predicate Keeps(v: View, v': View, out: seq<Message>)
    requires v.board.Valid()
  {
    v'.Good() && Careful(v, v', out) && Continues(v, v')
  }

  // ---- Calls ----

  predicate IsQuery(m: Message) {
    m.CapabilityQuery? || m.AnalogMappingQuery? || m.PinStateQuery?
  }

  lemma {:induction false} NoQueryNoAnswer(b: Board, ms: seq<Message>)
    requires b.Valid() && forall k :: 0 <= k < |ms| ==> !IsQuery(ms[k])
    ensures Answers(b, ms) == []
    decreases |ms|
  {
    if ms != [] {
      NoQueryNoAnswer(b.Apply(ms[0]), ms[1..]);
    }
  }

  /** A pin is told at most the mode it is in already. */
  lemma {:induction false} HarmlessChangeNothing(h: Host, b: Board, ms: seq<Message>)
    requires b.Valid() && |h.states| == |b.pins| && Coherent(h, b, |b.pins|)
    requires forall k :: 0 <= k < |ms| ==> Harmless(h, ms[k])
    ensures Replay(b, ms) == b && Answers(b, ms) == []
    decreases |ms|
  {
    if ms != [] {
      if ms[0].SetPinMode? {
        SameCodeSameFlag(ms[0].mode, b.modes[ms[0].pin]);
        assert b.modes[ms[0].pin := b.modes[ms[0].pin]] == b.modes;
      }
      HarmlessChangeNothing(h, b, ms[1..]);
    }
  }

  lemma SameCodeSameFlag(code: byte, other: byte)
    requires FlagOf(code) == FlagOf(other) != UNSPECIFIED
    ensures code == other
  {
  }

  lemma RepeatedPinMode(h: Host, pin: nat, mode: nat, junk: seq<PinState>)
    requires h.Valid() && h.info.Some?
    requires pin < |h.states| ==> Decide(h.InfoOf(pin), mode) == Adopt(h.states[pin].mode)
    ensures KeepsModes(h, h.PinModeEffect(pin, mode, junk), true)
  {
  }

  lemma RepeatedAccess(h: Host, pin: nat, amount: nat, high: bool, junk: seq<PinState>)
    requires h.Valid() && h.info.Some?
    ensures (pin < |h.states| ==> h.states[pin].mode == ANALOG_READ) ==>
      KeepsModes(h, h.AnalogReadEffect(pin, junk), true)
    ensures (pin < |h.states| ==> h.states[pin].mode == ANALOG_WRITE) ==>
      KeepsModes(h, h.AnalogWriteEffect(pin, amount), true)
    ensures (pin < |h.states| ==> h.states[pin].mode == DIGITAL_WRITE) ==>
      KeepsModes(h, h.DigitalWriteEffect(pin, high), true)
  {
  }

  /** The call finds its pin in the mode that it would put it in, or touches no mode at all. */
  predicate FindsItsMode(h: Host, call: Call)
    requires h.Valid()
  {
    match call
    case DigitalRead(_) => true
    case AttachInterrupt(_, _) => true
    case DetachInterrupt(_) => true
    case AnalogRead(pin) => pin < |h.states| ==> h.states[pin].mode == ANALOG_READ
    case AnalogWrite(pin, _) => pin < |h.states| ==> h.states[pin].mode == ANALOG_WRITE
    case DigitalWrite(pin, _) => pin < |h.states| ==> h.states[pin].mode == DIGITAL_WRITE
    case PinMode(pin, mode) => pin < |h.states| ==> Decide(h.InfoOf(pin), mode) == Adopt(h.states[pin].mode)
    case _ => false
  }

  /** What a caller may do while a refresh is underway: all calls that leave every pin in its cached mode. */
  lemma UndisturbingCalls(h: Host, call: Call, junk: Junk)
    requires h.CanCall(call) && h.info.Some? && FindsItsMode(h, call)
    ensures Undisturbing(h, call, junk, true)
  {
    if h.Accepts(call) {
      match call {
        case PinMode(pin, mode) => RepeatedPinMode(h, pin, mode, junk.states);
        case AnalogRead(pin) => RepeatedAccess(h, pin, 0, false, junk.states);
        case AnalogWrite(pin, amount) => RepeatedAccess(h, pin, amount, false, []);
        case DigitalWrite(pin, high) => RepeatedAccess(h, pin, 0, high, []);
        case AttachInterrupt(pin, isr) => assert KeepsModes(h, h.AttachEffect(pin, isr, junk.isrs), true);
        case DetachInterrupt(pin) => assert KeepsModes(h, h.DetachEffect(pin), true);
        case DigitalRead(pin) => assert KeepsModes(h, h.DigitalReadEffect(pin), true);
      }
    }
  }

  /** The effect touches only states and interrupt slots, asks nothing and completes nothing. */
  ghost predicate Local(h: Host, e: Effect) {
    && e.host.Valid()
    && e.host == h.(states := e.host.states, isrs := e.host.isrs)
    && e.fired == []
    && forall k :: 0 <= k < |e.sent| ==> !IsQuery(e.sent[k])
  }

  lemma PinModeIsLocal(h: Host, pin: nat, mode: nat, junk: seq<PinState>)
    requires h.Valid()
    ensures Local(h, h.PinModeEffect(pin, mode, junk))
  {
  }

  lemma AnalogReadIsLocal(h: Host, pin: nat, junk: seq<PinState>)
    requires h.Valid()
    ensures Local(h, h.AnalogReadEffect(pin, junk))
  {
  }

  lemma WritesAreLocal(h: Host, pin: nat, amount: nat, high: bool)
    requires h.Valid()
    ensures Local(h, h.AnalogWriteEffect(pin, amount)) && Local(h, h.DigitalWriteEffect(pin, high))
  {
  }

  lemma CallIsLocal(h: Host, call: Call, junk: Junk)
    requires h.CanCall(call) && !call.Survey? && !call.Refresh? && !call.Reset?
    ensures Local(h, h.Invoke(call, junk))
  {
    match call {
      case PinMode(pin, mode) => PinModeIsLocal(h, pin, mode, junk.states);
      case AnalogRead(pin) => AnalogReadIsLocal(h, pin, junk.states);
      case AnalogWrite(pin, amount) => WritesAreLocal(h, pin, amount, false);
      case DigitalWrite(pin, high) => WritesAreLocal(h, pin, 0, high);
      case DigitalRead(_) =>
      case AttachInterrupt(_, _) =>
      case DetachInterrupt(_) =>
    }
  }

  lemma SameModesKeeps(v: View, h: Host)
    requires v.Good() && SameModes(v.host, h)
    ensures v.(host := h).Good()
  {
  }

  lemma SurveyKeeps(v: View, upon: Signal, junk: Junk)
    requires v.Good() && v.history.Settled()
    ensures Keeps(v, CallOn(v, Survey(upon), junk), v.host.Invoke(Survey(upon), junk).sent)
  {
  }

  lemma RefreshKeeps(v: View, upon: Signal, junk: Junk)
    requires v.Good() && v.history.Settled() && v.host.info.Some?
    ensures Keeps(v, CallOn(v, Refresh(upon), junk), v.host.Invoke(Refresh(upon), junk).sent)
  {
    QueriesAnswered(v.board, 0);
  }

  lemma ResetKeeps(v: View, upon: Signal, junk: Junk)
    requires v.Good() && v.history.Settled() && v.host.CanCall(Reset(upon))
    ensures Keeps(v, CallOn(v, Reset(upon), junk), v.host.Invoke(Reset(upon), junk).sent)
  {
    ReplayOne(v.board, SystemReset);
    if v.history.primed {
      ResetAgrees(v.host, v.board, Some(upon));
    }
  }

  lemma SettledCallKeeps(v: View, call: Call, junk: Junk)
    requires v.Good() && v.history.Settled() && v.host.CanCall(call)
    requires !call.Survey? && !call.Refresh? && !call.Reset?
    ensures Keeps(v, CallOn(v, call, junk), v.host.Invoke(call, junk).sent)
  {
    CallIsLocal(v.host, call, junk);
    NoQueryNoAnswer(v.board, v.host.Invoke(call, junk).sent);
    if v.history.primed {
      CallAgrees(v.host, v.board, call, junk);
    }
  }

  lemma UndisturbingCallKeeps(v: View, call: Call, junk: Junk)
    requires v.Good() && v.host.CanCall(call) && Undisturbing(v.host, call, junk, v.history.primed)
    ensures Keeps(v, CallOn(v, call, junk), v.host.Invoke(call, junk).sent)
  {
    var e := v.host.Invoke(call, junk);
    if e.sent == [] {
      ReplayNone(v.board);
    } else {
      assert v.history.primed by { assert Harmless(v.host, e.sent[0]); }
      HarmlessChangeNothing(v.host, v.board, e.sent);
    }
    SameModesKeeps(v, e.host);
    assert CallOn(v, call, junk) == v.(host := e.host);
    if v.history.primed {
      CallAgrees(v.host, v.board, call, junk);
    }
  }

  // ---- Deliveries ----

  /** The reply at the head of the inbound channel is the next one the host waits for. */
  ghost predicate Due(v: View, inbound: Inbound, rest: seq<Reply>) {
    WellFormed(inbound) && v.expected == ReplyOf(inbound) + rest
  }

  lemma ReportsKeepModes(h: Host, command: byte, amount: uint16)
    requires h.Valid()
    ensures SameModes(h, h.AnalogReportEffect(command, amount).host)
    ensures SameModes(h, h.DigitalReportEffect(command, amount).host)
  {
  }

  lemma ReportKeeps(v: View, inbound: Inbound, rest: seq<Reply>, junk: Junk)
    requires v.Good() && Due(v, inbound, rest) && (inbound.AnalogReport? || inbound.DigitalReport?)
    ensures Keeps(v, DeliverOn(v, inbound, rest, junk), v.host.Receive(inbound, junk).sent)
  {
    var e := v.host.Receive(inbound, junk);
    ReplayNone(v.board);
    ReportsKeepModes(v.host, inbound.command, if inbound.AnalogReport? then inbound.sample else inbound.levels);
    SameModesKeeps(v, e.host);
    assert rest == v.expected;
    assert DeliverOn(v, inbound, rest, junk) == v.(host := e.host);
  }

  lemma CapabilityKeeps(v: View, inbound: Inbound, rest: seq<Reply>, junk: Junk)
    requires v.Good() && Due(v, inbound, rest) && inbound.CapabilityResponse?
    ensures v.history.stage.AwaitCapabilities?
    ensures Keeps(v, DeliverOn(v, inbound, rest, junk), v.host.Receive(inbound, junk).sent)
  {
    assert v.expected[0] == Capabilities(inbound.argv);
    ParseOfPrint(v.board.pins);
    ReplayOne(v.board, AnalogMappingQuery);
  }

  lemma MappingKeeps(v: View, inbound: Inbound, rest: seq<Reply>, junk: Junk)
    requires v.Good() && Due(v, inbound, rest) && inbound.AnalogMappingResponse?
    ensures v.history.stage.AwaitMapping? && v.host.CanReceive(inbound)
    ensures Keeps(v, DeliverOn(v, inbound, rest, junk), v.host.Receive(inbound, junk).sent)
  {
    assert v.expected[0] == Mapping(inbound.argv);
    QueriesAnswered(v.board, 0);
    assert DeliverOn(v, inbound, rest, junk).host.info.value == v.board.Known();
  }

  lemma NextState(b: Board, from: nat, reply: Reply, rest: seq<Reply>)
    requires b.Valid() && States(b, from) == [reply] + rest
    ensures from < |b.pins| && reply == State(from, b.modes[from]) && rest == States(b, from + 1)
  {
    assert ([reply] + rest)[1..] == rest;
    assert from < |b.pins|;
    assert ([State(from, b.modes[from])] + States(b, from + 1))[1..] == States(b, from + 1);
  }

  lemma PinStateAnswers(v: View, inbound: Inbound, rest: seq<Reply>, junk: Junk)
    requires v.Good() && Due(v, inbound, rest) && inbound.PinStateResponse?
    ensures v.history.stage.AwaitState? && v.host.CanReceive(inbound)
    ensures inbound.argv[0] == v.history.stage.next && inbound.argv[1] == v.board.modes[inbound.argv[0]]
    ensures var v' := DeliverOn(v, inbound, rest, junk);
      && v'.board == v.board && v'.expected == rest == States(v.board, inbound.argv[0] + 1)
      && SafeTrace(v.board, v.host.Receive(inbound, junk).sent)
  {
    var pin := inbound.argv[0];
    assert v.expected[0] == State(pin, inbound.argv[1]);
    NextState(v.board, v.history.stage.next, v.expected[0], rest);
    ReactionIsHarmless(v.board, v.host.report, pin);
  }

  /** The reply is for the next pin, whose mode is then cached and reported on as it should. */
  lemma PinStateKeeps(v: View, inbound: Inbound, rest: seq<Reply>, junk: Junk)
    requires v.Good() && Due(v, inbound, rest) && inbound.PinStateResponse?
    ensures v.history.stage.AwaitState? && v.host.CanReceive(inbound)
    ensures Keeps(v, DeliverOn(v, inbound, rest, junk), v.host.Receive(inbound, junk).sent)
    ensures var pin, v' := v.history.stage.next, DeliverOn(v, inbound, rest, junk);
      && pin < |v'.host.states| && pin < |v.board.modes|
      && Shows(v.host.report, v.board.modes[pin], v'.host.states[pin].mode)
      && Tells(v.host.report, pin, v.board.modes[pin], v.host.Receive(inbound, junk).sent)
  {
    PinStateAnswers(v, inbound, rest, junk);
    TranslateShows(v.host.report, inbound.argv[0], inbound.argv[1]);
  }
}
