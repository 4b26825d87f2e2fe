/**
 The host and a board joined by two FIFO channels: every interleaving of API calls, deliveries to
 either side and spontaneous reports. The caller's only discipline is not to start a conversation or
 change a mode while a survey or refresh has not called back yet.
 */
module Telemorph {
  import opened Basics
  import opened WiringPin
  import opened Messages
  import opened Capability
  import opened Host
  import opened Board
  import opened Coherence

  datatype Stage = Idle | AwaitCapabilities | AwaitMapping | AwaitState(next: nat)

  /**
   `started` are the callbacks handed to survey, refresh and reset, `fired` the callbacks made. The
   rest only the proof looks at: `stage` is how far the conversation has got, `reporting` is
   `_report_on_query` as it was when the conversation began, and `primed` says that every state slot
   has been written since the slots were allocated.
   */
  datatype History = History(started: seq<Signal>, fired: seq<Signal>, stage: Stage, reporting: bool, primed: bool)
  {
    /** Every conversation begun has called back. */
    predicate Settled() {
      fired == started
    }

    predicate Underway() {
      |started| == |fired| + 1 && started[..|fired|] == fired
    }

    function Upon(): Signal
      requires Underway()
    {
      started[|fired|]
    }
  }

  /** `log` is all the host ever sent; the board has processed all of it but `outbound`. */
  datatype System = System(
    host: Host,
    board: Board,
    outbound: seq<Message>,
    inbound: seq<Inbound>,
    log: seq<Message>,
    history: History)

  function ReplyOf(inbound: Inbound): seq<Reply> {
    match inbound
    case CapabilityResponse(argv) => [Capabilities(argv)]
    case AnalogMappingResponse(argv) => [Mapping(argv)]
    case PinStateResponse(argv) => if |argv| >= 3 then [State(argv[0], argv[1])] else []
    case _ => []
  }

  function Replies(inbound: seq<Inbound>): seq<Reply> {
    if inbound == [] then [] else ReplyOf(inbound[0]) + Replies(inbound[1..])
  }

  /** The payload of an answer, given the bytes of the current value of the pin. */
  function Payload(reply: Reply, amount: seq<byte>): Inbound {
    match reply
    case Capabilities(argv) => CapabilityResponse(argv)
    case Mapping(argv) => AnalogMappingResponse(argv)
    case State(pin, mode) => PinStateResponse([if pin < 0x100 then pin else 0xFF, mode] + amount)
  }

  // ---- Steps ----

  datatype Event =
    | Api(call: Call, junk: Junk)
    | Deliver(junk: Junk)
    | Process(amount: seq<byte>)
    | Sample(report: Inbound)

  /** The hosts differ at most in cached values and interrupt slots. */
  predicate SameModes(h: Host, h': Host) {
    && h' == h.(states := h'.states, isrs := h'.isrs)
    && |h'.states| == |h.states|
    && forall p :: 0 <= p < |h.states| ==> h'.states[p].mode == h.states[p].mode
  }

  /** A value, a report switch, or a pin mode that is the cached one. */
  predicate Harmless(h: Host, m: Message) {
    match m
    case DigitalValue(_, _) => true
    case AnalogValue(_, _) => true
    case ReportAnalog(_, _) => true
    case ReportDigital(_, _) => true
    case SetPinMode(pin, code) =>
      pin < |h.states| && FlagOf(code) != UNSPECIFIED && FlagOf(code) == h.states[pin].mode
    case _ => false
  }

  /** The call changes no cached mode and sends nothing or, while the cache is `primed`, only harmless messages. */
  predicate KeepsModes(h: Host, e: Effect, primed: bool) {
    && SameModes(h, e.host)
    && e.fired == []
    && (forall k :: 0 <= k < |e.sent| ==> primed && Harmless(h, e.sent[k]))
  }

  predicate Enabled(s: System, event: Event) {
    match event
    case Api(call, junk) =>
      && s.host.CanCall(call)
      && (call.Refresh? ==> s.host.info.Some?)
      && (s.history.Settled() || Undisturbing(s.host, call, junk, s.history.primed))
    case Deliver(_) => s.inbound != [] && s.host.CanReceive(s.inbound[0])
    case Process(amount) => s.outbound != [] && amount != []
    case Sample(report) => report.AnalogReport? || report.DigitalReport?
  }

  /** A call that may be made while a conversation is underway. */
  predicate Undisturbing(h: Host, call: Call, junk: Junk, primed: bool)
    requires h.CanCall(call)
  {
    !call.Survey? && !call.Refresh? && !call.Reset? && KeepsModes(h, h.Invoke(call, junk), primed)
  }

  function Step(s: System, event: Event): (t: System)
    requires s.board.Valid() && Enabled(s, event)
    ensures t.board.Valid() && s.board.SameHardware(t.board)
  {
    match event
    case Api(call, junk) =>
      var e := s.host.Invoke(call, junk);
      s.(host := e.host, outbound := s.outbound + e.sent, log := s.log + e.sent,
         history := AfterCall(s.history, s.host, call, e))
    case Deliver(junk) =>
      var e := s.host.Receive(s.inbound[0], junk);
      s.(host := e.host, outbound := s.outbound + e.sent, log := s.log + e.sent, inbound := s.inbound[1..],
         history := AfterDelivery(s.history, s.inbound[0], e))
    case Process(amount) =>
      var m := s.outbound[0];
      var answer := s.board.Answer(m);
      s.(board := s.board.Apply(m), outbound := s.outbound[1..],
         inbound := if answer == [] then s.inbound else s.inbound + [Payload(answer[0], amount)])
    case Sample(report) => s.(inbound := s.inbound + [report])
  }

  function AfterCall(h: History, host: Host, call: Call, e: Effect): History {
    var h' := h.(fired := h.fired + e.fired);
    match call
    case Survey(upon) => h'.(started := h.started + [upon], stage := AwaitCapabilities, reporting := host.report)
    case Refresh(upon) => h'.(started := h.started + [upon], stage := AwaitState(0), reporting := host.report)
    case Reset(upon) => h'.(started := h.started + [upon])
    case _ => h'
  }

  function AfterDelivery(h: History, inbound: Inbound, e: Effect): History {
    var h' := h.(fired := h.fired + e.fired);
    match inbound
    case CapabilityResponse(_) => h'.(stage := AwaitMapping, primed := false)
    case AnalogMappingResponse(_) => h'.(stage := AwaitState(0))
    case PinStateResponse(_) =>
      if e.fired != [] then h'.(stage := Idle, primed := true)
      else if h.stage.AwaitState? then h'.(stage := AwaitState(h.stage.next + 1))
      else h'
    case _ => h'
  }

  predicate Legal(s: System, events: seq<Event>)
    requires s.board.Valid()
    decreases |events|
  {
    events == [] || (Enabled(s, events[0]) && Legal(Step(s, events[0]), events[1..]))
  }

  function Run(s: System, events: seq<Event>): (t: System)
    requires s.board.Valid() && Legal(s, events)
    ensures t.board.Valid() && s.board.SameHardware(t.board)
    decreases |events|
  {
    if events == [] then s else Run(Step(s, events[0]), events[1..])
  }

  function Begin(jit: bool, board: Board): System {
    System(Initial(jit), board, [], [], [], History([], [], Idle, !jit, false))
  }

  // ---- What the host may count on ----

  /**
   The system with its channels run dry: `board` has processed everything sent to it and `expected`
   are the replies it thereby owes the host, those already on their way first.
   */
  datatype View = View(host: Host, board: Board, expected: seq<Reply>, history: History)
  {
    /** The replies to come are exactly what the stage waits for, and the callback is in place. */
    ghost predicate OnStage()
      requires board.Valid()
    {
      var h := history;
      match h.stage
      case Idle =>
        h.Settled() && expected == [] && !host.locked && (host.info.Some? ==> h.primed)
      case AwaitCapabilities =>
        && h.Underway() && host.survey == Some(h.Upon()) && !host.locked && (host.info.Some? ==> h.primed)
        && expected == [Capabilities(PrintPins(board.pins))]
      case AwaitMapping =>
        && h.Underway() && host.survey == Some(h.Upon()) && !host.locked && !h.primed
        && expected == [Mapping(board.mapping)]
        && host.info == Some(DescribeAll(board.pins)) && |host.states| == |board.pins|
      case AwaitState(next) =>
        && h.Underway() && host.refresh == Some(h.Upon()) && host.locked
        && next < |board.pins| && expected == States(board, next)
        && Surveyed(host, board) && Answered(next)
    }

    /** Pins below `next` are cached in the translation of the mode they are in. */
    predicate Answered(next: nat) {
      forall p :: 0 <= p < next && p < |host.states| && p < |board.modes| ==>
        host.states[p].mode == Translate(history.reporting, board.modes[p])
    }

    ghost predicate Good() {
      && board.Valid()
      && host.Valid()
      && OnStage()
      && (!history.stage.Idle? ==> host.report == history.reporting)
      && (history.primed ==> Surveyed(host, board) && Coherent(host, board, |board.pins|))
    }
  }

  function ViewOf(s: System): View
    requires s.board.Valid()
  {
    View(s.host, Replay(s.board, s.outbound), Replies(s.inbound) + Answers(s.board, s.outbound), s.history)
  }

  predicate WellFormed(inbound: Inbound) {
    inbound.PinStateResponse? ==> |inbound.argv| >= 3
  }

  /** The invariant of every run. */
  ghost predicate Inv(s: System) {
    && s.board.Valid()
    && (forall k :: 0 <= k < |s.inbound| ==> WellFormed(s.inbound[k]))
    && ViewOf(s).Good()
  }

  // ---- The channels are invisible ----

  lemma {:induction false} RepliesConcat(xs: seq<Inbound>, ys: seq<Inbound>)
    ensures Replies(xs + ys) == Replies(xs) + Replies(ys)
  {
    if xs == [] {
      assert xs + ys == ys;
    } else {
      RepliesConcat(xs[1..], ys);
      assert (xs + ys)[1..] == xs[1..] + ys;
    }
  }

  lemma RepliesSnoc(xs: seq<Inbound>, y: Inbound)
    ensures Replies(xs + [y]) == Replies(xs) + ReplyOf(y)
  {
    RepliesConcat(xs, [y]);
    assert [y][1..] == [];
  }

  lemma SendingIsFelt(s: System, sent: seq<Message>)
    requires s.board.Valid()
    ensures Replay(s.board, s.outbound + sent) == Replay(ViewOf(s).board, sent)
    ensures Replies(s.inbound) + Answers(s.board, s.outbound + sent)
         == ViewOf(s).expected + Answers(ViewOf(s).board, sent)
  {
    ReplayConcat(s.board, s.outbound, sent);
    ConcatAssociative(Replies(s.inbound), Answers(s.board, s.outbound), Answers(ViewOf(s).board, sent));
  }

  /** A board step moves one answer from the future to the inbound channel and changes nothing else. */
  lemma ProcessIsInvisible(s: System, amount: seq<byte>)
    requires s.board.Valid() && Enabled(s, Process(amount))
    ensures ViewOf(Step(s, Process(amount))) == ViewOf(s)
  {
    var m := s.outbound[0];
    var answer := s.board.Answer(m);
    if answer != [] {
      assert answer == [answer[0]];
      RepliesSnoc(s.inbound, Payload(answer[0], amount));
      assert ReplyOf(Payload(answer[0], amount)) == answer;
      ConcatAssociative(Replies(s.inbound), answer, Answers(s.board.Apply(m), s.outbound[1..]));
    }
  }

  lemma SampleIsInvisible(s: System, report: Inbound)
    requires s.board.Valid() && Enabled(s, Sample(report))
    ensures ViewOf(Step(s, Sample(report))) == ViewOf(s)
  {
    RepliesSnoc(s.inbound, report);
  }
}
