/** Theorems about whole runs of the host and a board. */
module Runs {
  import opened Basics
  import opened WiringPin
  import opened Messages
  import opened Capability
  import opened Host
  import opened Board
  import opened Coherence
  import opened Telemorph
  import opened Conversation
  import opened Operations

  // ---- One step, then every run ----

  function Output(s: System, event: Event): seq<Message>
    requires s.board.Valid() && Enabled(s, event)
  {
    match event
    case Api(call, junk) => s.host.Invoke(call, junk).sent
    case Deliver(junk) => s.host.Receive(s.inbound[0], junk).sent
    case _ => []
  }

  /** One step from `s` to `t` that sent `out`: still good, and the board follows what was sent. */
  ghost predicate Advances(s: System, t: System, out: seq<Message>)
    requires s.board.Valid()
  {
    && Inv(t)
    && Keeps(ViewOf(s), ViewOf(t), out)
    && ViewOf(t).board == Replay(ViewOf(s).board, out)
    && t.log == s.log + out
  }

  lemma CallStep(s: System, call: Call, junk: Junk)
    requires Inv(s) && Enabled(s, Api(call, junk))
    ensures ViewOf(Step(s, Api(call, junk))) == CallOn(ViewOf(s), call, junk)
    ensures Advances(s, Step(s, Api(call, junk)), s.host.Invoke(call, junk).sent)
  {
    SendingIsFelt(s, s.host.Invoke(call, junk).sent);
    var v := ViewOf(s);
    if !s.history.Settled() {
      UndisturbingCallKeeps(v, call, junk);
    } else {
      match call {
        case Survey(upon) => SurveyKeeps(v, upon, junk);
        case Refresh(upon) => RefreshKeeps(v, upon, junk);
        case Reset(upon) => ResetKeeps(v, upon, junk);
        case _ => SettledCallKeeps(v, call, junk);
      }
    }
  }

  /** Whatever is next in the inbound channel is due, and the host can take it within its caches. */
  lemma DeliveryIsDue(s: System)
    requires Inv(s) && s.inbound != []
    ensures s.host.CanReceive(s.inbound[0])
    ensures Due(ViewOf(s), s.inbound[0], Replies(s.inbound[1..]) + Answers(s.board, s.outbound))
  {
    var v, rest := ViewOf(s), Replies(s.inbound[1..]) + Answers(s.board, s.outbound);
    ConcatAssociative(ReplyOf(s.inbound[0]), Replies(s.inbound[1..]), Answers(s.board, s.outbound));
    var junk := Junk([], []);
    match s.inbound[0] {
      case AnalogMappingResponse(_) => MappingKeeps(v, s.inbound[0], rest, junk);
      case PinStateResponse(_) => PinStateKeeps(v, s.inbound[0], rest, junk);
      case _ =>
    }
  }

  lemma DeliverStep(s: System, junk: Junk)
    requires Inv(s) && Enabled(s, Deliver(junk))
    ensures Advances(s, Step(s, Deliver(junk)), s.host.Receive(s.inbound[0], junk).sent)
  {
    var v, rest := ViewOf(s), Replies(s.inbound[1..]) + Answers(s.board, s.outbound);
    SendingIsFelt(s.(inbound := s.inbound[1..]), s.host.Receive(s.inbound[0], junk).sent);
    DeliveryIsDue(s);
    assert ViewOf(Step(s, Deliver(junk))) == DeliverOn(v, s.inbound[0], rest, junk);
    match s.inbound[0] {
      case CapabilityResponse(_) => CapabilityKeeps(v, s.inbound[0], rest, junk);
      case AnalogMappingResponse(_) => MappingKeeps(v, s.inbound[0], rest, junk);
      case PinStateResponse(_) => PinStateKeeps(v, s.inbound[0], rest, junk);
      case AnalogReport(_, _) => ReportKeeps(v, s.inbound[0], rest, junk);
      case DigitalReport(_, _) => ReportKeeps(v, s.inbound[0], rest, junk);
    }
  }

  lemma ChannelStep(s: System, event: Event)
    requires Inv(s) && Enabled(s, event) && (event.Process? || event.Sample?)
    ensures Advances(s, Step(s, event), [])
  {
    if event.Process? {
      ProcessIsInvisible(s, event.amount);
    } else {
      SampleIsInvisible(s, event.report);
    }
    ReplayNone(ViewOf(s).board);
    assert s.log + [] == s.log;
  }

  /** Every step of every interleaving keeps the invariant, and the board follows what was sent. */
  lemma StepKeeps(s: System, event: Event)
    requires Inv(s) && Enabled(s, event)
    ensures Advances(s, Step(s, event), Output(s, event))
  {
    match event {
      case Api(call, junk) => CallStep(s, call, junk);
      case Deliver(junk) => DeliverStep(s, junk);
      case _ => ChannelStep(s, event);
    }
  }

  lemma InitiallyInv(jit: bool, board: Board)
    requires board.Valid()
    ensures Inv(Begin(jit, board))
  {
  }

  /** The board of `w` is where the messages sent since `v` take it, and they were careful. */
  ghost predicate Follows(v: View, w: View, before: seq<Message>, log: seq<Message>)
    requires v.board.Valid() && w.board.Valid()
  {
    && before <= log
    && w.board == Replay(v.board, log[|before|..])
    && Careful(v, w, log[|before|..])
  }

  /** `t` is good and the board got there by what was sent since `s`. */
  ghost predicate Reaches(s: System, t: System)
    requires s.board.Valid()
  {
    Inv(t) && Follows(ViewOf(s), ViewOf(t), s.log, t.log)
  }

  lemma StepReaches(s: System, event: Event)
    requires Inv(s) && Enabled(s, event)
    ensures Reaches(s, Step(s, event))
  {
    StepKeeps(s, event);
    assert Step(s, event).log[|s.log|..] == Output(s, event);
  }

  lemma FollowsTransitive(u: View, v: View, w: View, xs: seq<Message>, ys: seq<Message>, zs: seq<Message>)
    requires u.board.Valid() && v.board.Valid() && w.board.Valid()
    requires Follows(u, v, xs, ys) && Follows(v, w, ys, zs)
    ensures Follows(u, w, xs, zs)
  {
    ReplayConcat(u.board, ys[|xs|..], zs[|ys|..]);
    assert zs[|xs|..] == ys[|xs|..] + zs[|ys|..];
  }

  /**
   Every run keeps the invariant; the board ends up where the messages of the run take it; once the
   board has been surveyed those messages send values only to pins in the mode for them.
   */
  lemma {:induction false} RunKeeps(s: System, events: seq<Event>)
    requires Inv(s) && Legal(s, events)
    ensures Reaches(s, Run(s, events))
    decreases |events|
  {
    if events == [] {
      ReplayNone(ViewOf(s).board);
    } else {
      StepReaches(s, events[0]);
      RunKeeps(Step(s, events[0]), events[1..]);
      var m, t := Step(s, events[0]), Run(s, events);
      FollowsTransitive(ViewOf(s), ViewOf(m), ViewOf(t), s.log, m.log, t.log);
    }
  }

  // ---- Coherence of the cache with the log ----

  /**
   In every run from power-up, once a survey has completed, each pin is cached as unspecified or as
   the very mode to which replaying the whole outbound log takes it, whatever else was in flight.
   */
  lemma CacheAgreesWithLog(jit: bool, board: Board, events: seq<Event>, pin: nat)
    requires board.Valid() && Legal(Begin(jit, board), events)
    requires Run(Begin(jit, board), events).history.primed && pin < |board.pins|
    ensures var t := Run(Begin(jit, board), events);
      && |t.host.states| == |board.pins|
      && (|| t.host.states[pin].mode == UNSPECIFIED
          || (IsMode(t.host.states[pin].mode) && CodeOf(t.host.states[pin].mode) == Replay(board, t.log).modes[pin]))
  {
    InitiallyInv(jit, board);
    RunKeeps(Begin(jit, board), events);
    var t := Run(Begin(jit, board), events);
    assert t.log[|Begin(jit, board).log|..] == t.log;
  }

  /** A settled, surveyed system is primed: between conversations the previous theorem always applies. */
  lemma SettledIsPrimed(s: System)
    requires Inv(s) && s.history.Settled() && s.host.info.Some?
    ensures s.history.primed && !s.host.locked && ViewOf(s).expected == []
  {
  }

  /** From message `from` on, every value goes to a pin that the messages before it put in the mode for it. */
  ghost predicate ValuesFit(b: Board, log: seq<Message>, from: nat)
    requires b.Valid()
  {
    forall k :: from <= k < |log| ==> Replay(b, log[..k]).Fits(log[k])
  }

  /**
   After a survey, along every run, each digital value goes to a pin the log has put in OUTPUT mode and
   each analog value to one it has put in PWM mode.
   */
  lemma ValuesFitTheirPins(jit: bool, board: Board, events: seq<Event>, later: seq<Event>)
    requires board.Valid() && Legal(Begin(jit, board), events)
    requires Run(Begin(jit, board), events).host.info.Some?
    requires Legal(Run(Begin(jit, board), events), later)
    ensures var s := Run(Begin(jit, board), events);
      var t := Run(s, later);
      s.log <= t.log && ValuesFit(board, t.log, |s.log|)
  {
    var s0 := Begin(jit, board);
    var s := Run(s0, events);
    InitiallyInv(jit, board);
    RunKeeps(s0, events);
    RunKeeps(s, later);
    assert s.log[|s0.log|..] == s.log;
    SafeSuffix(board, s.log, Run(s, later).log);
  }

  lemma SafeSuffix(b: Board, xs: seq<Message>, zs: seq<Message>)
    requires b.Valid() && xs <= zs && SafeTrace(Replay(b, xs), zs[|xs|..])
    ensures ValuesFit(b, zs, |xs|)
  {
    forall k | |xs| <= k < |zs|
      ensures Replay(b, zs[..k]).Fits(zs[k])
    {
      SafeTraceAt(Replay(b, xs), zs[|xs|..], k - |xs|);
      ReplayConcat(b, xs, zs[|xs|..k]);
      assert zs[|xs|..][..k - |xs|] == zs[|xs|..k];
      assert zs[..k] == xs + zs[|xs|..k];
    }
  }

  lemma {:induction false} SafeTraceAt(b: Board, ms: seq<Message>, k: nat)
    requires b.Valid() && SafeTrace(b, ms) && k < |ms|
    ensures Replay(b, ms[..k]).Fits(ms[k])
    decreases |ms|
  {
    if k > 0 {
      SafeTraceAt(b.Apply(ms[0]), ms[1..], k - 1);
      assert ms[..k][1..] == ms[1..][..k - 1];
    }
  }

  /**
   If at some moment after a survey the board has only modes it announces, then in every later run
   each cached mode is unspecified or one the info of its pin supports, while the slots are written.
   */
  lemma CacheStaysWithinCapabilities(s: System, events: seq<Event>)
    requires Inv(s) && s.host.info.Some? && ViewOf(s).board.ReportsSupported() && Legal(s, events)
    requires Run(s, events).history.primed
    ensures WithinCapabilities(Run(s, events).host)
  {
    RunKeeps(s, events);
    var v := ViewOf(Run(s, events));
    CoherentWithinCapabilities(v.host, v.board);
  }

  // ---- Conversations ----

  /** In every run the callbacks made are those handed in, each once, in order, all but a last one under way. */
  lemma CallbacksFireOnce(jit: bool, board: Board, events: seq<Event>)
    requires board.Valid() && Legal(Begin(jit, board), events)
    ensures var h := Run(Begin(jit, board), events).history;
      && h.fired <= h.started && |h.started| <= |h.fired| + 1
      && (h.fired == h.started <==> ViewOf(Run(Begin(jit, board), events)).expected == [])
  {
    InitiallyInv(jit, board);
    RunKeeps(Begin(jit, board), events);
  }

  /** No conversation calls back along the run. */
  predicate Waiting(s: System, events: seq<Event>)
    requires s.board.Valid() && Legal(s, events)
    decreases |events|
  {
    !s.history.Settled() && (events == [] || Waiting(Step(s, events[0]), events[1..]))
  }

  /** How many pins the conversation underway, or the last one, has heard of. */
  function Heard(s: System): nat {
    match s.history.stage
    case AwaitState(next) => next
    case Idle => |s.board.pins|
    case _ => 0
  }

  /** `sent` holds the reaction to the mode of each of the first `heard` pins. */
  ghost predicate Reacted(b: Board, report: bool, sent: seq<Message>, heard: nat)
    requires b.Valid()
  {
    forall p, m :: 0 <= p < heard && p < |b.pins| && m in Reaction(report, p, b.modes[p]) ==> m in sent
  }

  /** The conversation `s` began for `upon` has changed no pin, not called back, and reacted to the pins heard of. */
  ghost predicate UnderwaySince(s: System, m: System, upon: Signal)
    requires s.board.Valid()
  {
    && Inv(m) && s.log <= m.log
    && ViewOf(m).board == ViewOf(s).board
    && m.history.started == s.history.started + [upon] && m.history.fired == s.history.fired
    && m.history.reporting == s.host.report
    && Reacted(ViewOf(s).board, s.host.report, m.log[|s.log|..], Heard(m))
  }

  /**
   Between `s` and `t` the conversation of `upon` ran from its call to its callback: it is the first since,
   no pin of the board has changed, and the cache holds the parsed capabilities and the mapping, and shows
   the mode of every pin. The board has been told what follows for each pin, reporting upon query has ended
   and the refresh lock is free.
   */
  ghost predicate Concluded(s: System, t: System, upon: Signal)
    requires s.board.Valid() && t.board.Valid()
  {
    var b := ViewOf(s).board;
    && ViewOf(t).board == b
    && t.history.fired == s.history.fired + [upon]
    && t.host.info == Some(b.Known()) && |t.host.states| == |b.pins|
    && (forall p :: 0 <= p < |b.pins| ==> Shows(s.host.report, b.modes[p], t.host.states[p].mode))
    && s.log <= t.log
    && (forall p :: 0 <= p < |b.pins| ==> IsTold(s.host.report, p, b.modes[p], t.log[|s.log|..]))
    && !t.host.report && !t.host.locked
  }

  /** Reports of an analog pin are switched, an input is claimed or its port's reports turned off. */
  predicate IsTold(report: bool, pin: nat, code: byte, sent: seq<Message>) {
    && (code == PIN_MODE_ANALOG ==> ReportAnalog(pin, report) in sent)
    && (code == PIN_MODE_INPUT || code == PIN_MODE_PULLUP ==>
          (if report then SetPinMode(pin, code) else ReportDigital(pin / 8, false)) in sent)
  }

  lemma ReactedIsTold(b: Board, report: bool, pin: nat, sent: seq<Message>)
    requires b.Valid() && pin < |b.pins| && Reacted(b, report, sent, |b.pins|)
    ensures Shows(report, b.modes[pin], Translate(report, b.modes[pin])) && IsTold(report, pin, b.modes[pin], sent)
  {
    TranslateShows(report, pin, b.modes[pin]);
    var reaction := Reaction(report, pin, b.modes[pin]);
    if reaction != [] {
      assert reaction[0] in reaction;
    }
  }

  lemma ConversationOpens(s: System, call: Call, junk: Junk)
    requires Inv(s) && s.history.Settled() && (call.Survey? || call.Refresh?) && Enabled(s, Api(call, junk))
    ensures UnderwaySince(s, Step(s, Api(call, junk)), call.upon)
  {
    CallStep(s, call, junk);
    ReplayOne(ViewOf(s).board, CapabilityQuery);
    if call.Refresh? {
      QueriesAnswered(ViewOf(s).board, 0);
    }
  }

  /** Hearing of one more pin and reacting to it. */
  lemma ReactedOnce(b: Board, report: bool, sent: seq<Message>, out: seq<Message>, heard: nat, heard': nat)
    requires b.Valid() && Reacted(b, report, sent, heard)
    requires
      || heard' <= heard
      || (heard < |b.pins| && heard' == heard + 1 && out == Reaction(report, heard, b.modes[heard]))
    ensures Reacted(b, report, sent + out, heard')
  {
  }

  /** A step either hears of no further pin, or of the next one, and then sends the reaction to its mode. */
  lemma StepHears(m: System, event: Event)
    requires Inv(m) && !m.history.Settled() && Enabled(m, event)
    ensures var t, b, heard := Step(m, event), ViewOf(m).board, Heard(m);
      || Heard(t) <= heard
      || (heard < |b.pins| && Heard(t) == heard + 1
          && Output(m, event) == Reaction(m.history.reporting, heard, b.modes[heard]))
  {
    if event.Deliver? && m.inbound[0].PinStateResponse? {
      DeliveryIsDue(m);
      PinStateAnswers(ViewOf(m), m.inbound[0], Replies(m.inbound[1..]) + Answers(m.board, m.outbound), event.junk);
    }
  }

  /** The step that calls back: the callback is the one under way, and the cache is complete. */
  lemma ConversationCloses(m: System, last: Event)
    requires Inv(m) && !m.history.Settled() && Enabled(m, last) && Step(m, last).history.Settled()
    ensures var t, b := Step(m, last), ViewOf(m).board;
      && ViewOf(t).board == b && t.history.fired == m.history.started && Heard(t) == |b.pins|
      && t.host.info == Some(b.Known()) && |t.host.states| == |b.pins| && !t.host.report && !t.host.locked
      && forall p :: 0 <= p < |b.pins| ==> t.host.states[p].mode == Translate(m.history.reporting, b.modes[p])
  {
    StepKeeps(m, last);
    assert Complete(ViewOf(Step(m, last)));
  }

  lemma StepAppends(m: System, event: Event)
    requires m.board.Valid() && Enabled(m, event)
    ensures Step(m, event).log == m.log + Output(m, event)
  {
  }

  lemma StepReacts(s: System, m: System, event: Event, upon: Signal)
    requires s.board.Valid() && UnderwaySince(s, m, upon) && !m.history.Settled() && Enabled(m, event)
    ensures var t := Step(m, event);
      && s.log <= t.log && Reacted(ViewOf(s).board, s.host.report, t.log[|s.log|..], Heard(t))
  {
    var t := Step(m, event);
    StepHears(m, event);
    StepAppends(m, event);
    ReactedOnce(ViewOf(s).board, s.host.report, m.log[|s.log|..], Output(m, event), Heard(m), Heard(t));
    assert t.log[|s.log|..] == m.log[|s.log|..] + Output(m, event);
  }

  lemma StepStaysUnderway(s: System, m: System, event: Event, upon: Signal)
    requires s.board.Valid() && UnderwaySince(s, m, upon) && !m.history.Settled() && Enabled(m, event)
    ensures var t := Step(m, event);
      if t.history.Settled() then Concluded(s, t, upon) else UnderwaySince(s, t, upon)
  {
    StepReacts(s, m, event, upon);
    var t := Step(m, event);
    if t.history.Settled() {
      ConversationCloses(m, event);
      forall p | 0 <= p < |ViewOf(s).board.pins|
        ensures Shows(s.host.report, ViewOf(s).board.modes[p], t.host.states[p].mode)
        ensures IsTold(s.host.report, p, ViewOf(s).board.modes[p], t.log[|s.log|..])
      {
        ReactedIsTold(ViewOf(s).board, s.host.report, p, t.log[|s.log|..]);
      }
    } else {
      StepKeeps(m, event);
    }
  }

  lemma {:induction false} WaitingStaysUnderway(s: System, m: System, events: seq<Event>, upon: Signal)
    requires s.board.Valid() && UnderwaySince(s, m, upon) && Legal(m, events) && Waiting(m, events)
    ensures UnderwaySince(s, Run(m, events), upon)
    decreases |events|
  {
    if events != [] {
      StepStaysUnderway(s, m, events[0], upon);
      WaitingStaysUnderway(s, Step(m, events[0]), events[1..], upon);
    }
  }

  lemma {:induction false} WaitingIsUnsettled(s: System, events: seq<Event>)
    requires s.board.Valid() && Legal(s, events) && Waiting(s, events)
    ensures !Run(s, events).history.Settled()
    decreases |events|
  {
    if events != [] {
      WaitingIsUnsettled(Step(s, events[0]), events[1..]);
    }
  }

  /**
   A survey or refresh started by a settled host, followed by any run up to the step that calls back, has
   not called back before that step and is concluded by it.
   */
  lemma ConversationCompletes(s: System, call: Call, junk: Junk, events: seq<Event>, last: Event)
    requires Inv(s) && s.history.Settled() && (call.Survey? || call.Refresh?) && Enabled(s, Api(call, junk))
    requires var s1 := Step(s, Api(call, junk));
      Legal(s1, events) && Waiting(s1, events) && Enabled(Run(s1, events), last)
    requires Step(Run(Step(s, Api(call, junk)), events), last).history.Settled()
    ensures var m := Run(Step(s, Api(call, junk)), events);
      m.history.fired == s.history.fired && Concluded(s, Step(m, last), call.upon)
  {
    var s1 := Step(s, Api(call, junk));
    ConversationOpens(s, call, junk);
    WaitingStaysUnderway(s, s1, events, call.upon);
    WaitingIsUnsettled(s1, events);
    StepStaysUnderway(s, Run(s1, events), last, call.upon);
  }

  /**
   The first survey of a device that is not just-in-time: when it calls back, every pin in a mode the host
   knows is cached as exactly that mode, and every other pin as unspecified.
   */
  lemma FirstSurveyMirrorsBoard(board: Board, upon: Signal, junk: Junk, events: seq<Event>, last: Event)
    requires board.Valid() && Enabled(Begin(false, board), Api(Survey(upon), junk))
    requires var s1 := Step(Begin(false, board), Api(Survey(upon), junk));
      Legal(s1, events) && Waiting(s1, events) && Enabled(Run(s1, events), last)
    requires Step(Run(Step(Begin(false, board), Api(Survey(upon), junk)), events), last).history.Settled()
    ensures var t := Step(Run(Step(Begin(false, board), Api(Survey(upon), junk)), events), last);
      && t.history.fired == [upon] && |t.host.states| == |board.modes|
      && forall p :: 0 <= p < |board.modes| ==>
           var flag := t.host.states[p].mode;
           if board.modes[p] in {PIN_MODE_INPUT, PIN_MODE_OUTPUT, PIN_MODE_ANALOG, PIN_MODE_PWM, PIN_MODE_PULLUP}
           then IsMode(flag) && CodeOf(flag) == board.modes[p]
           else flag == UNSPECIFIED
  {
    InitiallyInv(false, board);
    ConversationCompletes(Begin(false, board), Survey(upon), junk, events, last);
  }

  // ---- Termination of conversations ----

  /** The deliveries that a message from the host can still cause on a board of `n` pins, itself included. */
  function MessageWork(m: Message, n: nat): nat {
    match m
    case CapabilityQuery => 3 * n + 4
    case AnalogMappingQuery => 3 * n + 2
    case PinStateQuery(_) => 3
    case _ => 1
  }

  function InboundWork(inbound: Inbound, n: nat): nat {
    match inbound
    case CapabilityResponse(_) => 3 * n + 3
    case AnalogMappingResponse(_) => 3 * n + 1
    case PinStateResponse(_) => 2
    case _ => 1
  }

  function OutboundTotal(ms: seq<Message>, n: nat): nat {
    if ms == [] then 0 else MessageWork(ms[0], n) + OutboundTotal(ms[1..], n)
  }

  function InboundTotal(xs: seq<Inbound>, n: nat): nat {
    if xs == [] then 0 else InboundWork(xs[0], n) + InboundTotal(xs[1..], n)
  }

  function Work(s: System): nat {
    OutboundTotal(s.outbound, |s.board.pins|) + InboundTotal(s.inbound, |s.board.pins|)
  }

  lemma {:induction false} OutboundTotalConcat(xs: seq<Message>, ys: seq<Message>, n: nat)
    ensures OutboundTotal(xs + ys, n) == OutboundTotal(xs, n) + OutboundTotal(ys, n)
  {
    if xs == [] {
      assert xs + ys == ys;
    } else {
      OutboundTotalConcat(xs[1..], ys, n);
      assert (xs + ys)[1..] == xs[1..] + ys;
    }
  }

  lemma {:induction false} InboundTotalConcat(xs: seq<Inbound>, ys: seq<Inbound>, n: nat)
    ensures InboundTotal(xs + ys, n) == InboundTotal(xs, n) + InboundTotal(ys, n)
  {
    if xs == [] {
      assert xs + ys == ys;
    } else {
      InboundTotalConcat(xs[1..], ys, n);
      assert (xs + ys)[1..] == xs[1..] + ys;
    }
  }

  lemma {:induction false} QueriesTotal(from: nat, end: nat, n: nat)
    requires from <= end
    ensures OutboundTotal(Queries(from, end), n) == 3 * (end - from)
    decreases end - from
  {
    if from < end {
      QueriesTotal(from + 1, end, n);
      assert Queries(from, end)[1..] == Queries(from + 1, end);
    }
  }

  lemma MappingIsFollowedByQueries(s: System, junk: Junk)
    requires Inv(s) && Enabled(s, Deliver(junk)) && s.inbound[0].AnalogMappingResponse?
    ensures s.host.Receive(s.inbound[0], junk).sent == Queries(0, |s.board.pins|)
  {
    DeliveryIsDue(s);
    MappingKeeps(ViewOf(s), s.inbound[0], Replies(s.inbound[1..]) + Answers(s.board, s.outbound), junk);
  }

  /** What the host sends in response is less work than what it received. */
  lemma ResponseIsLess(s: System, junk: Junk)
    requires Inv(s) && Enabled(s, Deliver(junk))
    ensures OutboundTotal(s.host.Receive(s.inbound[0], junk).sent, |s.board.pins|)
          < InboundWork(s.inbound[0], |s.board.pins|)
  {
    var sent := s.host.Receive(s.inbound[0], junk).sent;
    match s.inbound[0] {
      case CapabilityResponse(_) => assert sent[1..] == [];
      case AnalogMappingResponse(_) =>
        MappingIsFollowedByQueries(s, junk);
        QueriesTotal(0, |s.board.pins|, |s.board.pins|);
      case PinStateResponse(argv) => assert sent == [] || sent[1..] == [];
      case _ =>
    }
  }

  predicate IsDelivery(event: Event) {
    event.Deliver? || event.Process?
  }

  lemma DeliveryIsWork(s: System, event: Event)
    requires Inv(s) && Enabled(s, event) && IsDelivery(event)
    ensures Work(Step(s, event)) < Work(s)
  {
    var n := |s.board.pins|;
    match event {
      case Deliver(junk) =>
        ResponseIsLess(s, junk);
        OutboundTotalConcat(s.outbound, s.host.Receive(s.inbound[0], junk).sent, n);
      case Process(amount) =>
        var answer := s.board.Answer(s.outbound[0]);
        if answer != [] {
          InboundTotalConcat(s.inbound, [Payload(answer[0], amount)], n);
          assert [Payload(answer[0], amount)][1..] == [];
        }
    }
  }

  /** The deliveries that an event other than a delivery can cause, on a board of `n` pins. */
  function EventWork(event: Event, n: nat): nat {
    match event
    case Api(Survey(_), _) => 3 * n + 4
    case Api(Refresh(_), _) => 3 * n
    case Api(_, _) => 2
    case Sample(_) => 1
    case _ => 0
  }

  function TotalEventWork(events: seq<Event>, n: nat): nat {
    if events == [] then 0 else EventWork(events[0], n) + TotalEventWork(events[1..], n)
  }

  function Deliveries(events: seq<Event>): nat {
    if events == [] then 0 else (if IsDelivery(events[0]) then 1 else 0) + Deliveries(events[1..])
  }

  /** Calls other than survey and refresh send at most two messages, neither of them a query. */
  lemma CallSendsLittle(h: Host, call: Call, junk: Junk, n: nat)
    requires h.CanCall(call) && !call.Survey? && !call.Refresh?
    ensures OutboundTotal(h.Invoke(call, junk).sent, n) <= 2
  {
    if !call.Reset? {
      CallIsLocal(h, call, junk);
      CallIsShort(h, call, junk);
    }
    NoQueryWork(h.Invoke(call, junk).sent, n);
  }

  lemma {:induction false} NoQueryWork(ms: seq<Message>, n: nat)
    requires forall k :: 0 <= k < |ms| ==> !IsQuery(ms[k])
    ensures OutboundTotal(ms, n) == |ms|
  {
    if ms != [] {
      NoQueryWork(ms[1..], n);
    }
  }

  lemma CallIsShort(h: Host, call: Call, junk: Junk)
    requires h.CanCall(call) && !call.Survey? && !call.Refresh? && !call.Reset?
    ensures |h.Invoke(call, junk).sent| <= 2
  {
    match call {
      case PinMode(pin, mode) => assert |h.PinModeEffect(pin, mode, junk.states).sent| <= 2;
      case AnalogRead(pin) => assert |h.AnalogReadEffect(pin, junk.states).sent| <= 2;
      case _ =>
    }
  }

  lemma CallWork(s: System, call: Call, junk: Junk)
    requires Inv(s) && Enabled(s, Api(call, junk))
    ensures OutboundTotal(s.host.Invoke(call, junk).sent, |s.board.pins|) <= EventWork(Api(call, junk), |s.board.pins|)
  {
    var n := |s.board.pins|;
    match call {
      case Survey(_) => assert s.host.Invoke(call, junk).sent[1..] == [];
      case Refresh(_) => QueriesTotal(0, n, n);
      case _ => CallSendsLittle(s.host, call, junk, n);
    }
  }

  /** A delivery is work done; any other event adds at most its own. */
  lemma EventIsWork(s: System, event: Event)
    requires Inv(s) && Enabled(s, event)
    ensures (if IsDelivery(event) then 1 else 0) + Work(Step(s, event)) <= Work(s) + EventWork(event, |s.board.pins|)
  {
    var n := |s.board.pins|;
    match event {
      case Api(call, junk) =>
        CallWork(s, call, junk);
        OutboundTotalConcat(s.outbound, s.host.Invoke(call, junk).sent, n);
      case Sample(report) =>
        InboundTotalConcat(s.inbound, [report], n);
        assert [report][1..] == [];
      case _ => DeliveryIsWork(s, event);
    }
  }

  /**
   In every run, however its events interleave, the deliveries and the work left are at most the work there
   was at the start and what the calls and reports of the run added.
   */
  lemma {:induction false} DeliveriesAreBounded(s: System, events: seq<Event>)
    requires Inv(s) && Legal(s, events)
    ensures Deliveries(events) + Work(Run(s, events)) <= Work(s) + TotalEventWork(events, |s.board.pins|)
    decreases |events|
  {
    if events != [] {
      EventIsWork(s, events[0]);
      StepKeeps(s, events[0]);
      DeliveriesAreBounded(Step(s, events[0]), events[1..]);
    }
  }

  /** A conversation that has not called back is never stuck: the board or the host has something to take. */
  lemma UnsettledIsEnabled(s: System)
    requires Inv(s) && !s.history.Settled()
    ensures Enabled(s, Process([0])) || Enabled(s, Deliver(Junk([], [])))
  {
    if s.inbound != [] {
      DeliveryIsDue(s);
    }
  }

  /** So every conversation can be brought to its callback by deliveries alone. */
  lemma {:induction false} ConversationsTerminate(s: System) returns (events: seq<Event>)
    requires Inv(s)
    ensures Legal(s, events) && (forall k :: 0 <= k < |events| ==> IsDelivery(events[k]))
    ensures Run(s, events).history.Settled()
    decreases Work(s)
  {
    if s.history.Settled() {
      events := [];
    } else {
      UnsettledIsEnabled(s);
      var event := if Enabled(s, Process([0])) then Process([0]) else Deliver(Junk([], []));
      DeliveryIsWork(s, event);
      StepKeeps(s, event);
      var later := ConversationsTerminate(Step(s, event));
      events := [event] + later;
      assert events[1..] == later;
    }
  }
}
