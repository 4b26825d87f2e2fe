/** One call, one reply: what each does to the agreement between the mode cache and the board. */
module Coherence {
  import opened Basics
  import opened WiringPin
  import opened Messages
  import opened Capability
  import opened Host
  import opened Board

  /** The host holds the capabilities, mapping and pin count of this board. */
  predicate Surveyed(h: Host, b: Board)
    requires b.Valid()
  {
    h.info == Some(b.Known()) && |h.states| == |b.pins|
  }

  /** Every pin in `[0, to)` is cached as unspecified or as exactly the mode the board has it in. */
  predicate Coherent(h: Host, b: Board, to: nat) {
    forall p :: 0 <= p < to && p < |h.states| && p < |b.modes| ==>
      h.states[p].mode == UNSPECIFIED || h.states[p].mode == FlagOf(b.modes[p])
  }

  /** Every cached mode is unspecified or one that the info of its pin supports. */
  predicate WithinCapabilities(h: Host) {
    && h.Valid()
    && forall p :: 0 <= p < |h.states| ==>
      h.states[p].mode == UNSPECIFIED || (IsMode(h.states[p].mode) && h.Can(p, h.states[p].mode))
  }

  /** The messages of one batch leave host and board in agreement, ask nothing and fit the board. */
  ghost predicate Agrees(b: Board, e: Effect)
    requires b.Valid()
  {
    && Surveyed(e.host, Replay(b, e.sent))
    && Coherent(e.host, Replay(b, e.sent), |b.pins|)
    && Answers(b, e.sent) == []
    && SafeTrace(b, e.sent)
    && (b.ReportsSupported() ==> Replay(b, e.sent).ReportsSupported())
  }

  lemma ReplayNone(b: Board)
    requires b.Valid()
    ensures Replay(b, []) == b && Answers(b, []) == [] && SafeTrace(b, [])
  {
  }

  lemma ReplayOne(b: Board, m: Message)
    requires b.Valid()
    ensures Replay(b, [m]) == b.Apply(m) && Answers(b, [m]) == b.Answer(m)
    ensures SafeTrace(b, [m]) <==> b.Fits(m)
  {
    assert [m][1..] == [];
  }

  lemma ReplayTwo(b: Board, m: Message, n: Message)
    requires b.Valid()
    ensures Replay(b, [m, n]) == b.Apply(m).Apply(n)
    ensures Answers(b, [m, n]) == b.Answer(m) + b.Apply(m).Answer(n)
    ensures SafeTrace(b, [m, n]) <==> b.Fits(m) && b.Apply(m).Fits(n)
  {
    assert [m, n][1..] == [n];
    ReplayOne(b.Apply(m), n);
  }

  /** Telling the board a supported mode while caching the same mode. */
  lemma SwitchMode(h: Host, b: Board, pin: nat, flag: flags)
    requires b.Valid() && Surveyed(h, b) && Coherent(h, b, |b.pins|)
    requires pin < |b.pins| && IsMode(flag) && h.Can(pin, flag)
    ensures var b' := b.Apply(SetPinMode(pin, CodeOf(flag)));
      && b'.modes == b.modes[pin := CodeOf(flag)]
      && Surveyed(h.SetMode(pin, flag), b')
      && Coherent(h.SetMode(pin, flag), b', |b.pins|)
      && (b.ReportsSupported() ==> b'.ReportsSupported())
  {
    KnownSupports(b, pin, flag);
  }

  lemma PinModeAgrees(h: Host, b: Board, pin: nat, mode: nat, junk: seq<PinState>)
    requires b.Valid() && Surveyed(h, b) && Coherent(h, b, |b.pins|)
    ensures Agrees(b, h.PinModeEffect(pin, mode, junk))
  {
    ReplayNone(b);
    if pin < |h.states| {
      var decision := Decide(h.InfoOf(pin), mode);
      if decision.Adopt? && IsMode(decision.flag) {
        var flag := decision.flag;
        var m := SetPinMode(pin, CodeOf(flag));
        SwitchMode(h, b, pin, flag);
        ReplayOne(b, m);
        ReplayTwo(b, m, ReportDigital(pin / 8, true));
      }
    }
  }

  lemma AnalogReadAgrees(h: Host, b: Board, pin: nat, junk: seq<PinState>)
    requires b.Valid() && Surveyed(h, b) && Coherent(h, b, |b.pins|)
    ensures Agrees(b, h.AnalogReadEffect(pin, junk))
  {
    ReplayNone(b);
    if pin < |h.states| && h.Can(pin, ANALOG_READ) {
      SwitchMode(h, b, pin, ANALOG_READ);
      ReplayOne(b, SetPinMode(pin, PIN_MODE_ANALOG));
    }
  }

  lemma AnalogWriteAgrees(h: Host, b: Board, pin: nat, amount: nat)
    requires b.Valid() && Surveyed(h, b) && Coherent(h, b, |b.pins|)
    ensures Agrees(b, h.AnalogWriteEffect(pin, amount))
  {
    ReplayNone(b);
    if pin < |h.states| && h.Can(pin, ANALOG_WRITE) {
      if h.states[pin].mode == ANALOG_WRITE {
        ReplayOne(b, AnalogValue(pin, amount));
      } else {
        SwitchMode(h, b, pin, ANALOG_WRITE);
        ReplayTwo(b, SetPinMode(pin, PIN_MODE_PWM), AnalogValue(pin, amount));
      }
    }
  }

  lemma DigitalWriteAgrees(h: Host, b: Board, pin: nat, high: bool)
    requires b.Valid() && Surveyed(h, b) && Coherent(h, b, |b.pins|)
    ensures Agrees(b, h.DigitalWriteEffect(pin, high))
  {
    ReplayNone(b);
    if pin < |h.states| && h.Can(pin, DIGITAL_WRITE) {
      if h.states[pin].mode == DIGITAL_WRITE {
        ReplayOne(b, DigitalValue(pin, high));
      } else if h.states[pin].mode == UNSPECIFIED {
        SwitchMode(h, b, pin, DIGITAL_WRITE);
        ReplayTwo(b, SetPinMode(pin, PIN_MODE_OUTPUT), DigitalValue(pin, high));
      }
    }
  }

  lemma ResetAgrees(h: Host, b: Board, upon: Option<Signal>)
    requires b.Valid() && Surveyed(h, b)
    ensures Agrees(b, h.ResetEffect(upon))
  {
    ReplayOne(b, SystemReset);
    var h', b' := h.ResetEffect(upon).host, b.Apply(SystemReset);
    forall p | 0 <= p < |b.pins|
      ensures h'.states[p].mode == UNSPECIFIED || h'.states[p].mode == FlagOf(b'.modes[p])
    {
      KnownSupports(b, p, ANALOG_READ);
      KnownSupports(b, p, DIGITAL_WRITE);
    }
  }

  /** No API call on a surveyed, coherent host breaks coherence or sends a value to an unprepared pin. */
  lemma CallAgrees(h: Host, b: Board, call: Call, junk: Junk)
    requires b.Valid() && Surveyed(h, b) && Coherent(h, b, |b.pins|)
    requires !call.Survey? && !call.Refresh?
    ensures Agrees(b, h.Invoke(call, junk))
  {
    ReplayNone(b);
    match call {
      case PinMode(pin, mode) => PinModeAgrees(h, b, pin, mode, junk.states);
      case AnalogRead(pin) => AnalogReadAgrees(h, b, pin, junk.states);
      case AnalogWrite(pin, amount) => AnalogWriteAgrees(h, b, pin, amount);
      case DigitalWrite(pin, high) => DigitalWriteAgrees(h, b, pin, high);
      case Reset(upon) => ResetAgrees(h, b, Some(upon));
      case DigitalRead(_) =>
      case AttachInterrupt(_, _) =>
      case DetachInterrupt(_) =>
    }
  }

  /** A truthful pin state reply re-sends at most the mode the pin already has. */
  lemma ReactionIsHarmless(b: Board, report: bool, pin: nat)
    requires b.Valid() && pin < |b.pins|
    ensures var sent := Reaction(report, pin, b.modes[pin]);
      Replay(b, sent) == b && Answers(b, sent) == [] && SafeTrace(b, sent)
  {
  }

  /** Coherence with a board that only reports supported modes bounds the cache by the capabilities. */
  lemma CoherentWithinCapabilities(h: Host, b: Board)
    requires b.Valid() && Surveyed(h, b) && Coherent(h, b, |b.pins|) && b.ReportsSupported()
    ensures WithinCapabilities(h)
  {
    forall p | 0 <= p < |h.states| && h.states[p].mode != UNSPECIFIED
      ensures IsMode(h.states[p].mode) && h.Can(p, h.states[p].mode)
    {
      assert b.Sound(p, b.modes[p]);
      KnownSupports(b, p, h.states[p].mode);
    }
  }

  /** The pin where `pinMode` has overtaken a reply can be right again only in these cases. */
  predicate SurvivesOvertaking(b: Board, report: bool, pin: nat, reported: byte, adopted: flags)
    requires pin < |b.honoured|
  {
    || adopted == UNSPECIFIED
    || Translate(report, reported) == UNSPECIFIED
    || FlagOf(reported) == adopted
    || (report && (reported == PIN_MODE_INPUT || reported == PIN_MODE_PULLUP) && reported in b.honoured[pin])
  }

  /**
   What becomes of `pinMode` while a refresh is underway: the board reported the mode it was in, then the
   host adopted another, then the reply comes in. The cache holds the reported mode; with all messages
   replayed, cache and board agree if and only if the host left the pin open, forgets the reported mode,
   adopted that same mode, or re-sends it as an input that the board takes back.
   */
  lemma OvertakenModeIsForgotten(h: Host, b: Board, pin: nat, mode: nat, amount: byte, junk: seq<PinState>)
    requires b.Valid() && Surveyed(h, b) && Coherent(h, b, |b.pins|) && pin < |b.pins|
    requires Decide(h.InfoOf(pin), mode).Adopt?
    ensures var e := h.PinModeEffect(pin, mode, junk);
      var reported := b.modes[pin];
      var late := PinStateResponse([pin, reported, amount]);
      && e.host.CanReceive(late)
      && var f := e.host.Receive(late, Junk([], []));
         && f.host.states[pin].mode == Translate(h.report, reported)
         && (Coherent(f.host, Replay(b, e.sent + f.sent), |b.pins|)
             <==> SurvivesOvertaking(b, h.report, pin, reported, Decide(h.InfoOf(pin), mode).flag))
  {
    var adopted := Decide(h.InfoOf(pin), mode).flag;
    var reported := b.modes[pin];
    var e := h.PinModeEffect(pin, mode, junk);
    AdoptedBoard(h, b, pin, mode, junk);
    assert e.host == h.SetMode(pin, adopted);
    var f := e.host.PinStateEffect([pin, reported, amount]);
    LateReply(h, b, Replay(b, e.sent), pin, adopted, amount);
    ReplayConcat(b, e.sent, f.sent);
  }

  /** The late reply itself, when the host has adopted a mode and told the board. */
  lemma LateReply(h: Host, b: Board, told: Board, pin: nat, adopted: flags, amount: byte)
    requires b.Valid() && told.Valid() && b.SameHardware(told) && pin < |b.pins| == |h.states|
    requires Coherent(h, b, |b.pins|) && (adopted == UNSPECIFIED || IsMode(adopted))
    requires told.modes == if IsMode(adopted) then b.modes[pin := CodeOf(adopted)] else b.modes
    ensures var f := h.SetMode(pin, adopted).PinStateEffect([pin, b.modes[pin], amount]);
      && f.host.states[pin].mode == Translate(h.report, b.modes[pin])
      && (Coherent(f.host, Replay(told, f.sent), |b.pins|)
          <==> SurvivesOvertaking(b, h.report, pin, b.modes[pin], adopted))
  {
    var f := h.SetMode(pin, adopted).PinStateEffect([pin, b.modes[pin], amount]);
    ReactedBoard(told, h.report, pin, b.modes[pin]);
    CoherentButOne(h, f.host, b, Replay(told, f.sent), pin);
    OnePinAgrees(b, h.report, pin, b.modes[pin], adopted);
  }

  /** Where host and board changed in one pin only, coherence is a matter of that pin. */
  lemma CoherentButOne(h: Host, h': Host, b: Board, b': Board, pin: nat)
    requires |h.states| == |h'.states| == |b.modes| == |b'.modes| && pin < |b.modes|
    requires Coherent(h, b, |b.modes|)
    requires forall p :: 0 <= p < |b.modes| && p != pin ==>
      h'.states[p].mode == h.states[p].mode && b'.modes[p] == b.modes[p]
    ensures Coherent(h', b', |b.modes|) <==>
      h'.states[pin].mode == UNSPECIFIED || h'.states[pin].mode == FlagOf(b'.modes[pin])
  {
  }

  /** The comparison at that pin: what is cached against what the board was last told. */
  lemma OnePinAgrees(b: Board, report: bool, pin: nat, reported: byte, adopted: flags)
    requires pin < |b.honoured| && (adopted == UNSPECIFIED || IsMode(adopted))
    ensures var told := if IsMode(adopted) then CodeOf(adopted) else reported;
      var resent := report && (reported == PIN_MODE_INPUT || reported == PIN_MODE_PULLUP) && reported in b.honoured[pin];
      Translate(report, reported) == UNSPECIFIED
      || Translate(report, reported) == FlagOf(if resent then reported else told)
      <==> SurvivesOvertaking(b, report, pin, reported, adopted)
  {
  }

  /** After `pinMode` the board differs at most in that pin, which is in the adopted mode if there is one. */
  lemma AdoptedBoard(h: Host, b: Board, pin: nat, mode: nat, junk: seq<PinState>)
    requires b.Valid() && Surveyed(h, b) && Coherent(h, b, |b.pins|) && pin < |b.pins|
    requires Decide(h.InfoOf(pin), mode).Adopt?
    ensures var flag, e := Decide(h.InfoOf(pin), mode).flag, h.PinModeEffect(pin, mode, junk);
      && e.host == h.SetMode(pin, flag)
      && (flag == UNSPECIFIED || IsMode(flag))
      && Replay(b, e.sent).modes == if IsMode(flag) then b.modes[pin := CodeOf(flag)] else b.modes
  {
    ReplayNone(b);
    var flag := Decide(h.InfoOf(pin), mode).flag;
    if IsMode(flag) {
      KnownSupports(b, pin, flag);
      AnnouncedBoard(b, pin, flag);
    }
  }

  lemma AnnouncedBoard(b: Board, pin: nat, flag: flags)
    requires b.Valid() && pin < |b.pins| && IsMode(flag) && CodeOf(flag) in b.honoured[pin]
    ensures Replay(b, Announce(pin, flag)).modes == b.modes[pin := CodeOf(flag)]
  {
    var m, report := SetPinMode(pin, CodeOf(flag)), ReportDigital(pin / 8, true);
    assert b.Apply(m).Apply(report).modes == b.modes[pin := CodeOf(flag)];
    if Announce(pin, flag) == [m] {
      ReplayOne(b, m);
    } else {
      assert Announce(pin, flag) == [m, report];
      ReplayTwo(b, m, report);
    }
  }

  /** What the reaction to a reply does to the board. */
  lemma ReactedBoard(b: Board, report: bool, pin: nat, reported: byte)
    requires b.Valid() && pin < |b.pins|
    ensures Replay(b, Reaction(report, pin, reported)).modes ==
      if report && (reported == PIN_MODE_INPUT || reported == PIN_MODE_PULLUP) && reported in b.honoured[pin]
      then b.modes[pin := reported] else b.modes
  {
    ReplayNone(b);
    var sent := Reaction(report, pin, reported);
    if sent != [] {
      assert sent == [sent[0]];
      ReplayOne(b, sent[0]);
    }
  }

  /** The plainest case: an output made an input goes back to being an output in the cache alone. */
  lemma OvertakenInputDisagrees(h: Host, b: Board, pin: nat, amount: byte, junk: seq<PinState>)
    requires b.Valid() && Surveyed(h, b) && Coherent(h, b, |b.pins|) && pin < |b.pins|
    requires b.modes[pin] == PIN_MODE_OUTPUT && h.Can(pin, DIGITAL_READ)
    ensures var e := h.PinModeEffect(pin, INPUT, junk);
      var f := e.host.PinStateEffect([pin, PIN_MODE_OUTPUT, amount]);
      f.host.states[pin].mode == DIGITAL_WRITE && !Coherent(f.host, Replay(b, e.sent + f.sent), |b.pins|)
  {
    OvertakenModeIsForgotten(h, b, pin, INPUT, amount, junk);
  }
}
