/**
 An abstract Firmata board: what it announces about its pins, the mode each pin is in, and how the
 host's messages change that. Whether it honours a mode it did not announce is left open, as is the
 mode in which a reset leaves a pin that is neither an analog input nor a digital output.
 */
module Board {
  import opened Basics
  import opened WiringPin
  import opened Messages
  import opened Capability
  import opened Host

  /** The answer to a query, without the current value of the pin. */
  datatype Reply = Capabilities(argv: seq<byte>) | Mapping(argv: seq<byte>) | State(pin: nat, mode: byte)

  datatype Board = Board(
    pins: seq<seq<Ability>>,
    mapping: seq<byte>,
    honoured: seq<set<byte>>,
    fallback: seq<byte>,
    modes: seq<byte>)
  {
    ghost predicate Valid() {
      && 1 <= |pins| <= 128
      && |mapping| == |honoured| == |fallback| == |modes| == |pins|
      && (forall p :: 0 <= p < |pins| ==> Printable(pins[p]))
      && (forall p, mode: byte :: 0 <= p < |pins| && Offers(pins[p], mode) ==> mode in honoured[p])
    }

    /** The same hardware, whatever modes its pins are in. */
    predicate SameHardware(other: Board) {
      this == other.(modes := modes)
    }

    /** The comment above the reset loop of the host: analog inputs, then digital outputs. */
    function ResetMode(p: nat): byte
      requires p < |pins| == |fallback|
    {
      if Offers(pins[p], PIN_MODE_ANALOG) then PIN_MODE_ANALOG
      else if Offers(pins[p], PIN_MODE_OUTPUT) then PIN_MODE_OUTPUT
      else fallback[p]
    }

    function Apply(m: Message): (b: Board)
      requires Valid()
      ensures b.Valid() && SameHardware(b)
    {
      match m
      case SetPinMode(pin, mode) =>
        if pin < |pins| && mode in honoured[pin] then this.(modes := modes[pin := mode]) else this
      case SystemReset => this.(modes := seq(|pins|, p requires 0 <= p < |pins| => ResetMode(p)))
      case _ => this
    }

    function Answer(m: Message): seq<Reply>
      requires Valid()
    {
      match m
      case CapabilityQuery => [Capabilities(PrintPins(pins))]
      case AnalogMappingQuery => [Mapping(mapping)]
      case PinStateQuery(pin) => if pin < |pins| then [State(pin, modes[pin])] else []
      case _ => []
    }

    /** What the host stores about this hardware once the capability and mapping replies are in. */
    function Known(): (infos: seq<PinInfo>)
      requires Valid()
      ensures |infos| == |pins|
    {
      seq(|pins|, p requires 0 <= p < |pins| => Describe(pins[p]).(reserved := mapping[p]))
    }

    /** A value message goes to a pin that is in the mode for it. */
    predicate Fits(m: Message) {
      match m
      case DigitalValue(pin, _) => pin < |modes| && modes[pin] == PIN_MODE_OUTPUT
      case AnalogValue(pin, _) => pin < |modes| && modes[pin] == PIN_MODE_PWM
      case _ => true
    }

    /** Every recognised mode a pin is in, or would fall back to, is one the pin announces. */
    ghost predicate ReportsSupported()
      requires Valid()
    {
      forall p :: 0 <= p < |pins| ==> Sound(p, modes[p]) && Sound(p, fallback[p])
    }

    predicate Sound(p: nat, mode: byte)
      requires p < |pins|
    {
      FlagOf(mode) != UNSPECIFIED ==> Offers(pins[p], mode)
    }
  }

  function Replay(b: Board, ms: seq<Message>): (r: Board)
    requires b.Valid()
    ensures r.Valid() && b.SameHardware(r)
    decreases |ms|
  {
    if ms == [] then b else Replay(b.Apply(ms[0]), ms[1..])
  }

  function Answers(b: Board, ms: seq<Message>): seq<Reply>
    requires b.Valid()
    decreases |ms|
  {
    if ms == [] then [] else b.Answer(ms[0]) + Answers(b.Apply(ms[0]), ms[1..])
  }

  /** Every value message of the trace fits the mode its pin has been replayed to. */
  predicate SafeTrace(b: Board, ms: seq<Message>)
    requires b.Valid()
    decreases |ms|
  {
    ms == [] || (b.Fits(ms[0]) && SafeTrace(b.Apply(ms[0]), ms[1..]))
  }

  /** The pin state replies still due when pins below `from` have been answered. */
  function States(b: Board, from: nat): seq<Reply>
    requires b.Valid()
    decreases |b.pins| - from
  {
    if from >= |b.pins| then [] else [State(from, b.modes[from])] + States(b, from + 1)
  }

  lemma {:induction false} ReplayConcat(b: Board, xs: seq<Message>, ys: seq<Message>)
    requires b.Valid()
    ensures Replay(b, xs + ys) == Replay(Replay(b, xs), ys)
    ensures Answers(b, xs + ys) == Answers(b, xs) + Answers(Replay(b, xs), ys)
    ensures SafeTrace(b, xs + ys) <==> SafeTrace(b, xs) && SafeTrace(Replay(b, xs), ys)
    decreases |xs|
  {
    if xs == [] {
      assert xs + ys == ys;
    } else {
      ReplayConcat(b.Apply(xs[0]), xs[1..], ys);
      assert (xs + ys)[0] == xs[0] && (xs + ys)[1..] == xs[1..] + ys;
    }
  }

  lemma {:induction false} QueriesAnswered(b: Board, from: nat)
    requires b.Valid()
    ensures Replay(b, Queries(from, |b.pins|)) == b
    ensures Answers(b, Queries(from, |b.pins|)) == States(b, from)
    ensures SafeTrace(b, Queries(from, |b.pins|))
    decreases |b.pins| - from
  {
    if from < |b.pins| {
      QueriesAnswered(b, from + 1);
      assert Queries(from, |b.pins|)[1..] == Queries(from + 1, |b.pins|);
    }
  }

  /** The stored capabilities offer a mode exactly when the board announces it, and then honours it. */
  lemma KnownSupports(b: Board, p: nat, flag: flags)
    requires b.Valid() && p < |b.pins| && IsMode(flag)
    ensures b.Known()[p].Supports(flag) <==> Offers(b.pins[p], CodeOf(flag))
    ensures b.Known()[p].Supports(flag) ==> CodeOf(flag) in b.honoured[p]
  {
    DescribeMeaning(b.pins[p]);
  }
}
