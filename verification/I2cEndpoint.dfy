/** The I2C endpoint as a value: what each API call sends and keeps, and what inbound payloads do. */
module I2cEndpoint {
  import opened Basics
  import opened I2cFrames

  /** The slave address that stands for master mode. */
  const MASTER_ADDRESS: byte := 0x77

  /** Addresses that section 3.1.12 of NXP UM10204 reserves, besides those wider than 7 bits. */
  predicate Reserved(address: byte) {
    address <= 0x07 || address >= 0x78
  }

  datatype I2cCall =
    | Begin(address: byte)
    | BeginTransmission(address: byte)
    | Write(data: byte)
    | EndTransmission(stop: bool)
    | Flush
    | RequestFrom(address: byte, quantity: nat, stop: bool)
    | Read
    | End

  /** The handler an inbound request runs, and with which byte count. */
  datatype Dispatch = Silent | Received(handler: Signal, count: nat) | Requested(handler: Signal)

  datatype I2cEffect = I2cEffect(endpoint: Endpoint, frames: seq<Frame>, error: Errno, value: int)

  datatype Endpoint = Endpoint(
    slave: byte, address: byte, header: Header, rx: seq<byte>, tx: seq<byte>,
    onReceive: Option<Signal>, onRequest: Option<Signal>)
  {
    predicate Valid() {
      address < 0x80 && header.Valid()
    }

    function Stay(error: Errno, value: int): I2cEffect {
      I2cEffect(this, [], error, value)
    }

    /** Each call of TwoWire with its argument guard. */
    function Perform(call: I2cCall): (e: I2cEffect)
      requires Valid()
      ensures e.endpoint.Valid()
    {
      match call
      case Begin(a) =>
        if Reserved(a) then Stay(EDOM, 0)
        else I2cEffect(this.(slave := a, rx := [], tx := []), [Config], OK, 0)
      case BeginTransmission(a) =>
        if a >= 0x80 then Stay(EDOM, 0)
        else this.(header := header.(readMode := 0), address := a, tx := []).Stay(OK, 0)
      case Write(data) => this.(tx := tx + [data]).Stay(OK, 1)
      case EndTransmission(stop) =>
        var h := header.(restart := if stop then 0 else 1);
        I2cEffect(this.(header := h), [Request(address, h.Data(), tx)], OK, 0)
      case Flush =>
        if slave == MASTER_ADDRESS then Stay(EBADMSG, 0) else I2cEffect(this, [Reply(slave, tx)], OK, 0)
      case RequestFrom(a, quantity, stop) =>
        if a >= 0x80 then Stay(EDOM, 0)
        else
          var h := header.(restart := if stop then 0 else 1, readMode := 1);
          I2cEffect(this.(header := h, address := a, rx := []), [Request(a, h.Data(), [quantity % 0x100])], OK, 0)
      case Read => ReadEffect()
      case End => this.(onReceive := None, onRequest := None).Stay(OK, 0)
    }

    function ReadEffect(): I2cEffect {
      if rx == [] then Stay(OK, -1) else this.(rx := rx[1..]).Stay(OK, rx[0])
    }

    function TakeReply(argv: seq<byte>): Endpoint
      requires |argv| >= 2
    {
      this.(rx := rx + Pushed(argv))
    }

    function TakeRequest(argv: seq<byte>): Endpoint
      requires |argv| >= 2
    {
      if slave == argv[0] % 0x80 then this.(rx := rx + Decode(argv[2..])) else this
    }

    /** Dispatch happens after the bytes of the request have been cached. */
    function Dispatched(argv: seq<byte>): Dispatch
      requires |argv| >= 2
    {
      if slave != argv[0] % 0x80 then Silent
      else Handler(HeaderOf(argv[1]).readMode, |TakeRequest(argv).rx|)
    }

    function Handler(readMode: nat, count: nat): Dispatch {
      if readMode != 0 && onRequest.Some? then Requested(onRequest.value)
      else if readMode == 0 && onReceive.Some? then Received(onReceive.value, count)
      else Silent
    }
  }

  /** What a reply appends to the receive buffer: its data from index 4, or the address under 10-bit addressing. */
  function Pushed(argv: seq<byte>): seq<byte>
    requires |argv| >= 2
  {
    if HeaderOf(argv[1]).tenBit != 0 then argv[..2]
    else if |argv| <= 4 then []
    else Decode(argv[4..])
  }

  const FRESH := Endpoint(0, 0, Header(0, 0, 0, 0, 0), [], [], None, None)

  // ---- Runs ----

  datatype I2cEvent = Call(call: I2cCall) | ReplyIn(argv: seq<byte>) | RequestIn(argv: seq<byte>)

  predicate Sane(event: I2cEvent) {
    match event
    case Call(_) => true
    case ReplyIn(argv) => |argv| >= 2
    case RequestIn(argv) => |argv| >= 2
  }

  function Next(e: Endpoint, event: I2cEvent): (e': Endpoint)
    requires e.Valid() && Sane(event)
    ensures e'.Valid()
  {
    match event
    case Call(call) => e.Perform(call).endpoint
    case ReplyIn(argv) => e.TakeReply(argv)
    case RequestIn(argv) => e.TakeRequest(argv)
  }

  function Emitted(e: Endpoint, event: I2cEvent): seq<Frame>
    requires e.Valid() && Sane(event)
  {
    match event
    case Call(call) => e.Perform(call).frames
    case _ => []
  }

  predicate AllSane(events: seq<I2cEvent>) {
    forall k :: 0 <= k < |events| ==> Sane(events[k])
  }

  function After(e: Endpoint, events: seq<I2cEvent>): (e': Endpoint)
    requires e.Valid() && AllSane(events)
    ensures e'.Valid()
    decreases |events|
  {
    if events == [] then e else After(Next(e, events[0]), events[1..])
  }

  function Frames(e: Endpoint, events: seq<I2cEvent>): seq<Frame>
    requires e.Valid() && AllSane(events)
    decreases |events|
  {
    if events == [] then [] else Emitted(e, events[0]) + Frames(Next(e, events[0]), events[1..])
  }

  /** Only read mode and restart ever differ from zero, and the slave address is a 7-bit one. */
  predicate Tame(e: Endpoint) {
    && e.address < 0x80 && e.slave < 0x80
    && e.header.addressExt == e.header.tenBit == e.header.reserved == 0
    && e.header.readMode <= 1 && e.header.restart <= 1
  }

  /** The four header bytes that read mode and restart alone can make. */
  lemma TameHeaderData(h: Header)
    requires h.addressExt == h.tenBit == h.reserved == 0 && h.readMode <= 1 && h.restart <= 1
    ensures h.Data() == 0x00 || h.Data() == 0x08 || h.Data() == 0x40 || h.Data() == 0x48
  {
  }

  predicate AllWellFormed(frames: seq<Frame>) {
    forall k :: 0 <= k < |frames| ==> frames[k].WellFormed()
  }

  /** A request with a tame header is well formed. */
  lemma TameRequest(a: byte, h: Header, data: seq<byte>)
    requires a < 0x80 && h.addressExt == h.tenBit == h.reserved == 0 && h.readMode <= 1 && h.restart <= 1
    ensures AllWellFormed([Request(a, h.Data(), data)])
  {
    TameHeaderData(h);
  }

  lemma CallStaysTame(e: Endpoint, call: I2cCall)
    requires Tame(e)
    ensures Tame(e.Perform(call).endpoint) && AllWellFormed(e.Perform(call).frames)
  {
    match call {
      case EndTransmission(stop) => TameRequest(e.address, e.header.(restart := if stop then 0 else 1), e.tx);
      case RequestFrom(a, quantity, stop) =>
        if a < 0x80 {
          TameRequest(a, e.header.(restart := if stop then 0 else 1, readMode := 1), [quantity % 0x100]);
        }
      case _ =>
    }
  }

  lemma EventStaysTame(e: Endpoint, event: I2cEvent)
    requires Tame(e) && Sane(event)
    ensures Tame(Next(e, event))
    ensures AllWellFormed(Emitted(e, event))
  {
    if event.Call? {
      CallStaysTame(e, event.call);
    }
  }

  lemma {:induction false} FramesAreWellFormed(e: Endpoint, events: seq<I2cEvent>)
    requires Tame(e) && AllSane(events)
    ensures Tame(After(e, events))
    ensures AllWellFormed(Frames(e, events))
    decreases |events|
  {
    if events != [] {
      EventStaysTame(e, events[0]);
      FramesAreWellFormed(Next(e, events[0]), events[1..]);
    }
  }

  /** The bytes that a run puts on the wire, call by call. */
  function Written(e: Endpoint, events: seq<I2cEvent>): seq<byte>
    requires e.Valid() && AllSane(events)
    decreases |events|
  {
    if events == [] then [] else Stream(Emitted(e, events[0])) + Written(Next(e, events[0]), events[1..])
  }

  lemma {:induction false} WrittenIsStream(e: Endpoint, events: seq<I2cEvent>)
    requires e.Valid() && AllSane(events)
    ensures Written(e, events) == Stream(Frames(e, events))
    decreases |events|
  {
    if events != [] {
      WrittenIsStream(Next(e, events[0]), events[1..]);
      StreamConcat(Emitted(e, events[0]), Frames(Next(e, events[0]), events[1..]));
    }
  }

  /** Header in {0x00, 0x08, 0x40, 0x48}, addresses and payload bytes below 0x80, and `bytes` splits into `frames`. */
  ghost predicate CleanWire(frames: seq<Frame>, bytes: seq<byte>) {
    && AllWellFormed(frames)
    && (forall k, j :: 0 <= k < |frames| && 0 <= j < |frames[k].Payload()| ==> frames[k].Payload()[j] < 0x80)
    && Split(bytes) == Some(frames)
  }

  /** What any run from construction writes is a clean wire: the bytes split back into the messages sent. */
  lemma EmittedStreamSplits(events: seq<I2cEvent>)
    requires AllSane(events)
    ensures CleanWire(Frames(FRESH, events), Written(FRESH, events))
  {
    var frames := Frames(FRESH, events);
    WrittenIsStream(FRESH, events);
    FramesAreWellFormed(FRESH, events);
    SplitOfStream(frames);
    forall k | 0 <= k < |frames|
      ensures forall j :: 0 <= j < |frames[k].Payload()| ==> frames[k].Payload()[j] < 0x80
    {
      PayloadMeaning(frames[k]);
    }
  }

  // ---- From master to slave ----

  function Writes(bytes: seq<byte>): seq<I2cEvent> {
    seq(|bytes|, k requires 0 <= k < |bytes| => Call(Write(bytes[k])))
  }

  lemma {:induction false} WritesAppend(e: Endpoint, bytes: seq<byte>, rest: seq<I2cEvent>)
    requires e.Valid() && AllSane(rest)
    ensures AllSane(Writes(bytes) + rest)
    ensures Frames(e, Writes(bytes) + rest) == Frames(e.(tx := e.tx + bytes), rest)
    ensures After(e, Writes(bytes) + rest) == After(e.(tx := e.tx + bytes), rest)
    decreases |bytes|
  {
    if bytes == [] {
      assert Writes(bytes) + rest == rest && e.tx + bytes == e.tx;
    } else {
      var events := Writes(bytes) + rest;
      WritesAppend(Next(e, events[0]), bytes[1..], rest);
      assert events[0] == Call(Write(bytes[0])) && events[1..] == Writes(bytes[1..]) + rest;
      assert e.tx + [bytes[0]] + bytes[1..] == e.tx + bytes;
    }
  }

  /** A whole write transaction, whatever the endpoint did before. */
  function Transaction(a: byte, bytes: seq<byte>, stop: bool): seq<I2cEvent> {
    [Call(BeginTransmission(a))] + (Writes(bytes) + [Call(EndTransmission(stop))])
  }

  /** What the addressed slave makes of a request frame. */
  lemma SlaveTakes(slave: Endpoint, a: byte, h: Header, data: seq<byte>)
    requires slave.Valid() && h.Valid() && a < 0x80 && slave.slave == a
    ensures var payload := Request(a, h.Data(), data).Payload();
      && slave.TakeRequest(payload) == slave.(rx := slave.rx + data)
      && slave.Dispatched(payload) == slave.Handler(h.readMode, |slave.rx| + |data|)
  {
    FieldsOfData(h);
    EncodeMeaning(data);
    assert Request(a, h.Data(), data).Payload()[2..] == Encode(data);
  }

  /** One frame leaves the master, and the addressed slave appends exactly the bytes and runs its receive handler. */
  lemma TransactionReachesSlave(master: Endpoint, slave: Endpoint, a: byte, bytes: seq<byte>, stop: bool)
    requires master.Valid() && slave.Valid() && a < 0x80 && slave.slave == a
    ensures AllSane(Transaction(a, bytes, stop))
    ensures var frames := Frames(master, Transaction(a, bytes, stop));
      && |frames| == 1 && frames[0].Request?
      && slave.TakeRequest(frames[0].Payload()) == slave.(rx := slave.rx + bytes)
      && slave.Dispatched(frames[0].Payload())
         == if slave.onReceive.Some? then Received(slave.onReceive.value, |slave.rx| + |bytes|) else Silent
  {
    var h := master.header.(readMode := 0, restart := if stop then 0 else 1);
    TransactionFrame(master, a, bytes, stop);
    SlaveTakes(slave, a, h, bytes);
  }

  lemma TransactionFrame(master: Endpoint, a: byte, bytes: seq<byte>, stop: bool)
    requires master.Valid() && a < 0x80
    ensures AllSane(Transaction(a, bytes, stop))
    ensures Frames(master, Transaction(a, bytes, stop))
         == [Request(a, master.header.(readMode := 0, restart := if stop then 0 else 1).Data(), bytes)]
    ensures After(master, Transaction(a, bytes, stop))
         == master.(header := master.header.(readMode := 0, restart := if stop then 0 else 1), address := a, tx := bytes)
  {
    var events := Transaction(a, bytes, stop);
    var begun := Next(master, Call(BeginTransmission(a)));
    var last := [Call(EndTransmission(stop))];
    WritesAppend(begun, bytes, last);
    assert events[0] == Call(BeginTransmission(a)) && events[1..] == Writes(bytes) + last;
    assert begun.tx + bytes == bytes && last[1..] == [];
  }

  /** The header byte of a request for bytes is 0x08, or 0x48 when the bus is to be kept. */
  lemma RequestFrame(e: Endpoint, a: byte, quantity: nat, stop: bool)
    requires Tame(e) && a < 0x80
    ensures e.Perform(RequestFrom(a, quantity, stop)).frames
         == [Request(a, if stop then 0x08 else 0x48, [quantity % 0x100])]
    ensures var e' := e.Perform(RequestFrom(a, quantity, stop)).endpoint;
      e' == e.(header := e'.header, address := a, rx := []) && e'.header.Data() == if stop then 0x08 else 0x48
  {
    var h := e.header.(restart := if stop then 0 else 1, readMode := 1);
    assert h.Data() == if stop then 0x08 else 0x48;
  }

  /** The header byte of a write transaction is 0x00, or 0x40 when the bus is to be kept; the bytes stay queued. */
  lemma WriteFrame(e: Endpoint, a: byte, bytes: seq<byte>, stop: bool)
    requires Tame(e) && a < 0x80
    ensures AllSane(Transaction(a, bytes, stop))
    ensures Frames(e, Transaction(a, bytes, stop)) == [Request(a, if stop then 0x00 else 0x40, bytes)]
    ensures var e' := After(e, Transaction(a, bytes, stop));
      e' == e.(header := e'.header, address := a, tx := bytes) && e'.header.Data() == if stop then 0x00 else 0x40
  {
    TransactionFrame(e, a, bytes, stop);
    var h := e.header.(readMode := 0, restart := if stop then 0 else 1);
    assert h.Data() == if stop then 0x00 else 0x40;
  }

  /** Joining the bus takes a 7-bit address that is not reserved, and empties both buffers. */
  lemma BeginJoins(e: Endpoint, a: byte)
    requires e.Valid()
    ensures 0x08 <= a <= 0x77 ==>
      e.Perform(Begin(a)) == I2cEffect(e.(slave := a, rx := [], tx := []), [Config], OK, 0)
    ensures a < 0x08 || a > 0x77 ==> e.Perform(Begin(a)) == I2cEffect(e, [], EDOM, 0)
  {
  }

  /** Leaving the bus forgets both handlers and nothing else. */
  lemma EndForgets(e: Endpoint, argv: seq<byte>)
    requires e.Valid() && |argv| >= 2
    ensures var left := e.Perform(End);
      && left.frames == [] && left.error == OK && left.endpoint.Dispatched(argv) == Silent
      && left.endpoint == e.(onReceive := None, onRequest := None)
  {
  }

  /** Calls with an address wider than 7 bits, and a flush by a master, are refused. */
  lemma WrongCallsAreRefused(e: Endpoint, a: byte, quantity: nat, stop: bool)
    requires e.Valid()
    ensures a >= 0x80 ==>
      && e.Perform(BeginTransmission(a)) == I2cEffect(e, [], EDOM, 0)
      && e.Perform(RequestFrom(a, quantity, stop)) == I2cEffect(e, [], EDOM, 0)
    ensures e.slave == 0x77 ==> e.Perform(Flush) == I2cEffect(e, [], EBADMSG, 0)
  {
  }

  /** A reply with the 10-bit flag leaves its two address bytes, any other the joined pairs from index 4. */
  lemma PushedMeaning(argv: seq<byte>, data: seq<byte>, rest: seq<byte>)
    requires |argv| >= 2
    ensures argv[1] / 32 % 2 == 1 ==> Pushed(argv) == [argv[0], argv[1]]
    ensures argv[1] / 32 % 2 == 0 && |argv| >= 4 && argv[4..] == Encode(data) + rest && |rest| <= 1 ==>
      Pushed(argv) == data
  {
    if |argv| >= 4 && argv[4..] == Encode(data) + rest && |rest| <= 1 {
      DecodeIgnoresOdd(data, rest);
    }
  }

  lemma {:induction false} DecodeIgnoresOdd(data: seq<byte>, rest: seq<byte>)
    requires |rest| <= 1
    ensures Decode(Encode(data) + rest) == data
  {
    if data != [] {
      DecodeIgnoresOdd(data[1..], rest);
      assert (Encode(data) + rest)[2..] == Encode(data[1..]) + rest;
    }
  }

  /** A request for bytes runs the request handler and carries the quantity modulo 256 as its only byte. */
  lemma RequestReachesSlave(master: Endpoint, slave: Endpoint, a: byte, quantity: nat, stop: bool)
    requires master.Valid() && slave.Valid() && a < 0x80 && slave.slave == a
    ensures var frames := master.Perform(RequestFrom(a, quantity, stop)).frames;
      && |frames| == 1 && frames[0].Request?
      && slave.TakeRequest(frames[0].Payload()) == slave.(rx := slave.rx + [quantity % 0x100])
      && slave.Dispatched(frames[0].Payload())
         == if slave.onRequest.Some? then Requested(slave.onRequest.value) else Silent
  {
    SlaveTakes(slave, a, master.header.(restart := if stop then 0 else 1, readMode := 1), [quantity % 0x100]);
  }

  /** A slave at any other address ignores both. */
  lemma OthersIgnore(slave: Endpoint, a: byte, header: byte, data: seq<byte>)
    requires a < 0x80 && slave.slave != a
    ensures var payload := Request(a, header, data).Payload();
      slave.TakeRequest(payload) == slave && slave.Dispatched(payload) == Silent
  {
  }

  // ---- From slave to master ----

  /**
   A reply decodes at the master as the transmitted bytes without the first, which stands where the
   register would be; no slave address is mistaken for a 10-bit header.
   */
  lemma ReplyReachesMaster(slave: Endpoint, master: Endpoint)
    requires slave.Valid() && slave.slave != MASTER_ADDRESS
    ensures var frames := slave.Perform(Flush).frames;
      && |frames| == 1 && frames[0].Reply? && |frames[0].Payload()| >= 2
      && HeaderOf(frames[0].Payload()[1]).tenBit == 0
      && master.TakeReply(frames[0].Payload())
         == master.(rx := master.rx + if slave.tx == [] then [] else slave.tx[1..])
  {
    var payload := Reply(slave.slave, slave.tx).Payload();
    EncodeMeaning(slave.tx);
    assert payload[2..] == Encode(slave.tx);
    if slave.tx == [] {
      assert |payload| == 2;
    } else {
      EncodeMeaning(slave.tx[1..]);
      assert payload[4..] == Encode(slave.tx)[2..] == Encode(slave.tx[1..]);
    }
  }

  /**
   A flush does not empty the transmit buffer, so the bytes written for one reply are exactly what that
   reply carries if and only if nothing was left from before: a second reply repeats the first.
   */
  lemma ReplyCarriesOnlyNewBytes(slave: Endpoint, bytes: seq<byte>)
    requires slave.Valid() && slave.slave != MASTER_ADDRESS
    ensures AllSane(Writes(bytes) + [Call(Flush)])
    ensures Frames(slave, Writes(bytes) + [Call(Flush)]) == [Reply(slave.slave, bytes)] <==> slave.tx == []
    ensures After(slave, Writes(bytes) + [Call(Flush)]).tx == slave.tx + bytes
  {
    var last := [Call(Flush)];
    WritesAppend(slave, bytes, last);
    assert last[1..] == [];
    var full := slave.(tx := slave.tx + bytes);
    assert Frames(full, last) == [Reply(slave.slave, slave.tx + bytes)] && After(full, last) == full;
    assert |slave.tx + bytes| == |slave.tx| + |bytes|;
    if slave.tx == [] {
      assert slave.tx + bytes == bytes;
    } else {
      assert Reply(slave.slave, slave.tx + bytes) != Reply(slave.slave, bytes);
    }
  }

  // ---- Reading ----

  function Reads(n: nat): seq<I2cEvent> {
    seq(n, _ => Call(Read))
  }

  /** Reading as many bytes as are available empties the buffer in order; the next read returns -1. */
  lemma {:induction false} ReadsDrain(e: Endpoint, k: nat)
    requires e.Valid() && k <= |e.rx|
    ensures AllSane(Reads(k)) && After(e, Reads(k)) == e.(rx := e.rx[k..])
    ensures var e' := After(e, Reads(k)); e'.Perform(Read).value == if k < |e.rx| then e.rx[k] else -1
    decreases k
  {
    if k > 0 {
      var e1 := Next(e, Call(Read));
      ReadsDrain(e1, k - 1);
      assert Reads(k)[1..] == Reads(k - 1);
      assert e1.rx[k - 1..] == e.rx[k..];
    }
  }
}
