/**
 The I2C endpoint as an object writing byte by byte to the serial stream, behind the guards of TwoWire.
 Each method is proved to have the effect its function in module I2cEndpoint describes.
 */
module FirmataI2c {
  import opened Basics
  import opened I2cFrames
  import opened I2cEndpoint

  /** `std::promise<size_t>`: setting it a second time throws and changes nothing. */
  class Promise {
    var value: Option<nat>

    constructor ()
      ensures value == None
    {
      value := None;
    }

    method SetValue(n: nat) returns (threw: bool)
      modifies this
      ensures threw <==> old(value).Some?
      ensures value == if old(value).Some? then old(value) else Some(n)
    {
      threw := value.Some?;
      if !threw {
        value := Some(n);
      }
    }
  }

  class FirmataI2c {
    var slaveAddress: byte
    var slaveResponseResult: Promise?
    var addressBase: byte
    var header: Header
    var onReceiveHandler: Option<Signal>
    var onRequestHandler: Option<Signal>
    var rx: seq<byte>
    var tx: seq<byte>
    var stream: seq<byte>
    var errno: Errno

    ghost function Model(): Endpoint
      reads this
    {
      Endpoint(slaveAddress, addressBase, header, rx, tx, onReceiveHandler, onRequestHandler)
    }

    /** What the constructor and the calls of TwoWire leave possible. */
    ghost predicate Valid()
      reads this
    {
      Tame(Model())
    }

    /** The object went through exactly the effect `e` and wrote exactly its frames. */
    twostate predicate Did(e: I2cEffect)
      reads this
    {
      && Valid()
      && Model() == e.endpoint
      && stream == old(stream) + Stream(e.frames)
      && slaveResponseResult == old(slaveResponseResult)
      && errno == if e.error == OK then old(errno) else e.error
    }

    constructor ()
      ensures Valid() && Model() == FRESH && stream == [] && slaveResponseResult == null && errno == OK
    {
      slaveAddress, addressBase, header := 0, 0, Header(0, 0, 0, 0, 0);
      slaveResponseResult, onReceiveHandler, onRequestHandler := null, None, None;
      rx, tx, stream, errno := [], [], [], OK;
    }

    method Put(b: byte)
      modifies this`stream
      ensures stream == old(stream) + [b]
    {
      stream := stream + [b];
    }

    /** The loop over the transmit buffer shared by requests and replies. */
    method PutSeptets()
      modifies this`stream
      ensures stream == old(stream) + Encode(tx)
    {
      for i := 0 to |tx|
        invariant stream == old(stream) + Encode(tx[..i])
      {
        EncodeSnoc(tx[..i], tx[i]);
        assert tx[..i + 1] == tx[..i] + [tx[i]];
        Put(tx[i] % 0x80);
        Put(tx[i] / 0x80 % 2);
      }
      assert tx[..|tx|] == tx;
    }

    /** A frame written byte by byte, its payload starting with `a` and `b`. */
    lemma OneFrame(before: seq<byte>, f: Frame, a: byte, b: byte, inner: seq<byte>)
      requires f.Payload() == [a, b] + inner
      ensures before + [START_SYSEX] + [f.Command()] + [a] + [b] + inner + [END_SYSEX] == before + Stream([f])
    {
      StreamCons(f, []);
      assert [f] + [] == [f];
      assert Stream([f]) == [START_SYSEX, f.Command()] + ([a, b] + inner) + [END_SYSEX];
    }

    method Available() returns (n: nat)
      ensures n == |rx|
    {
      n := |rx|;
    }

    method Begin(address: byte)
      requires Valid()
      modifies this
      ensures Did(old(Model()).Perform(I2cCall.Begin(address)))
      ensures 0x08 <= address <= 0x77 ==> slaveAddress == address && stream == old(stream) + [0xF0, 0x78, 0, 0, 0xF7]
    {
      if address >= 0x80 {
        errno := EDOM;
      } else if address <= 0x07 || 0x78 <= address <= 0x7F {
        errno := EDOM;
      } else {
        slaveAddress := address;
        rx := [];
        tx := [];
        OneFrame(stream, Config, 0x00, 0x00, []);
        Put(START_SYSEX);
        Put(I2C_CONFIG);
        Put(0x00);
        Put(0x00);
        assert stream == stream + [];
        Put(END_SYSEX);
      }
    }

    method BeginTransmission(address: byte)
      requires Valid()
      modifies this
      ensures Did(old(Model()).Perform(I2cCall.BeginTransmission(address)))
    {
      if address >= 0x80 {
        errno := EDOM;
      } else {
        header := header.(readMode := 0);
        addressBase := address;
        tx := [];
      }
    }

    method Write(b: byte) returns (n: nat)
      requires Valid()
      modifies this`tx
      ensures Did(old(Model()).Perform(I2cCall.Write(b))) && n == 1
    {
      tx := tx + [b];
      n := 1;
    }

    method EndTransmission(stop: bool)
      requires Valid()
      modifies this`header, this`stream
      ensures Did(old(Model()).Perform(I2cCall.EndTransmission(stop)))
    {
      header := header.(restart := if stop then 0 else 1);
      OneFrame(stream, Request(addressBase, header.Data(), tx), addressBase, header.Data(), Encode(tx));
      Put(START_SYSEX);
      Put(I2C_REQUEST);
      Put(addressBase);
      Put(header.Data());
      PutSeptets();
      Put(END_SYSEX);
    }

    method Flush()
      requires Valid()
      modifies this`stream, this`errno
      ensures Did(old(Model()).Perform(I2cCall.Flush))
    {
      if MASTER_ADDRESS == slaveAddress {
        errno := EBADMSG;
      } else {
        OneFrame(stream, Reply(slaveAddress, tx), slaveAddress % 0x80, slaveAddress / 0x80, Encode(tx));
        Put(START_SYSEX);
        Put(I2C_REPLY);
        Put(slaveAddress % 0x80);
        Put(slaveAddress / 0x80 % 2);
        PutSeptets();
        Put(END_SYSEX);
      }
    }

    method Read() returns (result: int)
      modifies this`rx
      ensures -1 <= result < 0x100
      ensures old(rx) == [] ==> result == -1 && rx == []
      ensures old(rx) != [] ==> result == old(rx)[0] && rx == old(rx)[1..]
      ensures Model() == old(Model()).ReadEffect().endpoint && result == old(Model()).ReadEffect().value
    {
      result := -1;
      if rx != [] {
        result := rx[0];
        rx := rx[1..];
      }
    }

    method End()
      requires Valid()
      modifies this`onReceiveHandler, this`onRequestHandler
      ensures Did(old(Model()).Perform(I2cCall.End))
    {
      onReceiveHandler := None;
      onRequestHandler := None;
    }

    method OnReceive(handler: Option<Signal>)
      requires Valid()
      modifies this`onReceiveHandler
      ensures Did(old(Model()).(onReceive := handler).Stay(OK, 0))
    {
      onReceiveHandler := handler;
    }

    method OnRequest(handler: Option<Signal>)
      requires Valid()
      modifies this`onRequestHandler
      ensures Did(old(Model()).(onRequest := handler).Stay(OK, 0))
    {
      onRequestHandler := handler;
    }

    // ---- The device side of sysexCallback ----

    /** Pushes the decoded pairs from index `start` on, then leaves the rest of the object alone. */
    method PushPairs(argv: seq<byte>, start: nat)
      modifies this`rx
      ensures rx == old(rx) + if start <= |argv| then Decode(argv[start..]) else []
    {
      var i := start;
      while i + 1 < |argv|
        invariant start <= i && (i <= |argv| || i == start)
        invariant i <= |argv| ==> rx + Decode(argv[i..]) == old(rx) + Decode(argv[start..])
        invariant i > |argv| ==> rx == old(rx)
      {
        var i2cByte := JoinSeptets(argv[i], argv[i + 1]);
        assert Decode(argv[i..]) == [i2cByte] + Decode(argv[i + 2..]);
        rx := rx + [i2cByte];
        i := i + 2;
      }
    }

    /**
     A reply fills the receive buffer and signals a waiting `requestFrom` with its size; it throws exactly
     when a reply before it has done so.
     */
    method OnReply(argv: seq<byte>) returns (threw: bool)
      requires Valid() && |argv| >= 2
      modifies this`rx, this`errno, slaveResponseResult
      ensures Valid() && Model() == old(Model()).TakeReply(argv)
      ensures threw <==> slaveResponseResult != null && old(slaveResponseResult.value).Some?
      ensures slaveResponseResult != null ==>
        slaveResponseResult.value == if threw then old(slaveResponseResult.value) else Some(|rx|)
      ensures errno == if HeaderOf(argv[1]).tenBit != 0 then EFAULT else old(errno)
    {
      if HeaderOf(argv[1]).tenBit != 0 {
        errno := EFAULT;
        rx := rx + [argv[0]];
        rx := rx + [argv[1]];
      } else {
        PushPairs(argv, 4);
      }
      threw := false;
      if slaveResponseResult != null {
        threw := slaveResponseResult.SetValue(|rx|);
      }
    }

    method OnI2cRequest(argv: seq<byte>) returns (dispatch: Dispatch)
      requires Valid() && |argv| >= 2
      modifies this`rx, this`errno
      ensures Valid() && Model() == old(Model()).TakeRequest(argv)
      ensures dispatch == old(Model()).Dispatched(argv)
      ensures errno == if slaveAddress == argv[0] % 0x80 then old(errno) else ENXIO
    {
      var readMode := HeaderOf(argv[1]).readMode;
      dispatch := Silent;
      if slaveAddress == argv[0] % 0x80 {
        PushPairs(argv, 2);
        if readMode != 0 && onRequestHandler.Some? {
          dispatch := Requested(onRequestHandler.value);
        } else if readMode == 0 && onReceiveHandler.Some? {
          dispatch := Received(onReceiveHandler.value, |rx|);
        }
      } else {
        errno := ENXIO;
      }
    }

    // ---- The blocking request ----

    lemma QuantitySeptets(quantity: nat)
      ensures Encode([quantity % 0x100]) == [quantity % 0x80, quantity / 0x80 % 2]
    {
      assert [quantity % 0x100][1..] == [];
    }

    /** A request for bytes as it stands on the wire. */
    function RequestBytes(address: byte, quantity: nat, stop: bool): seq<byte> {
      [0xF0, 0x76, address, if stop then 0x08 else 0x48, quantity % 0x80, quantity / 0x80 % 2, 0xF7]
    }

    lemma RequestOnWire(address: byte, quantity: nat, stop: bool)
      ensures Stream([Request(address, if stop then 0x08 else 0x48, [quantity % 0x100])])
           == RequestBytes(address, quantity, stop)
    {
      var frame := Request(address, if stop then 0x08 else 0x48, [quantity % 0x100]);
      QuantitySeptets(quantity);
      StreamCons(frame, []);
      assert [frame] + [] == [frame];
    }

    method PutRequest(quantity: nat)
      requires Valid()
      modifies this`stream
      ensures stream == old(stream) + Stream([Request(addressBase, header.Data(), [quantity % 0x100])])
    {
      QuantitySeptets(quantity);
      OneFrame(stream, Request(addressBase, header.Data(), [quantity % 0x100]), addressBase, header.Data(),
               [quantity % 0x80, quantity / 0x80 % 2]);
      Put(START_SYSEX);
      Put(I2C_REQUEST);
      Put(addressBase);
      Put(header.Data());
      Put(quantity % 0x80);
      Put(quantity / 0x80 % 2);
      Put(END_SYSEX);
    }

    /** Everything up to the wait: the promise is published and the request is on the wire. */
    method OpenRequest(address: byte, quantity: nat, stop: bool) returns (signal: Promise)
      requires Valid() && address < 0x80
      modifies this
      ensures Valid() && fresh(signal) && signal.value == None && slaveResponseResult == signal
      ensures Model() == old(Model()).Perform(I2cCall.RequestFrom(address, quantity, stop)).endpoint
      ensures stream == old(stream) + Stream(old(Model()).Perform(I2cCall.RequestFrom(address, quantity, stop)).frames)
      ensures stream == old(stream) + RequestBytes(address, quantity, stop)
      ensures errno == old(errno)
    {
      signal := new Promise();
      header := header.(restart := if stop then 0 else 1);
      header := header.(readMode := 1);
      addressBase := address;
      rx := [];
      slaveResponseResult := signal;
      PutRequest(quantity);
      RequestFrame(old(Model()), address, quantity, stop);
      RequestOnWire(address, quantity, stop);
    }

    /** The wait has ended: collect the result and withdraw the promise. */
    method CloseRequest(signal: Promise) returns (result: nat)
      requires Valid() && slaveResponseResult == signal
      modifies this`slaveResponseResult, this`errno
      ensures Valid() && slaveResponseResult == null && Model() == old(Model())
      ensures result == if signal.value.Some? then signal.value.value else 0
      ensures errno == if signal.value.Some? then old(errno) else ETIME
    {
      match signal.value {
        case Some(n) => result := n;
        case None => result, errno := 0, ETIME;
      }
      slaveResponseResult := null;
    }

    /** The call as a whole, `reply` being the one reply the serial thread takes during the wait, if any. */
    method RequestFromImpl(address: byte, quantity: nat, stop: bool, reply: Option<seq<byte>>) returns (result: nat)
      requires Valid() && address < 0x80 && (reply.Some? ==> |reply.value| >= 2)
      modifies this
      ensures Valid() && slaveResponseResult == null && tx == old(tx)
      ensures rx == (if reply.Some? then Pushed(reply.value) else []) && result == |rx|
      ensures reply.None? ==> errno == ETIME
      ensures reply.Some? && HeaderOf(reply.value[1]).tenBit == 0 ==> errno == old(errno)
      ensures stream == old(stream) + RequestBytes(address, quantity, stop)
    {
      var signal := OpenRequest(address, quantity, stop);
      ghost var open := Model();
      assert open.rx == [] && open.tx == old(tx);
      if reply.Some? {
        var threw := OnReply(reply.value);
        assert !threw;
        assert Model() == open.TakeReply(reply.value) && open.rx + Pushed(reply.value) == Pushed(reply.value);
      }
      result := CloseRequest(signal);
    }

    method RequestFrom(address: byte, quantity: nat, stop: bool, reply: Option<seq<byte>>) returns (result: nat)
      requires Valid() && (reply.Some? ==> |reply.value| >= 2)
      modifies this
      ensures Valid()
      ensures address >= 0x80 ==> Did(old(Model()).Stay(EDOM, 0)) && result == 0
      ensures address < 0x80 ==>
        && slaveResponseResult == null
        && rx == (if reply.Some? then Pushed(reply.value) else []) && result == |rx|
        && stream == old(stream) + RequestBytes(address, quantity, stop)
    {
      if address >= 0x80 {
        result, errno := 0, EDOM;
      } else {
        result := RequestFromImpl(address, quantity, stop, reply);
      }
    }
  }

  // ---- Clients ----

  /** Reading what is available returns the buffer in order and in full, and then -1. */
  method ReadAll(wire: FirmataI2c) returns (bytes: seq<byte>, last: int)
    modifies wire`rx
    ensures bytes == old(wire.rx) && wire.rx == [] && last == -1
  {
    bytes := [];
    var available := wire.Available();
    while available > 0
      invariant available == |wire.rx| && bytes + wire.rx == old(wire.rx)
    {
      ghost var before, head := wire.rx, bytes;
      var b := wire.Read();
      bytes := bytes + [b];
      ConcatAssociative(head, [b], wire.rx);
      assert before == [b] + wire.rx;
      available := wire.Available();
    }
    last := wire.Read();
  }

  /** A caller gets as many bytes as `requestFrom` announces, and they are the data of the reply. */
  method RequestAndRead(wire: FirmataI2c, address: byte, quantity: nat, stop: bool, reply: seq<byte>)
      returns (n: nat, bytes: seq<byte>, last: int)
    requires wire.Valid() && address < 0x80 && |reply| >= 2
    modifies wire
    ensures wire.Valid() && bytes == Pushed(reply) && n == |bytes| && last == -1
  {
    n := wire.RequestFrom(address, quantity, stop, Some(reply));
    bytes, last := ReadAll(wire);
  }

  /** The bytes between the command and the closing delimiter of the one frame written since `start`. */
  method LastPayload(wire: FirmataI2c, start: nat, ghost frame: Frame) returns (payload: seq<byte>)
    requires start <= |wire.stream| && wire.stream[start..] == Stream([frame])
    ensures payload == frame.Payload()
  {
    StreamCons(frame, []);
    assert [frame] + [] == [frame];
    var written := wire.stream[start..];
    payload := written[2..|written| - 1];
  }

  /** A master opens a request and the slave at the address takes it. */
  method AskSlave(master: FirmataI2c, slave: FirmataI2c, quantity: nat, stop: bool)
      returns (signal: Promise, dispatch: Dispatch)
    requires master.Valid() && slave.Valid() && master != slave
    modifies master, slave`rx, slave`errno
    ensures master.Valid() && fresh(signal) && signal.value == None && master.slaveResponseResult == signal
    ensures master.rx == [] && slave.Model() == old(slave.Model()).(rx := old(slave.rx) + [quantity % 0x100])
    ensures dispatch == if slave.onRequestHandler.Some? then Requested(slave.onRequestHandler.value) else Silent
  {
    var start := |master.stream|;
    signal := master.OpenRequest(slave.slaveAddress, quantity, stop);
    ghost var h := old(master.header).(restart := if stop then 0 else 1, readMode := 1);
    SlaveTakes(slave.Model(), slave.slaveAddress, h, [quantity % 0x100]);
    var request := LastPayload(master, start, Request(slave.slaveAddress, h.Data(), [quantity % 0x100]));
    dispatch := slave.OnI2cRequest(request);
  }

  /** The slave flushes and the master, whose request is open, takes the reply. */
  method AnswerMaster(master: FirmataI2c, slave: FirmataI2c, signal: Promise) returns (n: nat)
    requires master.Valid() && slave.Valid() && master != slave
    requires slave.slaveAddress != MASTER_ADDRESS
    requires master.slaveResponseResult == signal && signal.value == None && master.rx == []
    modifies master, signal, slave`stream, slave`errno
    ensures slave.Model() == old(slave.Model())
    ensures master.rx == (if slave.tx == [] then [] else slave.tx[1..]) && n == |master.rx|
  {
    var start := |slave.stream|;
    slave.Flush();
    ReplyReachesMaster(slave.Model(), master.Model());
    var reply := LastPayload(slave, start, Reply(slave.slaveAddress, slave.tx));
    var threw := master.OnReply(reply);
    n := master.CloseRequest(signal);
  }

  /**
   A master requests bytes from a slave, which runs its request handler, writes `bytes` and flushes: the
   master reads what the slave had queued and wrote, without the first byte, and then -1.
   */
  method SlaveToMaster(master: FirmataI2c, slave: FirmataI2c, quantity: nat, stop: bool, bytes: seq<byte>)
      returns (dispatch: Dispatch, n: nat, received: seq<byte>, last: int)
    requires master.Valid() && slave.Valid() && master != slave
    requires slave.slaveAddress != MASTER_ADDRESS
    modifies master, slave
    ensures slave.onRequestHandler == old(slave.onRequestHandler) && slave.rx == old(slave.rx) + [quantity % 0x100]
    ensures dispatch == if slave.onRequestHandler.Some? then Requested(slave.onRequestHandler.value) else Silent
    ensures var full := old(slave.tx) + bytes; received == if full == [] then [] else full[1..]
    ensures n == |received| && last == -1
  {
    var signal;
    signal, dispatch := AskSlave(master, slave, quantity, stop);
    QueueAll(slave, bytes);
    n := AnswerMaster(master, slave, signal);
    received, last := ReadAll(master);
  }

  method QueueAll(wire: FirmataI2c, bytes: seq<byte>)
    requires wire.Valid()
    modifies wire`tx
    ensures wire.Valid() && wire.tx == old(wire.tx) + bytes
  {
    for i := 0 to |bytes|
      invariant wire.Valid() && wire.tx == old(wire.tx) + bytes[..i]
    {
      var _ := wire.Write(bytes[i]);
    }
    assert bytes[..|bytes|] == bytes;
  }

  /** A master writes `bytes` to a slave object at its address: they arrive behind what it already held. */
  method MasterToSlave(master: FirmataI2c, slave: FirmataI2c, bytes: seq<byte>, stop: bool)
      returns (dispatch: Dispatch)
    requires master.Valid() && slave.Valid() && master != slave
    modifies master, slave
    ensures slave.Valid() && slave.rx == old(slave.rx) + bytes
    ensures dispatch ==
      if slave.onReceiveHandler.Some? then Received(slave.onReceiveHandler.value, |slave.rx|) else Silent
    ensures slave.onReceiveHandler == old(slave.onReceiveHandler)
  {
    var start := |master.stream|;
    master.BeginTransmission(slave.slaveAddress);
    QueueAll(master, bytes);
    assert master.tx == bytes;
    master.EndTransmission(stop);
    SlaveTakes(slave.Model(), slave.slaveAddress, master.header, bytes);
    var request := LastPayload(master, start, Request(slave.slaveAddress, master.header.Data(), bytes));
    dispatch := slave.OnI2cRequest(request);
  }
}
