/** I2C messages inside Firmata sysex frames: two septets a byte, a bit-field header, delimiters above 0x7F. */
module I2cFrames {
  import opened Basics

  const START_SYSEX: byte := 0xF0
  const END_SYSEX: byte := 0xF7
  const I2C_REQUEST: byte := 0x76
  const I2C_REPLY: byte := 0x77
  const I2C_CONFIG: byte := 0x78

  // ---- The header ----

  /** `i2c_config_t`, least significant field first. */
  datatype Header = Header(addressExt: nat, readMode: nat, tenBit: nat, restart: nat, reserved: nat)
  {
    predicate Valid() {
      addressExt < 8 && readMode < 4 && tenBit < 2 && restart < 2 && reserved < 2
    }

    /** The byte view of the union. */
    function Data(): byte
      requires Valid()
    {
      addressExt + 8 * readMode + 32 * tenBit + 64 * restart + 128 * reserved
    }
  }

  function HeaderOf(data: byte): (h: Header)
    ensures h.Valid()
  {
    Header(data % 8, data / 8 % 4, data / 32 % 2, data / 64 % 2, data / 128)
  }

  /** The two views of the union agree. */
  lemma FieldsOfData(h: Header)
    requires h.Valid()
    ensures HeaderOf(h.Data()) == h
  {
    var d := h.Data();
    var q128 := h.reserved;
    var q64 := 2 * q128 + h.restart;
    var q32 := 2 * q64 + h.tenBit;
    var q8 := 4 * q32 + h.readMode;
    QuotientAndRemainder(d, 8, q8, h.addressExt);
    QuotientAndRemainder(q8, 4, q32, h.readMode);
    QuotientAndRemainder(d, 32, q32, 8 * h.readMode + h.addressExt);
    QuotientAndRemainder(q32, 2, q64, h.tenBit);
    QuotientAndRemainder(d, 64, q64, 32 * h.tenBit + 8 * h.readMode + h.addressExt);
    QuotientAndRemainder(q64, 2, q128, h.restart);
    QuotientAndRemainder(d, 128, q128, 64 * h.restart + 32 * h.tenBit + 8 * h.readMode + h.addressExt);
  }

  lemma DataOfFields(data: byte)
    ensures HeaderOf(data).Data() == data
  {
    assert data / 32 == data / 8 / 4 && data / 64 == data / 32 / 2 && data / 128 == data / 64 / 2;
  }

  // ---- Two septets a byte ----

  /** `low | ((high << 7) & 0x80)`. */
  function JoinSeptets(low: byte, high: byte): byte {
    if high % 2 == 1 && low < 0x80 then low + 0x80 else low
  }

  function Encode(bytes: seq<byte>): seq<byte> {
    if bytes == [] then [] else [bytes[0] % 0x80, bytes[0] / 0x80] + Encode(bytes[1..])
  }

  /** Pairs of septets; a last odd one is dropped. */
  function Decode(septets: seq<byte>): seq<byte> {
    if |septets| < 2 then [] else [JoinSeptets(septets[0], septets[1])] + Decode(septets[2..])
  }

  lemma {:induction false} EncodeMeaning(bytes: seq<byte>)
    ensures Decode(Encode(bytes)) == bytes && |Encode(bytes)| == 2 * |bytes|
    ensures forall k :: 0 <= k < |Encode(bytes)| ==> Encode(bytes)[k] < 0x80
  {
    if bytes != [] {
      EncodeMeaning(bytes[1..]);
      assert Encode(bytes)[2..] == Encode(bytes[1..]);
    }
  }

  /** The low septet of a byte comes first. */
  lemma {:induction false} EncodeAt(bytes: seq<byte>, k: nat)
    requires k < |bytes|
    ensures |Encode(bytes)| == 2 * |bytes|
    ensures Encode(bytes)[2 * k] == bytes[k] % 0x80 && Encode(bytes)[2 * k + 1] == bytes[k] / 0x80
  {
    EncodeMeaning(bytes);
    if k > 0 {
      EncodeAt(bytes[1..], k - 1);
    }
  }

  lemma {:induction false} EncodeSnoc(bytes: seq<byte>, last: byte)
    ensures Encode(bytes + [last]) == Encode(bytes) + [last % 0x80, last / 0x80]
  {
    if bytes == [] {
      assert [last][1..] == [];
    } else {
      EncodeSnoc(bytes[1..], last);
      assert (bytes + [last])[1..] == bytes[1..] + [last];
    }
  }

  // ---- Frames ----

  datatype Frame =
    | Config
    | Request(address: byte, header: byte, data: seq<byte>)
    | Reply(sender: byte, answer: seq<byte>)
  {
    /** What the guards of TwoWire and the header layout leave possible. */
    predicate WellFormed() {
      match this
      case Config => true
      case Request(address, header, _) =>
        address < 0x80 && (header == 0x00 || header == 0x08 || header == 0x40 || header == 0x48)
      case Reply(sender, _) => sender < 0x80
    }

    function Command(): byte {
      match this
      case Config => I2C_CONFIG
      case Request(_, _, _) => I2C_REQUEST
      case Reply(_, _) => I2C_REPLY
    }

    /** The bytes between the command and the closing delimiter. */
    function Payload(): seq<byte> {
      match this
      case Config => [0x00, 0x00]
      case Request(address, header, data) => [address, header] + Encode(data)
      case Reply(sender, answer) => [sender % 0x80, sender / 0x80] + Encode(answer)
    }

    function Bytes(): seq<byte> {
      [START_SYSEX, Command()] + Payload() + [END_SYSEX]
    }
  }

  function Stream(frames: seq<Frame>): seq<byte> {
    if frames == [] then [] else frames[0].Bytes() + Stream(frames[1..])
  }

  /** What a receiver makes of a command and its payload. */
  function FrameOf(command: byte, payload: seq<byte>): Option<Frame> {
    if |payload| < 2 then None
    else if command == I2C_CONFIG then Some(Config)
    else if command == I2C_REQUEST then Some(Request(payload[0], payload[1], Decode(payload[2..])))
    else if command == I2C_REPLY then Some(Reply(JoinSeptets(payload[0], payload[1]), Decode(payload[2..])))
    else None
  }

  /** The first delimiter at or after `from`. */
  function EndOfFrame(s: seq<byte>, from: nat): (end: nat)
    requires from <= |s|
    ensures from <= end <= |s|
    decreases |s| - from
  {
    if from == |s| || s[from] >= 0x80 then from else EndOfFrame(s, from + 1)
  }

  /** Splits a stream at its delimiters and reads each frame; `None` when it is not a stream of frames. */
  function Split(s: seq<byte>): Option<seq<Frame>>
    decreases |s|
  {
    if s == [] then Some([])
    else if s[0] != START_SYSEX || |s| < 2 then None
    else
      var end := EndOfFrame(s, 1);
      if end == |s| || end < 2 || s[end] != END_SYSEX then None
      else
        var frame, rest := FrameOf(s[1], s[2..end]), Split(s[end + 1..]);
        if frame.None? || rest.None? then None else Some([frame.value] + rest.value)
  }

  lemma PayloadMeaning(f: Frame)
    requires f.WellFormed()
    ensures FrameOf(f.Command(), f.Payload()) == Some(f)
    ensures forall k :: 0 <= k < |f.Payload()| ==> f.Payload()[k] < 0x80
  {
    match f {
      case Config =>
      case Request(_, _, data) =>
        EncodeMeaning(data);
        assert f.Payload()[2..] == Encode(data);
      case Reply(_, answer) =>
        EncodeMeaning(answer);
        assert f.Payload()[2..] == Encode(answer);
    }
  }

  lemma {:induction false} EndOfFrameFinds(s: seq<byte>, from: nat, end: nat)
    requires from <= end < |s| && s[end] >= 0x80 && forall k :: from <= k < end ==> s[k] < 0x80
    ensures EndOfFrame(s, from) == end
    decreases end - from
  {
    if from < end {
      EndOfFrameFinds(s, from + 1, end);
    }
  }

  lemma SplitTakesFrame(f: Frame, rest: seq<byte>)
    requires f.WellFormed() && Split(rest).Some?
    ensures Split(f.Bytes() + rest) == Some([f] + Split(rest).value)
  {
    var s := f.Bytes() + rest;
    var end := 2 + |f.Payload()|;
    PayloadMeaning(f);
    assert |f.Bytes()| == end + 1 && f.Bytes()[2..end] == f.Payload();
    assert s[2..end] == f.Payload();
    assert s[end] == END_SYSEX;
    assert s[end + 1..] == rest;
    assert forall k :: 2 <= k < end ==> s[k] == f.Payload()[k - 2];
    EndOfFrameFinds(s, 1, end);
  }

  /** A stream of well-formed frames splits back into exactly those frames. */
  lemma {:induction false} SplitOfStream(frames: seq<Frame>)
    requires forall k :: 0 <= k < |frames| ==> frames[k].WellFormed()
    ensures Split(Stream(frames)) == Some(frames)
  {
    if frames != [] {
      SplitOfStream(frames[1..]);
      SplitTakesFrame(frames[0], Stream(frames[1..]));
      assert frames == [frames[0]] + frames[1..];
    }
  }

  lemma StreamCons(f: Frame, frames: seq<Frame>)
    ensures Stream([f] + frames) == f.Bytes() + Stream(frames)
  {
    assert ([f] + frames)[1..] == frames;
  }

  lemma {:induction false} StreamConcat(xs: seq<Frame>, ys: seq<Frame>)
    ensures Stream(xs + ys) == Stream(xs) + Stream(ys)
  {
    if xs == [] {
      assert xs + ys == ys;
    } else {
      var f, tail := xs[0], xs[1..];
      assert xs + ys == [f] + (tail + ys) && xs == [f] + tail;
      var bytes := f.Bytes();
      calc {
        Stream(xs + ys);
        { StreamCons(f, tail + ys); }
        bytes + Stream(tail + ys);
        { StreamConcat(tail, ys); }
        bytes + (Stream(tail) + Stream(ys));
        { ConcatAssociative(bytes, Stream(tail), Stream(ys)); }
        bytes + Stream(tail) + Stream(ys);
        { StreamCons(f, tail); }
        Stream(xs) + Stream(ys);
      }
    }
  }
}
