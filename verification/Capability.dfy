/**
 The payload of a capability response: per pin a list of (mode, resolution) pairs closed by 0x7F.
 `Pins` is the grammar, `PrintPins` the obvious printer; the byte loop of the device is proved
 against `Pins` in module FirmataDevice.
 */
module Capability {
  import opened Basics
  import opened WiringPin

  datatype Ability = Ability(mode: byte, resolution: byte)

  // ---- What one pin's pairs mean ----

  function Mark(info: PinInfo, mode: byte): PinInfo {
    info.(supportedModes := info.supportedModes | FlagOf(mode))
  }

  function Resolve(info: PinInfo, mode: byte, resolution: byte): PinInfo {
    if mode == PIN_MODE_ANALOG then info.(analogReadBits := resolution)
    else if mode == PIN_MODE_PWM then info.(analogWriteBits := resolution)
    else info
  }

  function Describe(abilities: seq<Ability>): PinInfo {
    if abilities == [] then BLANK
    else
      var last := abilities[|abilities| - 1];
      Resolve(Mark(Describe(abilities[..|abilities| - 1]), last.mode), last.mode, last.resolution)
  }

  predicate Offers(abilities: seq<Ability>, mode: byte) {
    exists k :: 0 <= k < |abilities| && abilities[k].mode == mode
  }

  /** `bits` is the resolution listed last for `mode`, or 0 when the mode is not listed. */
  ghost predicate IsLastResolution(abilities: seq<Ability>, mode: byte, bits: byte) {
    if Offers(abilities, mode) then
      exists k :: 0 <= k < |abilities| && abilities[k] == Ability(mode, bits)
                  && forall j :: k < j < |abilities| ==> abilities[j].mode != mode
    else
      bits == 0
  }

  lemma DescribeMeaning(abilities: seq<Ability>)
    ensures forall mode: byte :: FlagOf(mode) != UNSPECIFIED ==>
      (Describe(abilities).Supports(FlagOf(mode)) <==> Offers(abilities, mode))
    ensures IsLastResolution(abilities, PIN_MODE_ANALOG, Describe(abilities).analogReadBits)
    ensures IsLastResolution(abilities, PIN_MODE_PWM, Describe(abilities).analogWriteBits)
    ensures Describe(abilities).reserved == 0
  {
    DescribeModes(abilities);
    DescribeResolutions(abilities);
  }

  lemma {:induction false} DescribeModes(abilities: seq<Ability>)
    ensures forall mode: byte :: FlagOf(mode) != UNSPECIFIED ==>
      (Describe(abilities).Supports(FlagOf(mode)) <==> Offers(abilities, mode))
  {
    if abilities == [] {
    } else {
      var n := |abilities| - 1;
      var init, last := abilities[..n], abilities[n];
      DescribeModes(init);
      assert init + [last] == abilities;
      forall mode: byte | FlagOf(mode) != UNSPECIFIED
        ensures Describe(abilities).Supports(FlagOf(mode)) <==> Offers(abilities, mode)
      {
        SupportsUnion(Describe(init).supportedModes, FlagOf(last.mode), FlagOf(mode));
        OffersSnoc(init, last, mode);
      }
    }
  }

  lemma {:induction false} DescribeResolutions(abilities: seq<Ability>)
    ensures IsLastResolution(abilities, PIN_MODE_ANALOG, Describe(abilities).analogReadBits)
    ensures IsLastResolution(abilities, PIN_MODE_PWM, Describe(abilities).analogWriteBits)
    ensures Describe(abilities).reserved == 0
  {
    if abilities == [] {
    } else {
      var n := |abilities| - 1;
      var init, last := abilities[..n], abilities[n];
      DescribeResolutions(init);
      assert init + [last] == abilities;
      LastResolutionSnoc(init, last, PIN_MODE_ANALOG, Describe(init).analogReadBits);
      LastResolutionSnoc(init, last, PIN_MODE_PWM, Describe(init).analogWriteBits);
    }
  }

  lemma OffersSnoc(init: seq<Ability>, last: Ability, mode: byte)
    ensures Offers(init + [last], mode) <==> Offers(init, mode) || last.mode == mode
  {
    var all := init + [last];
    assert all[|init|] == last;
    if Offers(init, mode) {
      var k :| 0 <= k < |init| && init[k].mode == mode;
      assert all[k].mode == mode;
    }
  }

  lemma LastResolutionSnoc(init: seq<Ability>, last: Ability, mode: byte, bits: byte)
    requires IsLastResolution(init, mode, bits)
    ensures IsLastResolution(init + [last], mode, if last.mode == mode then last.resolution else bits)
  {
    var all := init + [last];
    OffersSnoc(init, last, mode);
    assert all[|init|] == last;
    if last.mode != mode && Offers(init, mode) {
      var k :| 0 <= k < |init| && init[k] == Ability(mode, bits)
               && forall j :: k < j < |init| ==> init[j].mode != mode;
      assert all[k] == Ability(mode, bits);
    }
  }

  // ---- Grammar and printer ----

  /**
   The pins that `s` completes when `current` has already been read of the first one: a terminator
   in mode position closes a pin, in resolution position it is data, an unfinished pin is dropped.
   */
  function Pins(current: seq<Ability>, s: seq<byte>): seq<seq<Ability>>
    decreases |s|
  {
    if s == [] then []
    else if s[0] == PIN_MODE_IGNORE then [current] + Pins([], s[1..])
    else if |s| == 1 then []
    else Pins(current + [Ability(s[0], s[1])], s[2..])
  }

  /** The tail of `s` that belongs to no completed pin. */
  function Unfinished(current: seq<Ability>, s: seq<byte>): seq<byte>
    decreases |s|
  {
    if s == [] then PrintAbilities(current)
    else if s[0] == PIN_MODE_IGNORE then Unfinished([], s[1..])
    else if |s| == 1 then PrintAbilities(current) + s
    else Unfinished(current + [Ability(s[0], s[1])], s[2..])
  }

  function PrintAbilities(abilities: seq<Ability>): seq<byte> {
    if abilities == [] then [] else [abilities[0].mode, abilities[0].resolution] + PrintAbilities(abilities[1..])
  }

  function PrintPins(pins: seq<seq<Ability>>): seq<byte> {
    if pins == [] then [] else PrintAbilities(pins[0]) + [PIN_MODE_IGNORE] + PrintPins(pins[1..])
  }

  /** No pair starts with the terminator, the one mode the format cannot express. */
  predicate Printable(abilities: seq<Ability>) {
    forall k :: 0 <= k < |abilities| ==> abilities[k].mode != PIN_MODE_IGNORE
  }

  lemma {:induction false} PinsReadsPrintedPin(current: seq<Ability>, abilities: seq<Ability>, rest: seq<byte>)
    requires Printable(abilities)
    ensures Pins(current, PrintAbilities(abilities) + [PIN_MODE_IGNORE] + rest) == [current + abilities] + Pins([], rest)
    decreases |abilities|
  {
    var s := PrintAbilities(abilities) + [PIN_MODE_IGNORE] + rest;
    if abilities == [] {
      assert s[1..] == rest;
      assert current + abilities == current;
    } else {
      var head, tail := abilities[0], abilities[1..];
      assert s == [head.mode, head.resolution] + (PrintAbilities(tail) + [PIN_MODE_IGNORE] + rest);
      assert s[2..] == PrintAbilities(tail) + [PIN_MODE_IGNORE] + rest;
      assert Printable(tail);
      PinsReadsPrintedPin(current + [head], tail, rest);
      assert current + [head] + tail == current + abilities;
    }
  }

  /** Parsing inverts printing. */
  lemma {:induction false} ParseOfPrint(pins: seq<seq<Ability>>)
    requires forall k :: 0 <= k < |pins| ==> Printable(pins[k])
    ensures Pins([], PrintPins(pins)) == pins
  {
    if pins != [] {
      PinsReadsPrintedPin([], pins[0], PrintPins(pins[1..]));
      ParseOfPrint(pins[1..]);
      assert [] + pins[0] == pins[0];
    }
  }

  lemma {:induction false} PrintAbilitiesSnoc(init: seq<Ability>, last: Ability)
    ensures PrintAbilities(init + [last]) == PrintAbilities(init) + [last.mode, last.resolution]
  {
    if init != [] {
      PrintAbilitiesSnoc(init[1..], last);
      assert (init + [last])[1..] == init[1..] + [last];
    }
  }

  lemma {:induction false} PrintOfParseFrom(current: seq<Ability>, s: seq<byte>)
    ensures PrintPins(Pins(current, s)) + Unfinished(current, s) == PrintAbilities(current) + s
    decreases |s|
  {
    if s == [] {
    } else if s[0] == PIN_MODE_IGNORE {
      PrintOfParseFrom([], s[1..]);
      var later, tail := PrintPins(Pins([], s[1..])), Unfinished([], s[1..]);
      assert later + tail == s[1..];
      assert Pins(current, s)[1..] == Pins([], s[1..]);
      assert PrintPins(Pins(current, s)) == PrintAbilities(current) + [PIN_MODE_IGNORE] + later;
      ConcatAssociative(PrintAbilities(current) + [PIN_MODE_IGNORE], later, tail);
      ConcatAssociative(PrintAbilities(current), [PIN_MODE_IGNORE], s[1..]);
      assert s == [PIN_MODE_IGNORE] + s[1..];
    } else if |s| > 1 {
      var next := Ability(s[0], s[1]);
      PrintOfParseFrom(current + [next], s[2..]);
      PrintAbilitiesSnoc(current, next);
      assert s == [next.mode, next.resolution] + s[2..];
      ConcatAssociative(PrintAbilities(current), [next.mode, next.resolution], s[2..]);
    }
  }

  lemma {:induction false} PinsArePrintable(current: seq<Ability>, s: seq<byte>)
    requires Printable(current)
    ensures forall k :: 0 <= k < |Pins(current, s)| ==> Printable(Pins(current, s)[k])
    decreases |s|
  {
    if s == [] {
    } else if s[0] == PIN_MODE_IGNORE {
      PinsArePrintable([], s[1..]);
    } else if |s| > 1 {
      PinsArePrintable(current + [Ability(s[0], s[1])], s[2..]);
    }
  }

  /** Every byte string is the printed form of its completed pins followed by one unfinished pin. */
  lemma PrintOfParse(s: seq<byte>)
    ensures PrintPins(Pins([], s)) + Unfinished([], s) == s
    ensures forall k :: 0 <= k < |Pins([], s)| ==> Printable(Pins([], s)[k])
    ensures Pins([], Unfinished([], s)) == []
  {
    PrintOfParseFrom([], s);
    PinsArePrintable([], s);
    UnfinishedIsEmpty([], s);
  }

  lemma {:induction false} UnfinishedIsEmpty(current: seq<Ability>, s: seq<byte>)
    requires Printable(current)
    ensures Pins([], Unfinished(current, s)) == []
    decreases |s|
  {
    if s == [] {
      PinsSkipsAbilities([], current, []);
      assert PrintAbilities(current) + [] == PrintAbilities(current);
    } else if s[0] == PIN_MODE_IGNORE {
      UnfinishedIsEmpty([], s[1..]);
    } else if |s| == 1 {
      PinsSkipsAbilities([], current, s);
    } else {
      UnfinishedIsEmpty(current + [Ability(s[0], s[1])], s[2..]);
    }
  }

  lemma {:induction false} PinsSkipsAbilities(current: seq<Ability>, abilities: seq<Ability>, rest: seq<byte>)
    requires Printable(abilities)
    ensures Pins(current, PrintAbilities(abilities) + rest) == Pins(current + abilities, rest)
    decreases |abilities|
  {
    var s := PrintAbilities(abilities) + rest;
    if abilities == [] {
      assert s == rest && current + abilities == current;
    } else {
      var head, tail := abilities[0], abilities[1..];
      assert s == [head.mode, head.resolution] + (PrintAbilities(tail) + rest);
      assert s[2..] == PrintAbilities(tail) + rest;
      assert Printable(tail);
      PinsSkipsAbilities(current + [head], tail, rest);
      assert current + [head] + tail == current + abilities;
    }
  }

  function DescribeAll(pins: seq<seq<Ability>>): (infos: seq<PinInfo>)
    ensures |infos| == |pins|
    ensures forall k :: 0 <= k < |pins| ==> infos[k] == Describe(pins[k])
  {
    seq(|pins|, k requires 0 <= k < |pins| => Describe(pins[k]))
  }
}
