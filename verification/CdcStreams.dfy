/** The CDC bootloader's byte streams and packets, and its address counter, in every run. */
module CdcStreams {
  import opened Chips
  import opened Endpoints
  import opened Cdc

  /** A fetched byte is the next byte of the stream, however the host cut it into packets. */
  lemma {:induction false} FetchIsStream(rx: Rx)
    requires rx.Stream() != []
    ensures Fetch(rx).0 == rx.Stream()[0] && Fetch(rx).1.Stream() == rx.Stream()[1..]
    decreases |rx.queue|
  {
    if rx.bank != [] {
      assert rx.bank[1..] + Flatten(rx.queue) == rx.Stream()[1..];
    } else {
      assert rx.Stream() == Flatten(rx.queue) && rx.queue != [];
      assert rx.Next().Stream() == rx.Stream();
      FetchIsStream(rx.Next());
    }
  }

  lemma {:induction false} FetchManyIsStream(rx: Rx, n: nat)
    requires n <= |rx.Stream()|
    ensures FetchMany(rx, n).0 == rx.Stream()[..n] && FetchMany(rx, n).1.Stream() == rx.Stream()[n..]
    decreases n
  {
    if n > 0 {
      hide Fetch, Rx.Stream;
      FetchIsStream(rx);
      FetchManyIsStream(Fetch(rx).1, n - 1);
      assert rx.Stream()[..n] == [rx.Stream()[0]] + rx.Stream()[1..][..n - 1];
    }
  }

  /** Full packets and then exactly one short one. */
  ghost predicate Terminated(ps: seq<Packet>) {
    && ps != [] && |ps[|ps| - 1]| < PACKET_SIZE
    && forall i :: 0 <= i < |ps| - 1 ==> |ps[i]| == PACKET_SIZE
  }

  lemma {:induction false} PacketsFull(size: nat, bytes: seq<byte>)
    requires 0 < size
    ensures var ps := Packets(size, bytes);
            && |ps[|ps| - 1]| <= size
            && forall i :: 0 <= i < |ps| - 1 ==> |ps[i]| == size
  {
    if |bytes| > size {
      PacketsFull(size, bytes[size..]);
    }
  }

  lemma {:induction false} FlattenAppend(ps: seq<Packet>, p: Packet)
    ensures Flatten(ps + [p]) == Flatten(ps) + p
    decreases |ps|
  {
    if ps == [] {
      assert ps + [p] == [p] && [p][1..] == [];
      assert Flatten([p]) == p + Flatten([]);
    } else {
      assert (ps + [p])[1..] == ps[1..] + [p];
      FlattenAppend(ps[1..], p);
    }
  }

  /** A response reaches the host whole, in full packets and one short packet that ends it. */
  lemma ResponsePackets(bytes: seq<byte>)
    ensures Terminated(Transfer(bytes)) && Flatten(Transfer(bytes)) == bytes
  {
    hide Packets, Flatten;
    PacketsFull(PACKET_SIZE, bytes);
    FlattenPackets(PACKET_SIZE, bytes);
    FlattenAppend(Packets(PACKET_SIZE, bytes), []);
  }

  /** Every command that a packet delivers is answered by one such transfer of its response. */
  lemma TaskAnswers(s: State, packets: seq<Packet>)
    requires s.chip.Valid() && packets != []
    ensures var (command, rx) := Fetch(Rx(packets[0], packets[1..]));
            Terminated(Task(s, packets).sent) && Flatten(Task(s, packets).sent) == Execute(s, command, rx).response
  {
    hide Execute, Transfer;
    var (command, rx) := Fetch(Rx(packets[0], packets[1..]));
    ResponsePackets(Execute(s, command, rx).response);
  }

  // The address counter

  lemma {:induction false} SkipEven(a: uint32, n: nat)
    requires a % 2 == 0
    ensures Skip(a, n) % 2 == 0
    decreases n
  {
    if n > 0 {
      AddTwoEven(a);
      SkipEven(Add32(a, 2), n - 1);
    }
  }

  lemma AddTwoEven(a: uint32)
    requires a % 2 == 0
    ensures Add32(a, 2) % 2 == 0
  {
  }

  lemma CommandAddressEven(hi: byte, lo: byte)
    ensures CommandAddress(hi, lo) % 2 == 0
  {
    assert 0x200 * hi % 0x1_0000 == 0x200 * (hi % 0x80) by {
      assert 0x200 * hi == 0x1_0000 * (hi / 0x80) + 0x200 * (hi % 0x80);
    }
  }

  lemma ExecuteEven(s: State, command: byte, rx: Rx)
    requires s.chip.Valid() && s.currAddress % 2 == 0
    ensures Execute(s, command, rx).state.currAddress % 2 == 0
  {
    hide FetchMany, Fetch, Skip, CommandAddress, Add32, FixedReply, ReadWords, ReadEepromBlock, WriteEepromBlock, LoadWords;
    hide Chip.Fill, Chip.Commit, Chip.Erase, Chip.WriteEeprom, EepromAddress;
    AddTwoEven(s.currAddress);
    var head := FetchMany(rx, 3).0;
    var n: nat := Word(head[1], head[0]);
    SkipEven(s.currAddress, n / 2);
    SkipEven(s.currAddress, n);
    var b := FetchMany(rx, 2).0;
    CommandAddressEven(b[0], b[1]);
  }

  function Run(s: State, inputs: seq<seq<Packet>>): (t: State)
    requires s.chip.Valid()
    ensures t.chip.Valid()
    decreases |inputs|
  {
    if inputs == [] then s else Run(Task(s, inputs[0]).state, inputs[1..])
  }

  /** In every run the address counter stays even. */
  lemma {:induction false} CounterEven(s: State, inputs: seq<seq<Packet>>)
    requires s.chip.Valid() && s.currAddress % 2 == 0
    ensures Run(s, inputs).currAddress % 2 == 0
    decreases |inputs|
  {
    if inputs != [] {
      hide Execute, Transfer;
      if inputs[0] != [] {
        var (command, rx) := Fetch(Rx(inputs[0][0], inputs[0][1..]));
        ExecuteEven(s, command, rx);
      }
      CounterEven(Task(s, inputs[0]).state, inputs[1..]);
    }
  }

  // Flash addresses wrap

  lemma {:induction false} WrapShift(part: Part, a: nat, d: nat)
    requires 0 < part.flashSize && part.Wrap(d) == 0
    ensures part.Wrap(a + d) == part.Wrap(a)
    decreases d
  {
    if d >= part.flashSize {
      WrapShift(part, a, d - part.flashSize);
    }
  }

  /** The sum of the first `n` doublings of a number. */
  function Doublings(x: nat, n: nat): nat {
    if n == 0 then 0 else 2 * Doublings(x, n - 1) + x
  }

  lemma {:induction false} WrapDoublings(part: Part, x: nat, n: nat)
    requires 0 < part.flashSize && part.Wrap(x) == 0
    ensures part.Wrap(Doublings(x, n)) == 0
  {
    if n > 0 {
      var d := Doublings(x, n - 1);
      WrapDoublings(part, x, n - 1);
      WrapShift(part, d, d);
      WrapShift(part, 2 * d, x);
    }
  }

  lemma DoublingsValues(x: nat)
    ensures Doublings(x, 15) == 0x7FFF * x && Doublings(x, 16) == 0xFFFF * x
  {
    assert Doublings(x, 1) == 0x1 * x;
    assert Doublings(x, 2) == 0x3 * x;
    assert Doublings(x, 3) == 0x7 * x;
    assert Doublings(x, 4) == 0xF * x;
    assert Doublings(x, 5) == 0x1F * x;
    assert Doublings(x, 6) == 0x3F * x;
    assert Doublings(x, 7) == 0x7F * x;
    assert Doublings(x, 8) == 0xFF * x;
    assert Doublings(x, 9) == 0x1FF * x;
    assert Doublings(x, 10) == 0x3FF * x;
    assert Doublings(x, 11) == 0x7FF * x;
    assert Doublings(x, 12) == 0xFFF * x;
    assert Doublings(x, 13) == 0x1FFF * x;
    assert Doublings(x, 14) == 0x3FFF * x;
    assert Doublings(x, 15) == 0x7FFF * x;
  }

  lemma WrapWhole(part: Part)
    requires part.flashSize == 0x2000 || part.flashSize == 0x4000 || part.flashSize == 0x8000 || part.flashSize == 0x1_0000
    ensures part.Wrap(0x1_0000) == 0
  {
    var m := part.flashSize;
    assert part.Wrap(m) == part.Wrap(0) == 0;
    WrapShift(part, m, m);
    WrapShift(part, 2 * m, 2 * m);
    WrapShift(part, 4 * m, 4 * m);
  }

  lemma WrapSelf(part: Part)
    requires 0 < part.flashSize
    ensures part.Wrap(part.flashSize) == 0
  {
    assert part.Wrap(0) == 0;
  }

  lemma CommandAddressValue(hi: byte, lo: byte)
    ensures var k := 0x200 * (hi % 0x80) + 2 * lo;
            && CommandAddress(hi, lo) == (if k < 0x8000 then k else 0xFFFF_0000 + k)
            && 2 * Word(lo, hi) == 0x1_0000 * (hi / 0x80) + k
            && (k < 0x8000 <==> hi % 0x80 < 0x40)
  {
    assert 0x200 * hi % 0x1_0000 == 0x200 * (hi % 0x80) by {
      assert 0x200 * hi == 0x1_0000 * (hi / 0x80) + 0x200 * (hi % 0x80);
    }
  }

  /** The flash sizes of the supported parts. */
  predicate KnownSize(part: Part) {
    || part.flashSize == 0x2000 || part.flashSize == 0x4000 || part.flashSize == 0x8000
    || part.flashSize == 0x1_0000 || part.flashSize == 0x2_0000
  }

  /** Where a word address given by the host ends up in flash: right on parts up to 64 KB, and on
      128 KB parts exactly for the lowest and the highest quarter of the addresses. */
  lemma AddressExactly(part: Part, hi: byte, lo: byte)
    requires KnownSize(part)
    ensures part.Wrap(CommandAddress(hi, lo)) == part.Wrap(2 * Word(lo, hi))
            <==> part.flashSize != 0x2_0000 || hi < 0x40 || hi >= 0xC0
  {
    hide CommandAddress, Word, Doublings, Part.Wrap;
    CommandAddressValue(hi, lo);
    var k := 0x200 * (hi % 0x80) + 2 * lo;
    if part.flashSize != 0x2_0000 {
      WrapWhole(part);
      WrapDoublings(part, 0x1_0000, 16);
      DoublingsValues(0x1_0000);
      WrapShift(part, k, 0xFFFF_0000);
      WrapShift(part, k, 0x1_0000);
    } else {
      WrapSelf(part);
      WrapDoublings(part, 0x2_0000, 15);
      DoublingsValues(0x2_0000);
      WrapShift(part, 0x1_0000 + k, 0xFFFE_0000);
      part.WrapSmall(k);
      part.WrapSmall(0x1_0000 + k);
    }
  }

  /** On a 128 KB part the host's byte address 0x8000 selects 0x18000. */
  lemma HighAddressMissed(part: Part)
    requires part.flashSize == 0x2_0000
    ensures 2 * Word(0, 0x40) == 0x8000 && part.Wrap(CommandAddress(0x40, 0)) == 0x1_8000
  {
    hide Part.Wrap, Doublings;
    WrapSelf(part);
    WrapDoublings(part, 0x2_0000, 15);
    DoublingsValues(0x2_0000);
    WrapShift(part, 0x1_8000, 0xFFFE_0000);
    part.WrapSmall(0x1_8000);
  }
}
