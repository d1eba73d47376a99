/** Programming and reading back memory with AVR109 block commands. */
module CdcProgramming {
  import opened Chips
  import opened Programming
  import opened Endpoints
  import opened Cdc
  import opened CdcStreams

  // Addresses beyond flash select the same cells as the addresses they wrap to

  lemma {:induction false} WrapAdd(part: Part, a: nat, k: nat)
    requires 0 < part.flashSize && part.Wrap(a) + k < part.flashSize
    ensures part.Wrap(a + k) == part.Wrap(a) + k
    decreases a
  {
    if a >= part.flashSize {
      WrapAdd(part, a - part.flashSize, k);
    }
  }

  lemma {:induction false} WrapOffset(part: Part, a: nat)
    requires part.Valid()
    ensures part.Offset(part.Wrap(a)) == part.Offset(a)
    decreases a
  {
    if a >= part.flashSize {
      WrapOffset(part, a - part.flashSize);
      part.OffsetFrom(part.flashSize, a - part.flashSize);
      part.OffsetFrom(0, a - part.flashSize);
    }
  }

  lemma WrapParity(part: Part, a: nat)
    requires part.Valid() && a % 2 == 0
    ensures part.Wrap(a) % 2 == 0
  {
    WrapOffset(part, a);
    part.OffsetParity(a);
    part.OffsetParity(part.Wrap(a));
  }

  lemma WrapTwice(part: Part, a: nat)
    requires part.Valid()
    ensures part.Wrap(part.Wrap(a)) == part.Wrap(a) && part.Page(part.Wrap(a)) == part.Page(a)
  {
  }

  /** The next `n` bytes at the counter are those from flash address `at` on. */
  ghost predicate At(s: State, at: nat, n: nat) {
    && s.chip.Valid() && s.currAddress % 2 == 0
    && (n > 0 ==> s.chip.part.Wrap(s.currAddress) == at) && at + n <= s.chip.part.flashSize
    && s.currAddress + n <= 0x1_0000_0000
  }

  lemma FillWrapped(c: Chip, a: nat, lo: byte, hi: byte)
    requires c.Valid() && a % 2 == 0
    ensures c.Fill(a, lo, hi) == c.Fill(c.part.Wrap(a), lo, hi)
  {
    hide Part.Offset, Part.Wrap, Splice;
    WrapOffset(c.part, a);
    WrapParity(c.part, a);
  }

  lemma AddTwo(a: uint32)
    ensures a % 2 == 0 ==> (a + 2) % 2 == 0
    ensures a + 2 < 0x1_0000_0000 ==> Add32(a, 2) == a + 2
  {
  }

  lemma {:induction false} LoadWordsFill(c: Chip, a: uint32, data: seq<byte>)
    requires c.Valid() && a % 2 == 0 && |data| % 2 == 0 && a + |data| <= 0x1_0000_0000
    requires c.part.Wrap(a) + |data| <= c.part.flashSize
    ensures LoadWords(c, a, data) == FillAll(c, c.part.Wrap(a), data)
    decreases |data|
  {
    hide Part.Wrap, Part.Valid, Chip.Fill, Add32;
    if |data| >= 2 {
      FillWrapped(c, a, data[0], data[1]);
      var next := c.Fill(a, data[0], data[1]);
      AddTwo(a);
      if |data| > 2 {
        WrapAdd(c.part, a, 2);
        LoadWordsFill(next, a + 2, data[2..]);
      } else {
        assert data[2..] == [];
      }
    }
  }

  lemma {:induction false} SkipAt(a: uint32, n: nat)
    requires a + 2 * n <= 0x1_0000_0000
    ensures Skip(a, n) == if a + 2 * n < 0x1_0000_0000 then a + 2 * n else 0
    decreases n
  {
    if n > 1 {
      SkipAt(a + 2, n - 1);
    }
  }

  lemma SliceWord(s: seq<byte>, at: nat, n: nat)
    requires 2 <= n && at + n <= |s|
    ensures s[at..at + n] == [s[at], s[at + 1]] + s[at + 2..at + n]
  {
  }

  lemma {:induction false} ReadWordsFlash(c: Chip, a: uint32, words: nat)
    requires c.Valid() && a + 2 * words <= 0x1_0000_0000 && c.part.Wrap(a) + 2 * words <= c.part.flashSize
    ensures ReadWords(c, a, 2 * words) == c.flash[c.part.Wrap(a)..c.part.Wrap(a) + 2 * words]
    decreases words
  {
    hide Part.Wrap, Part.Valid, Add32;
    AddTwo(a);
    if words > 0 {
      var at := c.part.Wrap(a);
      WrapAdd(c.part, a, 1);
      SliceWord(c.flash, at, 2 * words);
      if words > 1 {
        WrapAdd(c.part, a, 2);
        ReadWordsFlash(c, a + 2, words - 1);
      } else {
        assert ReadWords(c, Add32(a, 2), 0) == [];
      }
    }
  }

  // Commands as the host sends them

  function SetAddress(hi: byte, lo: byte): seq<byte> {
    [Ascii('A'), hi, lo]
  }

  function BlockWrite(memory: char, data: seq<byte>): seq<byte>
    requires memory <= 'z' && |data| < 0x1_0000
  {
    [Ascii('B'), Hi(|data|), Lo(|data|), Ascii(memory)] + data
  }

  function BlockRead(memory: char, n: word): seq<byte>
    requires memory <= 'z'
  {
    [Ascii('g'), Hi(n), Lo(n), Ascii(memory)]
  }

  /** The packets, cut in any way, carry these bytes. */
  ghost predicate Carries(packets: seq<Packet>, bytes: seq<byte>) {
    packets != [] && Flatten(packets) == bytes
  }

  /** The stream after the command byte. */
  function Arguments(packets: seq<Packet>): Rx
    requires packets != []
  {
    Fetch(Rx(packets[0], packets[1..])).1
  }

  lemma CommandFetched(s: State, packets: seq<Packet>, bytes: seq<byte>)
    requires s.chip.Valid() && bytes != [] && Carries(packets, bytes)
    ensures Arguments(packets).Stream() == bytes[1..]
    ensures var r, d := Execute(s, bytes[0], Arguments(packets)), Task(s, packets);
            d.state == r.state && Flatten(d.sent) == r.response
  {
    hide Execute, Transfer, Fetch;
    var rx := Rx(packets[0], packets[1..]);
    assert rx.Stream() == bytes;
    FetchIsStream(rx);
    ResponsePackets(Execute(s, bytes[0], Arguments(packets)).response);
  }

  lemma AddressSet(s: State, packets: seq<Packet>, hi: byte, lo: byte)
    requires s.chip.Valid() && Carries(packets, SetAddress(hi, lo))
    ensures var d := Task(s, packets);
            d.state == s.(currAddress := CommandAddress(hi, lo)) && Flatten(d.sent) == [RETURN]
  {
    hide Task, Transfer, FetchMany, CommandAddress, Flatten, Arguments;
    CommandFetched(s, packets, SetAddress(hi, lo));
    FetchManyIsStream(Arguments(packets), 2);
  }

  lemma HeadFetched(rx: Rx, n: word, memory: byte, rest: seq<byte>)
    requires rx.Stream() == [Hi(n), Lo(n), memory] + rest
    ensures FetchMany(rx, 3).0 == [Hi(n), Lo(n), memory] && FetchMany(rx, 3).1.Stream() == rest
    ensures Word(Lo(n), Hi(n)) == n
  {
    hide FetchMany, Rx.Stream;
    FetchManyIsStream(rx, 3);
    WordParts(n);
    assert ([Hi(n), Lo(n), memory] + rest)[..3] == [Hi(n), Lo(n), memory];
    assert ([Hi(n), Lo(n), memory] + rest)[3..] == rest;
  }

  lemma BlockWritten(s: State, rx: Rx, memory: char, data: seq<byte>)
    requires s.chip.Valid() && (memory == 'F' || memory == 'E') && |data| < 0x1_0000
    requires rx.Stream() == [Hi(|data|), Lo(|data|), Ascii(memory)] + data
    ensures BlockCommand(s, true, rx).state == Written(s, memory == 'F', data)
    ensures BlockCommand(s, true, rx).response == [RETURN]
  {
    hide FetchMany, Written, Rx.Stream, Chip.Valid;
    HeadFetched(rx, |data|, Ascii(memory), data);
    FetchManyIsStream(FetchMany(rx, 3).1, |data|);
    assert data[..|data|] == data;
  }

  lemma WriteHandled(s: State, packets: seq<Packet>, memory: char, data: seq<byte>)
    requires s.chip.Valid() && (memory == 'F' || memory == 'E') && |data| < 0x1_0000
    requires Carries(packets, BlockWrite(memory, data))
    ensures Task(s, packets).state == Written(s, memory == 'F', data)
    ensures Flatten(Task(s, packets).sent) == [RETURN]
  {
    hide Task, BlockCommand, Flatten, Arguments, Written, Rx.Stream, Chip.Valid;
    CommandFetched(s, packets, BlockWrite(memory, data));
    assert BlockWrite(memory, data)[1..] == [Hi(|data|), Lo(|data|), Ascii(memory)] + data;
    BlockWritten(s, Arguments(packets), memory, data);
  }

  lemma ReadHandled(s: State, packets: seq<Packet>, memory: char, n: word)
    requires s.chip.Valid() && (memory == 'F' || memory == 'E')
    requires Carries(packets, BlockRead(memory, n))
    ensures var d, a := Task(s, packets), s.currAddress;
            && d.state == s.(currAddress := Skip(a, if memory == 'F' then n / 2 else n))
            && Flatten(d.sent) == if memory == 'F' then ReadWords(s.chip, a, n) else ReadEepromBlock(s.chip, a, n)
  {
    hide Task, Transfer, FetchMany, Flatten, Arguments, Skip, ReadWords, ReadEepromBlock, Rx.Stream;
    var rx := Arguments(packets);
    CommandFetched(s, packets, BlockRead(memory, n));
    assert BlockRead(memory, n)[1..] == [Hi(n), Lo(n), Ascii(memory)] + [];
    HeadFetched(rx, n, Ascii(memory), []);
  }

  // Programming flash

  lemma SamePage(c: Chip, a: nat)
    requires c.Valid()
    ensures c.Erase(a) == c.Erase(c.part.Wrap(a)) && c.Commit(a) == c.Commit(c.part.Wrap(a))
  {
    WrapTwice(c.part, a);
    hide Splice, AndAll, Blanks, Part.Wrap, Part.Page;
  }

  lemma PageWritten(s: State, packets: seq<Packet>, at: nat, data: seq<byte>)
    requires At(s, at, |data|) && s.chip.part.Aligned(at)
    requires 0 < |data| <= s.chip.part.pageSize && |data| % 2 == 0
    requires s.chip.BufferBlank() || |data| == s.chip.part.pageSize
    requires Carries(packets, BlockWrite('F', data))
    ensures var d, c := Task(s, packets), s.chip;
            && Flatten(d.sent) == [RETURN]
            && d.state == s.(chip := c.(flash := Programmed(c.part, c.flash, at, data), buffer := Blanks(|c.buffer|)),
                             currAddress := Skip(s.currAddress, |data| / 2))
  {
    hide Task, Flatten, Skip, LoadWords, Part.Wrap, Part.Offset, Chip.Erase, Chip.Commit, FillAll, Programmed, Carries;
    var c, a := s.chip, s.currAddress;
    WriteHandled(s, packets, 'F', data);
    LoadWordsFill(c.Erase(a), a, data);
    SamePage(c, a);
    SamePage(FillAll(c.Erase(a), at, data), a);
    WrapParity(c.part, a);
    ErasedPageProgrammed(c, at, data);
  }

  /** Blocks of whole pages; the last may be shorter. */
  ghost predicate Pages(part: Part, blocks: seq<seq<byte>>) {
    blocks != [] ==>
      && 0 < |blocks[0]| <= part.pageSize && |blocks[0]| % 2 == 0
      && (|blocks| > 1 ==> |blocks[0]| == part.pageSize)
      && Pages(part, blocks[1..])
  }

  /** Each input writes the block beside it. */
  ghost predicate Writes(memory: char, inputs: seq<seq<Packet>>, blocks: seq<seq<byte>>) {
    && memory <= 'z' && |inputs| == |blocks|
    && (inputs != [] ==>
          && |blocks[0]| < 0x1_0000 && Carries(inputs[0], BlockWrite(memory, blocks[0]))
          && Writes(memory, inputs[1..], blocks[1..]))
  }

  function BlockSize(memory: char, count: nat): nat {
    if memory == 'F' then 2 * count else count
  }

  /** Each input reads the number of words, or EEPROM bytes, beside it. */
  ghost predicate Reads(memory: char, inputs: seq<seq<Packet>>, counts: seq<nat>) {
    && memory <= 'z' && |inputs| == |counts|
    && (inputs != [] ==>
          && BlockSize(memory, counts[0]) < 0x1_0000
          && Carries(inputs[0], BlockRead(memory, BlockSize(memory, counts[0])))
          && Reads(memory, inputs[1..], counts[1..]))
  }

  function Total(ns: seq<nat>): nat {
    if ns == [] then 0 else ns[0] + Total(ns[1..])
  }

  lemma TotalStep(ns: seq<nat>)
    ensures ns == [] ==> Total(ns) == 0
    ensures ns != [] ==> Total(ns) == ns[0] + Total(ns[1..])
  {
  }

  /** All bytes the host receives in a run. */
  function Replies(s: State, inputs: seq<seq<Packet>>): seq<byte>
    requires s.chip.Valid()
    decreases |inputs|
  {
    if inputs == [] then []
    else var d := Task(s, inputs[0]); Flatten(d.sent) + Replies(d.state, inputs[1..])
  }

  lemma RunStep(s: State, inputs: seq<seq<Packet>>)
    requires s.chip.Valid()
    ensures inputs == [] ==> Run(s, inputs) == s && Replies(s, inputs) == []
    ensures inputs != [] ==>
              var d := Task(s, inputs[0]);
              && Run(s, inputs) == Run(d.state, inputs[1..])
              && Replies(s, inputs) == Flatten(d.sent) + Replies(d.state, inputs[1..])
  {
    hide Task, Flatten;
  }

  lemma RunSplit(s: State, first: seq<Packet>, more: seq<seq<Packet>>)
    requires s.chip.Valid()
    ensures Run(s, [first] + more) == Run(Task(s, first).state, more)
    ensures Replies(s, [first] + more) == Flatten(Task(s, first).sent) + Replies(Task(s, first).state, more)
  {
    hide Task, Flatten;
    assert ([first] + more)[1..] == more;
  }

  function Returns(n: nat): seq<byte> {
    if n == 0 then [] else [RETURN] + Returns(n - 1)
  }

  lemma NextPage(part: Part, a: uint32, n: nat, more: nat)
    requires part.Valid() && a % 2 == 0 && part.Aligned(part.Wrap(a)) && n == part.pageSize && 0 < more
    requires part.Wrap(a) + n + more <= part.flashSize && a + n + more <= 0x1_0000_0000
    ensures Skip(a, n / 2) == a + n && (a + n) % 2 == 0
    ensures part.Wrap(a + n) == part.Wrap(a) + n && part.Aligned(part.Wrap(a) + n)
  {
    hide Part.Wrap, Part.Offset, Skip;
    SkipAt(a, n / 2);
    WrapAdd(part, a, n);
    part.OffsetNext(part.Wrap(a), n);
  }

  /** Page after page, with no address set in between. */
  lemma {:induction false} PagesWritten(s: State, inputs: seq<seq<Packet>>, at: nat, blocks: seq<seq<byte>>)
    requires At(s, at, |Flatten(blocks)|) && s.chip.part.Aligned(at)
    requires Pages(s.chip.part, blocks) && Writes('F', inputs, blocks)
    requires s.chip.BufferBlank() || (blocks != [] && |blocks[0]| == s.chip.part.pageSize)
    ensures Run(s, inputs).chip == s.chip.(flash := Programmed(s.chip.part, s.chip.flash, at, Flatten(blocks)),
                                           buffer := Blanks(|s.chip.buffer|))
    ensures Replies(s, inputs) == Returns(|blocks|)
    decreases |blocks|
  {
    hide Task, Carries, Part.Offset, Part.Wrap, Blanks, BlockWrite, Skip, Run, Replies, Flatten;
    var c, a := s.chip, s.currAddress;
    RunStep(s, inputs);
    FlattenStep(blocks);
    if blocks == [] {
      assert Programmed(c.part, c.flash, at, []) == c.flash;
    } else {
      hide Programmed;
      var data, rest := blocks[0], Flatten(blocks[1..]);
      PageWritten(s, inputs[0], at, data);
      var t := Task(s, inputs[0]).state;
      if |blocks| > 1 {
        FlattenStep(blocks[1..]);
        NextPage(c.part, a, |data|, |rest|);
        PagesWritten(t, inputs[1..], at + |data|, blocks[1..]);
        ProgrammedConcat(c.part, c.flash, at, data, rest);
      } else {
        FlattenStep([]);
        RunStep(t, []);
        assert inputs[1..] == [] && blocks[1..] == [] && data + rest == data;
        assert Returns(0) == [];
      }
    }
  }

  lemma SliceConcat(s: seq<byte>, i: nat, j: nat, k: nat)
    requires i <= j <= k <= |s|
    ensures s[i..j] + s[j..k] == s[i..k]
  {
  }

  lemma BlockOfWordsRead(s: State, packets: seq<Packet>, at: nat, words: nat, rest: nat)
    requires At(s, at, 2 * words + rest) && 2 * words < 0x1_0000 && Carries(packets, BlockRead('F', 2 * words))
    ensures var d := Task(s, packets);
            && d.state.chip == s.chip && At(d.state, at + 2 * words, rest)
            && Flatten(d.sent) == s.chip.flash[at..at + 2 * words]
  {
    hide Task, Carries, Part.Wrap, BlockRead, Skip, Part.Valid, ReadWords;
    var c, a := s.chip, s.currAddress;
    ReadHandled(s, packets, 'F', 2 * words);
    SkipAt(a, words);
    SkipEven(a, words);
    if words > 0 {
      ReadWordsFlash(c, a, words);
      if rest > 0 {
        WrapAdd(c.part, a, 2 * words);
      }
    } else {
      assert ReadWords(c, a, 0) == [];
    }
  }

  lemma {:induction false} WordsRead(s: State, inputs: seq<seq<Packet>>, at: nat, words: seq<nat>)
    requires At(s, at, 2 * Total(words)) && Reads('F', inputs, words)
    ensures Run(s, inputs).chip == s.chip
    ensures Replies(s, inputs) == s.chip.flash[at..at + 2 * Total(words)]
    decreases |words|
  {
    hide Task, Carries, BlockRead, Part.Wrap, Part.Valid, Flatten, Run, Replies, Total;
    RunStep(s, inputs);
    TotalStep(words);
    if words != [] {
      var n, rest := words[0], Total(words[1..]);
      BlockOfWordsRead(s, inputs[0], at, n, 2 * rest);
      WordsRead(Task(s, inputs[0]).state, inputs[1..], at + 2 * n, words[1..]);
      SliceConcat(s.chip.flash, at, at + 2 * n, at + 2 * (n + rest));
    }
  }

  lemma WrapEnd(part: Part)
    requires KnownSize(part)
    ensures part.Wrap(0x1_0000_0000) == 0
  {
    hide Part.Wrap, Doublings;
    if part.flashSize != 0x2_0000 {
      WrapWhole(part);
      WrapDoublings(part, 0x1_0000, 16);
      DoublingsValues(0x1_0000);
      WrapShift(part, 0x1_0000, 0xFFFF_0000);
    } else {
      WrapSelf(part);
      WrapDoublings(part, 0x2_0000, 15);
      DoublingsValues(0x2_0000);
      WrapShift(part, 0x2_0000, 0xFFFE_0000);
    }
  }

  /** A range inside flash does not run past the end of the 32-bit counter. */
  lemma CounterSuffices(part: Part, a: uint32, n: nat)
    requires KnownSize(part) && part.Wrap(a) + n <= part.flashSize
    ensures a + n <= 0x1_0000_0000
  {
    hide Part.Wrap;
    var left := 0x1_0000_0000 - a;
    WrapEnd(part);
    if left < n {
      WrapAdd(part, a, left);
    }
  }

  /** Where the address that a command sets is in flash. */
  function Target(part: Part, hi: byte, lo: byte): nat
    requires 0 < part.flashSize
  {
    part.Wrap(CommandAddress(hi, lo))
  }

  lemma AddressReached(s: State, packets: seq<Packet>, hi: byte, lo: byte, n: nat)
    requires s.chip.Valid() && Carries(packets, SetAddress(hi, lo)) && KnownSize(s.chip.part)
    requires Target(s.chip.part, hi, lo) + n <= s.chip.part.flashSize
    ensures At(Task(s, packets).state, Target(s.chip.part, hi, lo), n) && Task(s, packets).state.chip == s.chip
    ensures Flatten(Task(s, packets).sent) == [RETURN]
  {
    hide Task, Carries, CommandAddress, Part.Wrap;
    AddressSet(s, packets, hi, lo);
    CommandAddressEven(hi, lo);
    CounterSuffices(s.chip.part, CommandAddress(hi, lo), n);
  }

  /** Pages written one after another from a page boundary, and read back in any number of blocks. They
      are where the host means them exactly for the addresses that the command gets right. */
  lemma ProgramThenRead(s: State, setup: seq<Packet>, writing: seq<seq<Packet>>, back: seq<Packet>, reading: seq<seq<Packet>>,
                        hi: byte, lo: byte, blocks: seq<seq<byte>>, words: seq<nat>)
    requires s.chip.Valid() && s.chip.BufferBlank() && KnownSize(s.chip.part)
    requires var at := Target(s.chip.part, hi, lo);
             s.chip.part.Aligned(at) && at + |Flatten(blocks)| <= s.chip.part.flashSize
    requires Carries(setup, SetAddress(hi, lo)) && Pages(s.chip.part, blocks) && Writes('F', writing, blocks)
    requires Carries(back, SetAddress(hi, lo)) && Reads('F', reading, words) && 2 * Total(words) == |Flatten(blocks)|
    ensures var t, part, at := Run(s, [setup] + writing), s.chip.part, Target(s.chip.part, hi, lo);
            && t.chip == s.chip.(flash := Programmed(part, s.chip.flash, at, Flatten(blocks)))
            && Replies(s, [setup] + writing) == Returns(1 + |blocks|)
            && Run(t, [back] + reading).chip == t.chip
            && Replies(t, [back] + reading) == [RETURN] + Flatten(blocks)
            && (at == part.Wrap(2 * Word(lo, hi)) <==> part.flashSize != 0x2_0000 || hi < 0x40 || hi >= 0xC0)
  {
    hide Task, Carries, SetAddress, Part.Offset, Programmed, Pages, Writes, Reads, Blanks, At, Flatten, Run, Replies;
    hide CommandAddress, Part.Wrap;
    var c, at, data := s.chip, Target(s.chip.part, hi, lo), Flatten(blocks);
    AddressReached(s, setup, hi, lo, |data|);
    RunSplit(s, setup, writing);
    PagesWritten(Task(s, setup).state, writing, at, blocks);
    var t := Run(s, [setup] + writing);
    AddressReached(t, back, hi, lo, |data|);
    RunSplit(t, back, reading);
    WordsRead(Task(t, back).state, reading, at, words);
    ProgrammedData(c.part, c.flash, at, data);
    AddressExactly(c.part, hi, lo);
  }

  // Programming EEPROM

  lemma EepromNext(a: uint32)
    requires EepromAddress(a) < 0xFFFF
    ensures EepromAddress(Add32(a, 2)) == EepromAddress(a) + 1
  {
    assert (a + 2) / 2 == a / 2 + 1;
    assert a + 2 < 0x1_0000_0000;
  }

  lemma {:induction false} EepromSkip(a: uint32, n: nat)
    requires EepromAddress(a) + n < 0x1_0000
    ensures EepromAddress(Skip(a, n)) == EepromAddress(a) + n
    decreases n
  {
    hide EepromAddress, Add32;
    if n > 0 {
      EepromNext(a);
      EepromSkip(Add32(a, 2), n - 1);
    }
  }

  lemma {:induction false} EepromWritten(c: Chip, a: uint32, data: seq<byte>)
    requires c.Valid() && EepromAddress(a) + |data| <= c.part.eepromSize
    ensures WriteEepromBlock(c, a, data) == c.(eeprom := Splice(c.eeprom, EepromAddress(a), data))
    decreases |data|
  {
    hide EepromAddress, Add32;
    var e := EepromAddress(a);
    if data == [] {
      assert Splice(c.eeprom, e, data) == c.eeprom;
    } else {
      EepromNext(a);
      EepromWritten(c.WriteEeprom(e, data[0]), Add32(a, 2), data[1..]);
      c.part.WrapInside(e);
      assert c.WriteEeprom(e, data[0]).eeprom == Splice(c.eeprom, e, [data[0]]);
      SpliceNext(c.eeprom, e, [data[0]], data[1..]);
      assert data == [data[0]] + data[1..];
    }
  }

  lemma {:induction false} EepromRead(c: Chip, a: uint32, n: nat)
    requires c.Valid() && EepromAddress(a) + n <= c.part.eepromSize
    ensures ReadEepromBlock(c, a, n) == c.eeprom[EepromAddress(a)..EepromAddress(a) + n]
    decreases n
  {
    hide EepromAddress, Add32;
    var e := EepromAddress(a);
    if n > 0 {
      EepromNext(a);
      EepromRead(c, Add32(a, 2), n - 1);
      c.part.WrapInside(e);
      SliceConcat(c.eeprom, e, e + 1, e + n);
    }
  }

  /** Blocks of any lengths, one after another. */
  lemma {:induction false} EepromBlocksWritten(s: State, inputs: seq<seq<Packet>>, blocks: seq<seq<byte>>)
    requires s.chip.Valid() && EepromAddress(s.currAddress) + |Flatten(blocks)| <= s.chip.part.eepromSize
    requires Writes('E', inputs, blocks)
    ensures Run(s, inputs).chip
            == s.chip.(eeprom := Splice(s.chip.eeprom, EepromAddress(s.currAddress), Flatten(blocks)))
    ensures Replies(s, inputs) == Returns(|blocks|)
    decreases |blocks|
  {
    hide Task, Carries, EepromAddress, BlockWrite, Skip, WriteEepromBlock, Run, Replies, Flatten;
    var c, e := s.chip, EepromAddress(s.currAddress);
    RunStep(s, inputs);
    FlattenStep(blocks);
    if blocks == [] {
      assert Splice(c.eeprom, e, []) == c.eeprom;
    } else {
      hide Splice;
      var data, rest := blocks[0], Flatten(blocks[1..]);
      WriteHandled(s, inputs[0], 'E', data);
      EepromWritten(c, s.currAddress, data);
      EepromSkip(s.currAddress, |data|);
      EepromBlocksWritten(Task(s, inputs[0]).state, inputs[1..], blocks[1..]);
      SpliceNext(c.eeprom, e, data, rest);
    }
  }

  lemma {:induction false} EepromBlocksRead(s: State, inputs: seq<seq<Packet>>, counts: seq<nat>)
    requires s.chip.Valid() && EepromAddress(s.currAddress) + Total(counts) <= s.chip.part.eepromSize
    requires Reads('E', inputs, counts)
    ensures Run(s, inputs).chip == s.chip
    ensures Replies(s, inputs)
            == s.chip.eeprom[EepromAddress(s.currAddress)..EepromAddress(s.currAddress) + Total(counts)]
    decreases |counts|
  {
    hide Task, Carries, EepromAddress, BlockRead, Skip, ReadEepromBlock, Flatten, Run, Replies, Total;
    var c, e := s.chip, EepromAddress(s.currAddress);
    RunStep(s, inputs);
    TotalStep(counts);
    if counts != [] {
      var n, rest := counts[0], Total(counts[1..]);
      ReadHandled(s, inputs[0], 'E', n);
      EepromRead(c, s.currAddress, n);
      EepromSkip(s.currAddress, n);
      EepromBlocksRead(Task(s, inputs[0]).state, inputs[1..], counts[1..]);
      SliceConcat(c.eeprom, e, e + n, e + n + rest);
    }
  }

  lemma EepromReached(hi: byte, lo: byte)
    requires Word(lo, hi) <= 0x1000
    ensures EepromAddress(CommandAddress(hi, lo)) == Word(lo, hi)
  {
    assert hi <= 0x10 && 0x200 * hi % 0x1_0000 == 0x200 * hi;
    var a := 0x200 * hi + 2 * lo;
    assert a / 2 == 0x100 * hi + lo;
  }

  lemma EepromThenRead(s: State, setup: seq<Packet>, writing: seq<seq<Packet>>, back: seq<Packet>, reading: seq<seq<Packet>>,
                       hi: byte, lo: byte, blocks: seq<seq<byte>>, counts: seq<nat>)
    requires s.chip.Valid() && Word(lo, hi) + |Flatten(blocks)| <= s.chip.part.eepromSize
    requires Carries(setup, SetAddress(hi, lo)) && Writes('E', writing, blocks)
    requires Carries(back, SetAddress(hi, lo)) && Reads('E', reading, counts) && Total(counts) == |Flatten(blocks)|
    ensures var t := Run(s, [setup] + writing);
            && t.chip == s.chip.(eeprom := Splice(s.chip.eeprom, Word(lo, hi), Flatten(blocks)))
            && Replies(s, [setup] + writing) == Returns(1 + |blocks|)
            && Run(t, [back] + reading).chip == t.chip
            && Replies(t, [back] + reading) == [RETURN] + Flatten(blocks)
  {
    hide Task, Carries, SetAddress, Writes, Reads, EepromAddress, CommandAddress, Splice, Word, Flatten, Run, Replies;
    EepromReached(hi, lo);
    AddressSet(s, setup, hi, lo);
    RunSplit(s, setup, writing);
    EepromBlocksWritten(Task(s, setup).state, writing, blocks);
    var t := Run(s, [setup] + writing);
    AddressSet(t, back, hi, lo);
    RunSplit(t, back, reading);
    EepromBlocksRead(Task(t, back).state, reading, counts);
    SpliceOver(s.chip.eeprom, Word(lo, hi), Flatten(blocks), Flatten(blocks));
  }
}
