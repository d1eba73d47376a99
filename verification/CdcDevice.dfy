/** The CDC bootloader as it runs: an address counter and a run flag, updated by commands fetched
    from the OUT endpoint, with responses written byte by byte to the IN endpoint. */
module CdcDevice {
  import opened Chips
  import opened Devices
  import opened Programming
  import opened Endpoints
  import opened Cdc
  import opened CdcStreams

  /** What is left of a block read: in the middle of a word the low byte is already sent. */
  ghost function ReadRest(c: Chip, a: uint32, left: nat, high: bool): seq<byte>
    requires c.Valid()
  {
    if high then ReadWords(c, a, left + 1)[1..] else ReadWords(c, a, left)
  }

  lemma ReadRestStep(c: Chip, a: uint32, left: nat, high: bool)
    requires c.Valid() && 0 < left
    ensures ReadRest(c, a, left, high)
            == [c.ReadFlash(if high then a + 1 else a)]
               + ReadRest(c, if high then Add32(a, 2) else a, left - 1, !high)
  {
    hide Chip.ReadFlash, Add32;
  }

  lemma ReadRestEnds(c: Chip, a: uint32, n: nat, high: bool)
    requires c.Valid()
    ensures ReadRest(c, a, n, false) == ReadWords(c, a, n) && ReadRest(c, a, 0, high) == []
  {
  }

  lemma SkipStep(a: uint32, n: nat)
    ensures Skip(a, 0) == a && Skip(a, 1 + n) == Skip(Add32(a, 2), n)
  {
  }

  /** Words left in a block. */
  function WordsLeft(left: nat, high: bool): nat {
    (if high then left + 1 else left) / 2
  }

  lemma WordsLeftStep(left: nat, high: bool)
    ensures 0 < left ==> WordsLeft(left, high) == (if high then 1 else 0) + WordsLeft(left - 1, !high)
    ensures WordsLeft(0, high) == 0 && WordsLeft(left, false) == left / 2
  {
  }

  lemma FetchManyStep(rx: Rx, n: nat, data: seq<byte>, from: nat, end: Rx)
    requires 0 < n && from + n == |data| && FetchMany(rx, n) == (data[from..], end)
    ensures Fetch(rx).0 == data[from] && FetchMany(Fetch(rx).1, n - 1) == (data[from + 1..], end)
  {
    hide Fetch;
    assert data[from..][1..] == data[from + 1..] && FetchMany(rx, n).0[0] == data[from];
  }

  lemma FetchManyNone(rx: Rx)
    ensures FetchMany(rx, 0) == ([], rx)
  {
  }

  /** The page buffer once the bytes from position `k` on, and the low byte before them if one was read,
      are loaded. */
  function LoadRest(c: Chip, a: uint32, data: seq<byte>, k: nat, high: bool): (r: Chip)
    requires c.Valid() && k <= |data| && (high ==> k > 0)
    ensures r.Valid()
  {
    LoadWords(c, a, data[if high then k - 1 else k..])
  }

  lemma LoadRestStep(c: Chip, a: uint32, data: seq<byte>, k: nat, high: bool)
    requires c.Valid() && k < |data| && (high ==> k > 0)
    ensures LoadRest(c, a, data, k, high) ==
            if high then LoadRest(c.Fill(a, data[k - 1], data[k]), Add32(a, 2), data, k + 1, false)
            else LoadRest(c, a, data, k + 1, true)
  {
    hide Chip.Fill;
    if high {
      assert data[k - 1..][2..] == data[k + 1..];
    }
  }

  lemma LoadRestEnds(c: Chip, a: uint32, data: seq<byte>, high: bool)
    requires c.Valid() && (high ==> data != [])
    ensures LoadRest(c, a, data, 0, false) == LoadWords(c, a, data) && LoadRest(c, a, data, |data|, high) == c
  {
    assert data[0..] == data;
  }

  /** A block of `size` bytes, sent to a device that holds `s0`, is being loaded: `left` bytes are still to
      be fetched, and `low` waits for its high byte if `high`. */
  ghost predicate BlockLoading(s: State, rx: Rx, left: nat, high: bool, low: byte, s0: State, rx0: Rx, size: nat) {
    var (data, end) := FetchMany(rx0, size);
    && left <= size && (high ==> left < size && low == data[size - left - 1])
    && s0.chip.Valid() && s.chip.Valid() && s == s0.(chip := s.chip, currAddress := s.currAddress)
    && FetchMany(rx, left) == (data[size - left..], end)
    && LoadRest(s.chip, s.currAddress, data, size - left, high)
       == LoadWords(s0.chip.Erase(s0.currAddress), s0.currAddress, data)
    && Skip(s.currAddress, WordsLeft(left, high)) == Skip(s0.currAddress, size / 2)
  }

  lemma BlockStarts(s0: State, rx0: Rx, size: nat, low: byte)
    requires s0.chip.Valid()
    ensures BlockLoading(s0.(chip := s0.chip.Erase(s0.currAddress)), rx0, size, false, low, s0, rx0, size)
  {
    hide LoadRest, LoadWords, FetchMany, Skip, Chip.Erase;
    var data := FetchMany(rx0, size).0;
    LoadRestEnds(s0.chip.Erase(s0.currAddress), s0.currAddress, data, false);
    assert data[0..] == data;
  }

  lemma BlockStep(s: State, rx: Rx, left: nat, high: bool, low: byte, s0: State, rx0: Rx, size: nat)
    requires left > 0 && s.chip.Valid() && BlockLoading(s, rx, left, high, low, s0, rx0, size)
    ensures var (b, next) := Fetch(rx);
            if high then
              var t := s.(chip := s.chip.Fill(s.currAddress, low, b), currAddress := Add32(s.currAddress, 2));
              BlockLoading(t, next, left - 1, false, low, s0, rx0, size)
            else BlockLoading(s, next, left - 1, true, b, s0, rx0, size)
  {
    hide LoadRest, LoadWords, FetchMany, Fetch, Skip, WordsLeft, Add32, Chip.Erase, Chip.Fill;
    var (data, end) := FetchMany(rx0, size);
    FetchManyStep(rx, left, data, size - left, end);
    LoadRestStep(s.chip, s.currAddress, data, size - left, high);
    WordsLeftStep(left, high);
    SkipStep(s.currAddress, WordsLeft(left - 1, false));
  }

  lemma BlockEnds(s: State, rx: Rx, high: bool, low: byte, s0: State, rx0: Rx, size: nat)
    requires s.chip.Valid() && s0.chip.Valid() && BlockLoading(s, rx, 0, high, low, s0, rx0, size)
    ensures rx == FetchMany(rx0, size).1
    ensures s.(chip := s.chip.Commit(s0.currAddress)) == Written(s0, true, FetchMany(rx0, size).0)
  {
    hide LoadRest, LoadWords, FetchMany, Skip, WordsLeft, Chip.Erase, Chip.Commit;
    FetchManyNone(rx);
    LoadRestEnds(s.chip, s.currAddress, FetchMany(rx0, size).0, high);
    WordsLeftStep(0, high);
    SkipStep(s.currAddress, 0);
  }

  lemma ReadEepromStep(c: Chip, a: uint32, n: nat)
    requires c.Valid()
    ensures n == 0 ==> ReadEepromBlock(c, a, n) == []
    ensures n > 0 ==>
              ReadEepromBlock(c, a, n) == [c.ReadEeprom(EepromAddress(a))] + ReadEepromBlock(c, Add32(a, 2), n - 1)
  {
  }

  lemma EepromStep(c: Chip, a: uint32, data: seq<byte>)
    requires c.Valid()
    ensures data != [] ==>
              WriteEepromBlock(c, a, data)
              == WriteEepromBlock(c.WriteEeprom(EepromAddress(a), data[0]), Add32(a, 2), data[1..])
    ensures data == [] ==> WriteEepromBlock(c, a, data) == c
  {
  }

  lemma FetchThree(rx: Rx)
    ensures var (x, rx1) := Fetch(rx); var (y, rx2) := Fetch(rx1); var (z, rx3) := Fetch(rx2);
            FetchMany(rx, 3) == ([x, y, z], rx3) && FetchMany(rx, 2) == ([x, y], rx2)
  {
    hide Fetch;
    var (x, rx1) := Fetch(rx);
    var (y, rx2) := Fetch(rx1);
    var (z, rx3) := Fetch(rx2);
    assert [z] + [] == [z] && [y] + [z] == [y, z] && [x] + [y, z] == [x, y, z] && [y] + [] == [y] && [x] + [y] == [x, y];
    assert FetchMany(rx2, 1) == ([z], rx3) by { FetchManyNone(rx3); }
    assert FetchMany(rx1, 1) == ([y], rx2) by { FetchManyNone(rx2); }
    assert FetchMany(rx1, 2) == ([y, z], rx3);
  }

  class Bootloader {
    const dev: Device
    var currAddress: uint32
    var runBootloader: bool
    var fuses: Fuses
    /** The OUT endpoint. */
    var rx: Rx
    /** The IN endpoint: packets sent, and the bank being filled. */
    var tx: seq<Packet>
    var txBank: Packet
    /** The response bytes written so far. */
    ghost var response: seq<byte>

    ghost predicate Valid()
      reads this
    {
      && dev.Valid() && currAddress % 2 == 0
      && |txBank| <= PACKET_SIZE && Packets(PACKET_SIZE, response) == tx + [txBank]
    }

    ghost function Value(): (s: State)
      requires dev.Valid()
      reads this, dev.flash, dev.eeprom, dev.buffer
      ensures s.chip.Valid()
    {
      State(dev.Value(), currAddress, runBootloader, fuses)
    }

    constructor (dev: Device, fuses: Fuses)
      requires dev.Valid()
      ensures this.dev == dev && Valid() && response == []
      ensures Value() == State(dev.Value(), 0, true, fuses)
    {
      this.dev := dev;
      currAddress, runBootloader, this.fuses := 0, true, fuses;
      rx, tx, txBank, response := Rx([], []), [], [], [];
    }

    method FetchNextCommandByte() returns (b: byte)
      modifies this`rx
      ensures (b, rx) == Fetch(old(rx))
    {
      while rx.bank == []
        invariant Fetch(rx) == Fetch(old(rx))
        decreases |rx.queue|
      {
        if rx.queue == [] {
          return 0;
        }
        rx := rx.Next();
      }
      b := rx.bank[0];
      rx := rx.Advance();
    }

    method WriteNextResponseByte(b: byte)
      requires Valid()
      modifies this`tx, this`txBank, this`response
      ensures Valid() && response == old(response) + [b]
    {
      PacketsAppend(PACKET_SIZE, response, tx, txBank, [b]);
      if |txBank| == PACKET_SIZE {
        tx := tx + [txBank];
        txBank := [];
        assert [] + [b] == [b];
      }
      txBank := txBank + [b];
      response := response + [b];
    }

    method ReadFlashBlock(size: word)
      requires Valid()
      modifies this`tx, this`txBank, this`response, this`currAddress
      ensures Valid()
      ensures Value() == old(Value()).(currAddress := Skip(old(currAddress), size / 2))
      ensures response == old(response) + ReadWords(old(Value()).chip, old(currAddress), size)
    {
      hide ReadRest, WordsLeft, Skip, Add32, Chip.ReadFlash;
      ghost var c := dev.Value();
      var left: nat, high := size, false;
      ReadRestEnds(c, currAddress, size, false);
      WordsLeftStep(size, false);
      while left > 0
        invariant Valid() && Value() == old(Value()).(currAddress := currAddress)
        invariant response + ReadRest(c, currAddress, left, high)
                  == old(response) + ReadWords(c, old(currAddress), size)
        invariant Skip(currAddress, WordsLeft(left, high)) == Skip(old(currAddress), size / 2)
      {
        ReadRestStep(c, currAddress, left, high);
        WordsLeftStep(left, high);
        var b := dev.ReadFlash(if high then currAddress + 1 else currAddress);
        WriteNextResponseByte(b);
        if high {
          AddTwoEven(currAddress);
          SkipStep(currAddress, WordsLeft(left - 1, false));
          currAddress := Add32(currAddress, 2);
        }
        high := !high;
        left := left - 1;
      }
      ReadRestEnds(c, currAddress, 0, high);
      WordsLeftStep(0, high);
      SkipStep(currAddress, 0);
    }

    method ReadEepromBytes(size: word)
      requires Valid()
      modifies this`tx, this`txBank, this`response, this`currAddress
      ensures Valid()
      ensures Value() == old(Value()).(currAddress := Skip(old(currAddress), size))
      ensures response == old(response) + ReadEepromBlock(old(Value()).chip, old(currAddress), size)
    {
      hide Skip, Add32, Chip.ReadEeprom, EepromAddress, ReadEepromBlock;
      ghost var c := dev.Value();
      var left: nat := size;
      while left > 0
        invariant Valid() && Value() == old(Value()).(currAddress := currAddress)
        invariant response + ReadEepromBlock(c, currAddress, left)
                  == old(response) + ReadEepromBlock(c, old(currAddress), size)
        invariant Skip(currAddress, left) == Skip(old(currAddress), size)
      {
        SkipStep(currAddress, left - 1);
        ReadEepromStep(c, currAddress, left);
        var b := dev.ReadEeprom(EepromAddress(currAddress));
        WriteNextResponseByte(b);
        AddTwoEven(currAddress);
        currAddress := Add32(currAddress, 2);
        left := left - 1;
      }
      SkipStep(currAddress, 0);
      ReadEepromStep(c, currAddress, 0);
    }

    method WriteFlashBlock(size: word)
      requires Valid()
      modifies this`rx, this`currAddress, dev.flash, dev.buffer
      ensures Valid()
      ensures rx == FetchMany(old(rx), size).1
      ensures Value() == Written(old(Value()), true, FetchMany(old(rx), size).0)
    {
      hide BlockLoading, Written, Add32, Chip.Fill, Chip.Erase, Chip.Commit, Fetch, FetchMany;
      var page := currAddress;
      dev.ErasePage(page);
      var left: nat, high, low: byte := size, false, 0;
      BlockStarts(old(Value()), rx, size, low);
      while left > 0
        invariant Valid()
        invariant BlockLoading(Value(), rx, left, high, low, old(Value()), old(rx), size)
      {
        BlockStep(Value(), rx, left, high, low, old(Value()), old(rx), size);
        if high {
          var b := FetchNextCommandByte();
          dev.FillWord(currAddress, low, b);
          AddTwoEven(currAddress);
          currAddress := Add32(currAddress, 2);
        } else {
          low := FetchNextCommandByte();
        }
        high := !high;
        left := left - 1;
      }
      BlockEnds(Value(), rx, high, low, old(Value()), old(rx), size);
      dev.WritePage(page);
    }

    method WriteEepromBytes(size: word)
      requires Valid()
      modifies this`rx, this`currAddress, dev.eeprom
      ensures Valid()
      ensures rx == FetchMany(old(rx), size).1
      ensures Value() == Written(old(Value()), false, FetchMany(old(rx), size).0)
    {
      hide WriteEepromBlock, Skip, Add32, Chip.WriteEeprom, Fetch, FetchMany, EepromAddress;
      ghost var data, c, start := FetchMany(rx, size).0, dev.Value(), currAddress;
      var left: nat := size;
      while left > 0
        invariant left <= size
        invariant Valid() && Value() == old(Value()).(chip := dev.Value(), currAddress := currAddress)
        invariant FetchMany(rx, left) == (data[size - left..], FetchMany(old(rx), size).1)
        invariant WriteEepromBlock(dev.Value(), currAddress, data[size - left..]) == WriteEepromBlock(c, start, data)
        invariant Skip(currAddress, left) == Skip(start, size)
      {
        FetchManyStep(rx, left, data, size - left, FetchMany(old(rx), size).1);
        EepromStep(dev.Value(), currAddress, data[size - left..]);
        SkipStep(currAddress, left - 1);
        AddTwoEven(currAddress);
        var b := FetchNextCommandByte();
        dev.WriteEeprom(EepromAddress(currAddress), b);
        currAddress := Add32(currAddress, 2);
        left := left - 1;
      }
      FetchManyNone(rx);
      EepromStep(dev.Value(), currAddress, []);
      SkipStep(currAddress, 0);
    }

    method ReadWriteMemoryBlock(write: bool)
      requires Valid()
      modifies this`rx, this`currAddress, this`tx, this`txBank, this`response, dev.flash, dev.eeprom, dev.buffer
      ensures Valid()
      ensures var r := BlockCommand(old(Value()), write, old(rx));
              Value() == r.state && rx == r.rx && response == old(response) + r.response
    {
      hide Fetch, Skip, ReadWords, ReadEepromBlock, Written;
      ghost var head := FetchMany(rx, 3);
      FetchThree(rx);
      var hi := FetchNextCommandByte();
      var lo := FetchNextCommandByte();
      var memory := FetchNextCommandByte();
      hide FetchMany;
      assert head == ([hi, lo, memory], rx);
      var size := Word(lo, hi);
      if memory != Ascii('F') && memory != Ascii('E') {
        WriteNextResponseByte(Ascii('?'));
      } else if !write {
        if memory == Ascii('F') {
          ReadFlashBlock(size);
        } else {
          ReadEepromBytes(size);
        }
      } else {
        if memory == Ascii('F') {
          WriteFlashBlock(size);
        } else {
          WriteEepromBytes(size);
        }
        WriteNextResponseByte(RETURN);
      }
    }

    /** Commands that only answer. */
    method Answer(command: byte)
      requires Valid()
      modifies this`tx, this`txBank, this`response
      ensures Valid() && response == old(response) + FixedReply(fuses, dev.part.pageSize, command)
    {
      hide FixedReply;
      var bytes := FixedReply(fuses, dev.part.pageSize, command);
      for i := 0 to |bytes|
        invariant Valid() && response == old(response) + bytes[..i]
      {
        WriteNextResponseByte(bytes[i]);
        assert bytes[..i + 1] == bytes[..i] + [bytes[i]];
      }
      assert bytes[..|bytes|] == bytes;
    }

    /** The commands that load, commit and read flash words and EEPROM bytes one at a time. */
    method AccessMemory(command: byte)
      requires Valid() && (command == Ascii('C') || command == Ascii('c') || command == Ascii('m') || command == Ascii('R')
                           || command == Ascii('D') || command == Ascii('d'))
      modifies this`rx, this`currAddress, this`tx, this`txBank, this`response, dev.flash, dev.eeprom, dev.buffer
      ensures Valid()
      ensures var r := Execute(old(Value()), command, old(rx));
              Value() == r.state && rx == r.rx && response == old(response) + r.response
    {
      hide Fetch, FetchMany, Add32, EepromAddress, Chip.Fill, Chip.Commit, Chip.WriteEeprom, Chip.ReadFlash, Chip.ReadEeprom;
      AddTwoEven(currAddress);
      if command == Ascii('R') {
        var lo := dev.ReadFlash(currAddress);
        var hi := dev.ReadFlash(currAddress + 1);
        WriteNextResponseByte(hi);
        WriteNextResponseByte(lo);
        assert old(response) + [hi] + [lo] == old(response) + [hi, lo];
      } else if command == Ascii('d') {
        var b := dev.ReadEeprom(EepromAddress(currAddress));
        WriteNextResponseByte(b);
        currAddress := Add32(currAddress, 2);
      } else {
        if command == Ascii('C') {
          var b := FetchNextCommandByte();
          dev.FillWord(currAddress, b, 0);
        } else if command == Ascii('c') {
          var b := FetchNextCommandByte();
          dev.FillWord(currAddress + 1, b, 0);
          currAddress := Add32(currAddress, 2);
        } else if command == Ascii('m') {
          dev.WritePage(currAddress);
        } else {
          var b := FetchNextCommandByte();
          dev.WriteEeprom(EepromAddress(currAddress), b);
          currAddress := Add32(currAddress, 2);
        }
        WriteNextResponseByte(RETURN);
      }
    }

    method ExecuteCommand(command: byte)
      requires Valid()
      modifies this, dev.flash, dev.eeprom, dev.buffer
      ensures Valid()
      ensures var r := Execute(old(Value()), command, old(rx));
              Value() == r.state && rx == r.rx && response == old(response) + r.response
    {
      hide Fetch, FetchMany, BlockCommand, FixedReply, ErasedApplication, CommandAddress, And;
      if command == Ascii('E') {
        runBootloader := false;
        WriteNextResponseByte(RETURN);
      } else if command == Ascii('x') || command == Ascii('y') || command == Ascii('T') {
        var _ := FetchNextCommandByte();
        WriteNextResponseByte(RETURN);
      } else if command == Ascii('A') {
        FetchThree(rx);
        var hi := FetchNextCommandByte();
        var lo := FetchNextCommandByte();
        CommandAddressEven(hi, lo);
        currAddress := CommandAddress(hi, lo);
        WriteNextResponseByte(RETURN);
      } else if command == Ascii('e') {
        dev.EraseApplication();
        WriteNextResponseByte(RETURN);
      } else if command == Ascii('l') {
        var b := FetchNextCommandByte();
        fuses := fuses.(lock := And(fuses.lock, b));
        WriteNextResponseByte(RETURN);
      } else if command == Ascii('B') || command == Ascii('g') {
        ReadWriteMemoryBlock(command == Ascii('B'));
      } else if command == Ascii('C') || command == Ascii('c') || command == Ascii('m') || command == Ascii('R')
                || command == Ascii('D') || command == Ascii('d') {
        AccessMemory(command);
      } else {
        Answer(command);
      }
    }

    /** Handle the command in the packets that arrive, if any does, and send the response. */
    method CdcTask(packets: seq<Packet>) returns (sent: seq<Packet>)
      requires Valid()
      modifies this, dev.flash, dev.eeprom, dev.buffer
      ensures Valid()
      ensures Done(Value(), sent, rx.queue) == Task(old(Value()), packets)
    {
      hide Execute, Fetch;
      tx, txBank, response := [], [], [];
      if packets == [] {
        rx := Rx([], []);
        return [];
      }
      rx := Rx(packets[0], packets[1..]);
      var command := FetchNextCommandByte();
      ghost var r := Execute(old(Value()), command, rx);
      ExecuteCommand(command);
      assert [] + r.response == r.response;
      ghost var ps := tx + [txBank];
      assert ps == Packets(PACKET_SIZE, r.response) && ps[|ps| - 1] == txBank;
      var full := |txBank| == PACKET_SIZE;
      sent := tx + [txBank];
      if full {
        sent := sent + [[]];
      }
      tx, txBank, response := [], [], [];
      rx := rx.(bank := []);
    }
  }
}
