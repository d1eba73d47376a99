/** The printer-class bootloader: an Intel HEX file arrives one character at a
    time and is programmed as it is read. */
module Printer {
  import opened Chips
  import opened Devices
  import opened HexText

  datatype Phase = WaitLine | ByteCount | AddressHigh | AddressLow | RecordType | ReadData | Checksum

  const EXTENDED_SEGMENT_ADDRESS: byte := 2
  const EXTENDED_LINEAR_ADDRESS: byte := 4

  /** All that the bootloader remembers between characters. */
  datatype State = State(
    phase: Phase, prevData: byte, data: byte, readMSB: bool, recordType: byte, dataRem: byte,
    checksum: byte, pageStart: uint32, baseAddress: uint32, currAddress: uint32,
    pageDirty: bool, runBootloader: bool, chip: Chip)

  function Sub8(x: byte, y: byte): byte {
    if y <= x then x - y else x - y + 0x100
  }

  /** Value of a hexadecimal digit, or -1. Lower-case digits do not count as digits. */
  function HexToDecimal(c: char): (d: int)
    ensures -1 <= d < 16
  {
    if 'A' <= c <= 'F' then 10 + (c - 'A') as int
    else if '0' <= c <= '9' then (c - '0') as int
    else -1
  }

  /** Shift one more hexadecimal digit into a byte. */
  function Shift(data: byte, digit: nat): byte
    requires digit < 16
  {
    data % 16 * 16 + digit
  }

  /** Commit the buffered page when the current address has left it. */
  function FlushIfRequired(s: State): (t: State)
    requires s.chip.Valid()
    ensures t.chip.Valid()
  {
    var page := s.chip.part.Base(s.currAddress);
    if s.pageDirty && s.pageStart != page
    then s.(chip := s.chip.Commit(s.pageStart), pageStart := page, pageDirty := false)
    else s
  }

  /** A complete word of a record's data has been read into `prevData` and `data`. */
  function WordStep(s: State): (t: State)
    requires s.chip.Valid()
    ensures t.chip.Valid()
  {
    match s.recordType
    case 0 =>
      var e := if s.pageDirty then s else s.(chip := s.chip.Erase(s.pageStart), pageDirty := true);
      FlushIfRequired(e.(chip := e.chip.Fill(s.currAddress, s.prevData, s.data),
                         currAddress := Add32(s.currAddress, 2)))
    case 2 => s.(baseAddress := Word(s.prevData, s.data) * 0x10)
    case 4 => s.(baseAddress := Word(s.prevData, s.data) * 0x1_0000)
    case _ => s
  }

  /** A complete byte has been read into `data`. */
  function ByteStep(s: State): (t: State)
    requires s.chip.Valid()
    ensures t.chip.Valid()
  {
    var u := if s.phase.Checksum? then s else s.(checksum := Add8(s.checksum, s.data));
    match u.phase
    case ByteCount => u.(dataRem := u.data, phase := AddressHigh)
    case AddressHigh => u.(currAddress := Add32(u.currAddress, u.data * 0x100), phase := AddressLow)
    case AddressLow => u.(currAddress := Add32(u.currAddress, u.data), phase := RecordType)
    case RecordType => u.(recordType := u.data, phase := if u.dataRem != 0 then ReadData else Checksum)
    case ReadData =>
      var v := u.(dataRem := Sub8(u.dataRem, 1));
      if v.currAddress >= v.chip.part.bootStart then v.(phase := WaitLine, pageDirty := false)
      else if v.dataRem % 2 == 1 then v.(prevData := v.data)
      else
        var w := WordStep(v);
        if w.dataRem == 0 then w.(phase := Checksum) else w
    case Checksum =>
      if u.data != Negate(u.checksum) then u
      else
        var f := FlushIfRequired(u);
        if f.recordType == END_OF_FILE then f.(runBootloader := false) else f
    case WaitLine => u
  }

  function Step(s: State, c: char): (t: State)
    requires s.chip.Valid()
    ensures t.chip.Valid()
  {
    if s.phase.WaitLine? || c == ':' then
      s.(checksum := 0, currAddress := s.baseAddress, readMSB := false,
         phase := if c == ':' then ByteCount else s.phase)
    else if HexToDecimal(c) < 0 then s
    else
      var t := s.(data := Shift(s.data, HexToDecimal(c)), readMSB := !s.readMSB);
      if t.readMSB then t else ByteStep(t)
  }

  function Run(s: State, text: string): (t: State)
    requires s.chip.Valid()
    ensures t.chip.Valid()
    decreases |text|
  {
    if text == [] then s else Run(Step(s, text[0]), text[1..])
  }

  /** The main loop: characters are parsed as they are received, a batch at a time, until a batch has
      cleared the run flag. */
  function Session(s: State, batches: seq<string>): (t: State)
    requires s.chip.Valid()
    ensures t.chip.Valid()
    decreases |batches|
  {
    if batches == [] || !s.runBootloader then s else Session(Run(s, batches[0]), batches[1..])
  }

  /** The state at power-up, before the first character. */
  function Reset(chip: Chip): State {
    State(WaitLine, 0, 0, false, 0, 0, 0, 0, 0, 0, false, true, chip)
  }

  class Bootloader {
    const dev: Device
    var phase: Phase
    var prevData: byte
    var data: byte
    var readMSB: bool
    var recordType: byte
    var dataRem: byte
    var checksum: byte
    var pageStart: uint32
    var baseAddress: uint32
    var currAddress: uint32
    var pageDirty: bool
    var runBootloader: bool

    ghost function Value(): (s: State)
      requires dev.Valid()
      reads this, dev.flash, dev.eeprom, dev.buffer
      ensures s.chip.Valid()
    {
      State(phase, prevData, data, readMSB, recordType, dataRem, checksum, pageStart, baseAddress,
            currAddress, pageDirty, runBootloader, dev.Value())
    }

    constructor (dev: Device)
      requires dev.Valid()
      ensures this.dev == dev && Value() == Reset(dev.Value())
    {
      this.dev := dev;
      phase, prevData, data, readMSB, recordType, dataRem := WaitLine, 0, 0, false, 0, 0;
      checksum, pageStart, baseAddress, currAddress := 0, 0, 0, 0;
      pageDirty, runBootloader := false, true;
    }

    method FlushPageIfRequired()
      requires dev.Valid()
      modifies this, dev.flash, dev.buffer
      ensures Value() == FlushIfRequired(old(Value()))
    {
      hide Chip.Commit, Part.Offset;
      if !pageDirty {
        return;
      }
      var newPageStart := dev.part.Base(currAddress);
      if pageStart != newPageStart {
        dev.WritePage(pageStart);
        pageStart := newPageStart;
        pageDirty := false;
      }
    }

    method ProcessWord()
      requires dev.Valid()
      modifies this, dev.flash, dev.buffer
      ensures Value() == WordStep(old(Value()))
    {
      hide FlushIfRequired, Chip.Erase, Chip.Fill;
      if recordType == DATA {
        if !pageDirty {
          dev.ErasePage(pageStart);
          pageDirty := true;
        }
        dev.FillWord(currAddress, prevData, data);
        currAddress := Add32(currAddress, 2);
        FlushPageIfRequired();
      } else if recordType == EXTENDED_SEGMENT_ADDRESS {
        baseAddress := Word(prevData, data) * 0x10;
      } else if recordType == EXTENDED_LINEAR_ADDRESS {
        baseAddress := Word(prevData, data) * 0x1_0000;
      }
    }

    method ProcessByte()
      requires dev.Valid()
      modifies this, dev.flash, dev.buffer
      ensures Value() == ByteStep(old(Value()))
    {
      hide FlushIfRequired, WordStep, Add8, Add32, Sub8, Negate, Part.Valid;
      if !phase.Checksum? {
        checksum := Add8(checksum, data);
      }
      match phase {
        case ByteCount =>
          dataRem, phase := data, AddressHigh;
        case AddressHigh =>
          currAddress, phase := Add32(currAddress, data * 0x100), AddressLow;
        case AddressLow =>
          currAddress, phase := Add32(currAddress, data), RecordType;
        case RecordType =>
          recordType := data;
          phase := if dataRem != 0 then ReadData else Checksum;
        case ReadData =>
          dataRem := Sub8(dataRem, 1);
          if currAddress >= dev.part.bootStart {
            phase := WaitLine;
            pageDirty := false;
            return;
          }
          if dataRem % 2 == 1 {
            prevData := data;
            return;
          }
          ProcessWord();
          if dataRem == 0 {
            phase := Checksum;
          }
        case Checksum =>
          if data != Negate(checksum) {
            return;
          }
          FlushPageIfRequired();
          if recordType == END_OF_FILE {
            runBootloader := false;
          }
        case WaitLine =>
      }
    }

    method ParseIntelHEXByte(c: char)
      requires dev.Valid()
      modifies this, dev.flash, dev.buffer
      ensures Value() == Step(old(Value()), c)
    {
      hide ByteStep, Shift;
      if phase.WaitLine? || c == ':' {
        checksum := 0;
        currAddress := baseAddress;
        readMSB := false;
        if c == ':' {
          phase := ByteCount;
        }
        return;
      }
      var digit := HexToDecimal(c);
      if digit < 0 {
        return;
      }
      data := Shift(data, digit);
      readMSB := !readMSB;
      if readMSB {
        return;
      }
      ProcessByte();
    }

    /** Feed the characters of one batch to the parser, in order. */
    method ParseBatch(text: string)
      requires dev.Valid()
      modifies this, dev.flash, dev.buffer
      ensures Value() == Run(old(Value()), text)
    {
      hide Step;
      var i := 0;
      while i < |text|
        invariant i <= |text|
        invariant Run(Value(), text[i..]) == Run(old(Value()), text)
      {
        ParseIntelHEXByte(text[i]);
        i := i + 1;
      }
    }

    method Receive(batches: seq<string>)
      requires dev.Valid()
      modifies this, dev.flash, dev.buffer
      ensures Value() == Session(old(Value()), batches)
    {
      hide Run;
      var k := 0;
      while k < |batches| && runBootloader
        invariant k <= |batches|
        invariant Session(Value(), batches[k..]) == Session(old(Value()), batches)
      {
        ParseBatch(batches[k]);
        k := k + 1;
      }
    }
  }
}
