/** Downloading EEPROM contents over DFU and reading them back. */
module DfuEeprom {
  import opened Chips
  import opened Programming
  import opened Endpoints
  import opened Dfu
  import opened DfuTransfer

  // Bytes from packets

  lemma ReadByte(rx: Rx)
    requires Filled(rx.queue) && rx.Stream() != []
    ensures !rx.Exhausted()
    ensures var s, r := rx.Stream(), rx.Refilled();
            r.Head() == s[0] && Filled(r.Advance().queue) && r.Advance().Stream() == s[1..]
  {
    var r := rx.Refilled();
    assert r.bank != [] && r.Stream() == rx.Stream();
    assert r.bank[1..] + Flatten(r.queue) == rx.Stream()[1..];
  }

  lemma {:induction false} ProgramEepromBytes(c: Chip, rx: Rx, addr: word, n: nat)
    requires c.Valid() && Filled(rx.queue) && n <= |rx.Stream()| && addr + n <= c.part.eepromSize
    ensures var (p, a) := ProgramEeprom(c, rx, addr, n);
            p.complete && p.chip == c.(eeprom := Splice(c.eeprom, addr, rx.Stream()[..n])) && a == addr + n
    decreases n
  {
    hide Rx.Stream, Rx.Refilled, Rx.Head, Rx.Advance, Filled, Splice, Chip.WriteEeprom;
    var stream := rx.Stream();
    if n == 0 {
      SpliceNone(c.eeprom, addr);
    } else {
      ReadByte(rx);
      EepromByteWritten(c, addr, stream[0]);
      var d := c.WriteEeprom(addr, stream[0]);
      ProgramEepromBytes(d, rx.Refilled().Advance(), addr + 1, n - 1);
      SpliceNext(c.eeprom, addr, [stream[0]], stream[1..][..n - 1]);
      assert stream[..n] == [stream[0]] + stream[1..][..n - 1];
    }
  }

  // Downloads

  lemma DownloadHandled(s: State, t: Transfer)
    requires s.Valid() && !s.isSecure && !s.waitForExit && t.Valid() && t.memory == EEPROM
    ensures var (p, a) := ProgramEeprom(s.chip, t.FirmwareRx(), t.start, |t.payload|);
            Handle(s, t.Request()).state
            == s.(sent := t.Command(), mode := DownloadIdle, startAddr := a, endAddr := t.End(), chip := p.chip)
  {
    hide LoadParameters, ProgramEeprom, Discard, Packets, Rx.Head, Rx.Advance, Transfer.Stage, Transfer.Rest;
    hide LoadAddresses;
    var s0 := s.(sent := s.sent.(size := |t.Stage()|));
    StageLoaded(s0.sent, t);
    DiscardBank(Rx(t.filler, Packets(PACKET_SIZE, t.Rest())), FILLER_SIZE);
    assert t.filler[FILLER_SIZE..] == [];
    StageAddresses(s0.(sent := t.Command()), t);
  }

  /** The bytes that reach EEPROM: the payload, or, off a packet boundary, the last alignment byte and
      all of the payload but its last byte. */
  lemma BytesRead(t: Transfer)
    requires t.Valid()
    ensures var rx, n := t.FirmwareRx(), |t.payload|;
            && Filled(rx.queue) && n <= |rx.Stream()|
            && rx.Stream()[..n]
               == if t.align == [] then t.payload else [t.align[|t.align| - 1]] + t.payload[..n - 1]
  {
    hide Filled, Transfer.FirmwareRx, Packets, Rx.Stream;
    var r, rest, n := |t.align|, t.Rest(), |t.payload|;
    var q := Packets(PACKET_SIZE, rest);
    PacketsFilled(PACKET_SIZE, rest);
    FilledRest(q);
    FirmwareRead(t);
    if r == 0 {
      assert rest[0..] == rest && rest[..n] == t.payload;
    } else {
      assert rest[r - 1..][..n] == [t.align[r - 1]] + t.payload[..n - 1];
    }
  }

  lemma EepromDownloaded(s: State, t: Transfer)
    requires s.Valid() && !s.isSecure && !s.waitForExit && t.Valid() && t.memory == EEPROM
    requires t.start + |t.payload| <= s.chip.part.eepromSize
    ensures var n := |t.payload|;
            var written := if t.align == [] then t.payload else [t.align[|t.align| - 1]] + t.payload[..n - 1];
            Handle(s, t.Request()).state.chip == s.chip.(eeprom := Splice(s.chip.eeprom, t.start, written))
  {
    hide Handle, ProgramEeprom, Splice, Transfer.FirmwareRx, Transfer.Request, Transfer.Command;
    DownloadHandled(s, t);
    BytesRead(t);
    ProgramEepromBytes(s.chip, t.FirmwareRx(), t.start, |t.payload|);
  }

  /** EEPROM holds exactly the payload after the download, and nothing else changed in memory. */
  ghost predicate Right(s: State, t: Transfer)
    requires s.Valid() && t.Valid() && t.start + |t.payload| <= s.chip.part.eepromSize
  {
    Handle(s, t.Request()).state.chip == s.chip.(eeprom := Splice(s.chip.eeprom, t.start, t.payload))
  }

  /** A download writes every payload of its length correctly exactly when it starts on a packet
      boundary; the length may be odd. */
  lemma EepromExactly(s: State, t: Transfer)
    requires s.Valid() && !s.isSecure && !s.waitForExit && t.Valid() && t.memory == EEPROM
    requires t.start + |t.payload| <= s.chip.part.eepromSize
    ensures t.start % PACKET_SIZE == 0 <==>
            forall payload: seq<byte> :: |payload| == |t.payload| ==> Right(s, t.(payload := payload))
  {
    hide Handle, Splice;
    if t.start % PACKET_SIZE == 0 {
      forall payload: seq<byte> | |payload| == |t.payload|
        ensures Right(s, t.(payload := payload))
      {
        EepromDownloaded(s, t.(payload := payload));
      }
    } else {
      var last := t.align[|t.align| - 1];
      var x: byte := if last == 0 then 1 else 0;
      var payload: seq<byte> := seq(|t.payload|, _ => x);
      var u := t.(payload := payload);
      EepromDownloaded(s, u);
      SpliceAt(s.chip.eeprom, t.start, payload, t.start);
      SpliceAt(s.chip.eeprom, t.start, [last] + payload[..|payload| - 1], t.start);
      assert |payload| == |t.payload| && !Right(s, t.(payload := payload));
    }
  }

  // Reading back

  /** The packets that an EEPROM read command followed by an upload returns. */
  function ReadOut(s: State, start: word, end: word): seq<Packet>
    requires s.Valid()
  {
    Handle(Handle(s, CommandRequest(AddressCommand(COMMAND_DISP_DATA, 2, start, end))).state, UPLOAD).response.packets
  }

  lemma UploadHandled(s: State, start: word, end: word)
    requires s.Valid() && !s.isSecure && !s.waitForExit && start <= end && end - start + 1 < 0x1_0000
    ensures ReadOut(s, start, end) == Packets(PACKET_SIZE, EepromBytes(s.chip, start, end - start + 1))
  {
    hide Packets, EepromBytes, LoadParameters, DownloadTail, Lo, Hi, Word;
    var bytes := AddressCommand(COMMAND_DISP_DATA, 2, start, end);
    CommandHandled(s, bytes);
    WordParts(start);
    WordParts(end);
    assert bytes[1..] == [2, Hi(start), Lo(start), Hi(end), Lo(end)];
    var u := s.(sent := Command(COMMAND_DISP_DATA, bytes[1..], 0));
    assert LoadAddresses(u) == u.(startAddr := start, endAddr := end);
    assert Process(u) == u.(startAddr := start, endAddr := end, mode := UploadIdle);
    hide Process;
  }

  lemma EepromBytesSlice(c: Chip, a: word, n: nat)
    requires c.Valid() && a + n <= c.part.eepromSize
    ensures EepromBytes(c, a, n) == c.eeprom[a..a + n]
  {
    forall i | 0 <= i < n
      ensures EepromBytes(c, a, n)[i] == c.eeprom[a + i]
    {
      c.part.WrapInside(a + i);
    }
  }

  /** What a download wrote to EEPROM, an upload of the same range returns. */
  lemma DownloadThenUpload(s: State, t: Transfer)
    requires s.Valid() && !s.isSecure && !s.waitForExit && t.Valid() && t.memory == EEPROM
    requires t.start + |t.payload| <= s.chip.part.eepromSize
    requires t.start % PACKET_SIZE == 0
    ensures var packets := ReadOut(Handle(s, t.Request()).state, t.start, t.End());
            packets == Packets(PACKET_SIZE, t.payload) && Flatten(packets) == t.payload
  {
    hide Handle, Packets, Flatten, ReadOut, EepromBytes, Splice, ProgramEeprom;
    hide Transfer.Request, Transfer.FirmwareRx, Transfer.Command;
    var u := Handle(s, t.Request()).state;
    EepromDownloaded(s, t);
    DownloadHandled(s, t);
    UploadHandled(u, t.start, t.End());
    EepromBytesSlice(u.chip, t.start, |t.payload|);
    SpliceOver(s.chip.eeprom, t.start, t.payload, t.payload);
    FlattenPackets(PACKET_SIZE, t.payload);
  }

  /** Two bytes for EEPROM address 1 arrive behind one alignment byte, which is written in front of
      the first of them. */
  lemma MisalignedByOne(s: State, filler: seq<byte>, suffix: seq<byte>)
    requires s.Valid() && !s.isSecure && !s.waitForExit && 3 <= s.chip.part.eepromSize
    requires |filler| == FILLER_SIZE && |suffix| == SUFFIX_SIZE
    ensures var e := Handle(s, Transfer(EEPROM, 1, filler, [0], [0x12, 0x34], suffix).Request()).state.chip.eeprom;
            |e| == s.chip.part.eepromSize && e[1] == 0 && e[2] == 0x12
  {
    hide Handle, Transfer.Request;
    EepromDownloaded(s, Transfer(EEPROM, 1, filler, [0], [0x12, 0x34], suffix));
  }
}
