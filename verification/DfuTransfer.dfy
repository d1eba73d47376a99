/** Downloading a firmware image over DFU and reading it back. */
module DfuTransfer {
  import opened Chips
  import opened Programming
  import opened Endpoints
  import opened Dfu

  // Words from packets

  /** The packets left once `n` words have been read. */
  function AfterWords(rx: Rx, n: nat): Rx
    decreases n
  {
    if n == 0 || rx.Exhausted() then rx
    else AfterWords(rx.Refilled().Advance().Advance(), n - 1)
  }

  lemma {:induction false} AfterWordsStream(rx: Rx, n: nat)
    requires EvenRx(rx) && 2 * n <= |rx.Stream()|
    ensures EvenRx(AfterWords(rx, n)) && AfterWords(rx, n).Stream() == rx.Stream()[2 * n..]
    decreases n
  {
    if n != 0 {
      ReadWord(rx);
      AfterWordsStream(rx.Refilled().Advance().Advance(), n - 1);
    }
  }

  /** Words are only loaded into the buffer while the page is not full and more are to come. */
  lemma {:induction false} FillPart(c: Chip, rx: Rx, addr: nat, page: nat, filled: nat, remaining: nat, n: nat)
    requires c.Valid() && EvenRx(rx) && 2 * n <= |rx.Stream()|
    requires n < remaining && filled + n < c.part.pageSize / 2
    ensures ProgramWords(c, rx, addr, page, filled, remaining)
            == ProgramWords(FillAll(c, addr, rx.Stream()[..2 * n]), AfterWords(rx, n), addr + 2 * n, page,
                            filled + n, remaining - n)
    decreases n
  {
    hide Chip.Fill, Rx.Stream, Rx.Refilled, Rx.Advance, Rx.Head, Rx.Exhausted, EvenRx, Chip.Commit, Chip.Erase;
    var s := rx.Stream();
    if n == 0 {
      assert s[..0] == [];
    } else {
      ReadWord(rx);
      var r := rx.Refilled().Advance().Advance();
      FillPart(c.Fill(addr, s[0], s[1]), r, addr + 2, page, filled + 1, remaining - 1, n - 1);
      assert s[..2 * n][2..] == s[2..][..2 * (n - 1)];
    }
  }

  /** One page of words, or all that are left, is loaded and committed. */
  lemma ProgramChunk(c: Chip, rx: Rx, addr: nat, remaining: nat)
    requires c.Valid() && EvenRx(rx) && 0 < remaining && 2 * remaining <= |rx.Stream()|
    ensures var n := if remaining <= c.part.pageSize / 2 then remaining else c.part.pageSize / 2;
            var w := FillAll(c, addr, rx.Stream()[..2 * n]).Commit(addr);
            ProgramWords(c, rx, addr, addr, 0, remaining)
            == if n == remaining then Progress(w, AfterWords(rx, n), true)
               else ProgramWords(w.Erase(addr + 2 * n), AfterWords(rx, n), addr + 2 * n, addr + 2 * n, 0, remaining - n)
  {
    hide Chip.Fill, Chip.Commit, Chip.Erase, FillAll, AfterWords;
    hide Rx.Stream, Rx.Refilled, Rx.Advance, Rx.Head, Rx.Exhausted, EvenRx;
    var n := if remaining <= c.part.pageSize / 2 then remaining else c.part.pageSize / 2;
    var s := rx.Stream();
    FillPart(c, rx, addr, addr, 0, remaining, n - 1);
    AfterWordsStream(rx, n - 1);
    var r := AfterWords(rx, n - 1);
    ReadWord(r);
    AfterWordsStep(rx, n - 1);
    assert r.Stream()[0] == s[2 * n - 2] && r.Stream()[1] == s[2 * n - 1];
    assert s[..2 * n] == s[..2 * n - 2] + [s[2 * n - 2], s[2 * n - 1]];
    FillAllConcat(c, addr, s[..2 * n - 2], [s[2 * n - 2], s[2 * n - 1]]);
    FillOne(FillAll(c, addr, s[..2 * n - 2]), addr + 2 * n - 2, s[2 * n - 2], s[2 * n - 1]);
  }

  lemma {:induction false} AfterWordsStep(rx: Rx, n: nat)
    requires EvenRx(rx) && 2 * n < |rx.Stream()|
    ensures !AfterWords(rx, n).Exhausted()
    ensures AfterWords(rx, n + 1) == AfterWords(rx, n).Refilled().Advance().Advance()
    decreases n
  {
    ReadWord(rx);
    if n != 0 {
      AfterWordsStep(rx.Refilled().Advance().Advance(), n - 1);
    } else {
      assert AfterWords(rx.Refilled().Advance().Advance(), 0) == rx.Refilled().Advance().Advance();
    }
  }

  /** Words streamed to an erased first page: every page is erased before it is committed, and
      flash ends up programmed. */
  lemma {:induction false} ProgramWordsImage(c: Chip, rx: Rx, a: nat, remaining: nat)
    requires c.Valid() && c.BufferBlank() && EvenRx(rx) && 0 < remaining && 2 * remaining <= |rx.Stream()|
    requires a % 2 == 0 && a + 2 * remaining <= c.part.flashSize
    requires c.part.Aligned(a) || c.part.Offset(a) + 2 * remaining <= c.part.pageSize
    ensures var p := ProgramWords(c.Erase(a), rx, a, a, 0, remaining);
            && p.complete
            && p.chip == c.(flash := Programmed(c.part, c.flash, a, rx.Stream()[..2 * remaining]))
    decreases remaining
  {
    hide Chip.Fill, Chip.Commit, Chip.Erase, FillAll, AfterWords, ProgramWords, Programmed, Blanks, Part.Offset;
    hide Rx.Stream, EvenRx;
    var n := if remaining <= c.part.pageSize / 2 then remaining else c.part.pageSize / 2;
    var s := rx.Stream();
    ProgramChunk(c.Erase(a), rx, a, remaining);
    ErasedPageProgrammed(c, a, s[..2 * n]);
    if n < remaining {
      var w := c.(flash := Programmed(c.part, c.flash, a, s[..2 * n]));
      c.part.OffsetNext(a, 2 * n);
      AfterWordsStream(rx, n);
      ProgramWordsImage(w, AfterWords(rx, n), a + 2 * n, remaining - n);
      ProgrammedConcat(c.part, c.flash, a, s[..2 * n], s[2 * n..][..2 * (remaining - n)]);
      assert s[..2 * remaining] == s[..2 * n] + s[2 * n..][..2 * (remaining - n)];
    }
  }

  // Commands and the data stage of a download

  lemma {:induction false} LoadParametersAll(sent: Command, rx: Rx, i: nat)
    requires sent.Valid() && i <= 5 && |rx.bank| >= 5 - i && sent.size >= 5 - i
    ensures LoadParameters(sent, rx, i)
            == (sent.(data := sent.data[..i] + rx.bank[..5 - i], size := sent.size - (5 - i)),
                rx.(bank := rx.bank[5 - i..]))
    decreases 5 - i
  {
    if i == 5 {
      assert sent.data[..5] + rx.bank[..0] == sent.data && rx.bank[0..] == rx.bank;
    } else {
      var data := sent.data[i := rx.Head()];
      LoadParametersAll(sent.(data := data, size := sent.size - 1), rx.Advance(), i + 1);
      assert data[..i + 1] + rx.bank[1..][..4 - i] == sent.data[..i] + rx.bank[..5 - i];
      assert rx.bank[1..][4 - i..] == rx.bank[5 - i..];
    }
  }

  /** A request that carries a command. */
  function CommandRequest(bytes: seq<byte>): Request
    requires |bytes| == 6
  {
    Request(true, REQ_DNLOAD, 6, [bytes])
  }

  /** A command request processes its command. */
  lemma CommandHandled(s: State, bytes: seq<byte>)
    requires s.Valid() && !s.waitForExit && |bytes| == 6
    ensures var t := Process(s.(sent := Command(bytes[0], bytes[1..], 0)));
            Handle(s, CommandRequest(bytes)).state == if t.mode.DownloadIdle? then t.(mode := Idle) else t
    ensures Handle(s, CommandRequest(bytes)).response
            == Response([], Refused(s.(sent := Command(bytes[0], bytes[1..], 0))))
  {
    hide Process, LoadParameters, Firmware;
    var command := s.sent.(code := bytes[0], size := 5);
    var rx := Rx(bytes[1..], []);
    assert Rx([], [bytes]).Next().Advance() == rx;
    LoadParametersAll(command, rx, 0);
    assert command.data[..0] + bytes[1..][..5] == bytes[1..];
  }

  function AddressCommand(code: byte, memory: byte, start: word, end: word): seq<byte> {
    [code, memory, Hi(start), Lo(start), Hi(end), Lo(end)]
  }

  const FLASH: byte := 0
  const EEPROM: byte := 1

  /** A download to flash or EEPROM: filler up to the end of the first packet, alignment bytes, the
      payload and the file suffix follow the command. */
  datatype Transfer = Transfer(
    memory: byte, start: word, filler: seq<byte>, align: seq<byte>, payload: seq<byte>, suffix: seq<byte>)
  {

    predicate Valid() {
      && (memory == FLASH || memory == EEPROM) && 0 < |payload| && start + |payload| <= 0x1_0000
      && |filler| == FILLER_SIZE && |align| == start % PACKET_SIZE && |suffix| == SUFFIX_SIZE
      && |align| + |payload| + 48 < 0x1_0000
    }

    function End(): word
      requires Valid()
    {
      start + |payload| - 1
    }

    function Rest(): (r: seq<byte>)
      ensures |r| == |align| + |payload| + |suffix|
    {
      align + payload + suffix
    }

    /** The data stage of the request. */
    function Stage(): (bytes: seq<byte>)
      requires Valid()
      ensures |bytes| == 48 + |align| + |payload|
    {
      AddressCommand(COMMAND_PROG_START, memory, start, End()) + filler + Rest()
    }

    function Command(): Dfu.Command
      requires Valid()
    {
      Dfu.Command(COMMAND_PROG_START, Stage()[1..6], |Stage()| - 6)
    }

    function Request(): Dfu.Request
      requires Valid()
    {
      Dfu.Request(true, REQ_DNLOAD, |Stage()|, Packets(PACKET_SIZE, Stage()))
    }

    /** The packets from which the payload is read, once filler has been dropped. */
    function FirmwareRx(): Rx {
      Discard(Rx([], Packets(PACKET_SIZE, Rest())), start % PACKET_SIZE)
    }

    function Address(s: State): nat {
      0x1_0000 * s.flash64KPage + start
    }

    /** The flash range has even length and starts on a packet boundary, and on a page boundary unless
        it stays in one page. */
    predicate Downloadable(s: State)
      requires s.Valid()
    {
      var a, part := Address(s), s.chip.part;
      && start % PACKET_SIZE == 0 && |payload| % 2 == 0
      && (part.Aligned(a) || part.Offset(a) + |payload| <= part.pageSize)
    }
  }

  lemma {:induction false} DiscardBank(rx: Rx, n: nat)
    requires n <= |rx.bank|
    ensures Discard(rx, n) == rx.(bank := rx.bank[n..])
    decreases n
  {
    if n == 0 {
      assert rx.bank[0..] == rx.bank;
    } else {
      DiscardBank(rx.Advance(), n - 1);
      assert rx.bank[1..][n - 1..] == rx.bank[n..];
    }
  }

  lemma DiscardNext(q: seq<Packet>, n: nat)
    requires q != [] && 0 < n
    ensures Discard(Rx([], q), n) == Discard(Rx(q[0], q[1..]), n - 1)
  {
  }

  /** Off a packet boundary one alignment byte is left when the payload is read. */
  lemma FirmwareRead(t: Transfer)
    requires t.Valid()
    ensures var r, q, rx := |t.align|, Packets(PACKET_SIZE, t.Rest()), t.FirmwareRx();
            && (r == 0 ==> rx == Rx([], q))
            && (r > 0 ==> r <= |q[0]| && rx == Rx(q[0][r - 1..], q[1..]))
            && rx.Stream() == t.Rest()[if r == 0 then 0 else r - 1..]
  {
    hide Discard, Flatten;
    var r, rest, q := |t.align|, t.Rest(), Packets(PACKET_SIZE, t.Rest());
    FlattenPackets(PACKET_SIZE, rest);
    FlattenStep(q);
    assert q[0] == if |rest| <= 32 then rest else rest[..32];
    if r == 0 {
      DiscardBank(Rx([], q), 0);
      assert [] + rest == rest;
    } else {
      DiscardNext(q, r);
      DiscardBank(Rx(q[0], q[1..]), r - 1);
      assert q[0][r - 1..] + Flatten(q[1..]) == (q[0] + Flatten(q[1..]))[r - 1..];
    }
  }

  lemma StageLoaded(sent: Command, t: Transfer)
    requires sent.Valid() && t.Valid()
    ensures var rx := Rx([], Packets(PACKET_SIZE, t.Stage())).Next();
            && rx.Head() == COMMAND_PROG_START
            && LoadParameters(sent.(code := COMMAND_PROG_START, size := |t.Stage()| - 1), rx.Advance(), 0)
               == (t.Command(), Rx(t.filler, Packets(PACKET_SIZE, t.Rest())))
  {
    hide LoadParameters, Lo, Hi, Transfer.Rest;
    var bytes := t.Stage();
    assert bytes[32..] == t.Rest();
    var rx := Rx([], Packets(PACKET_SIZE, bytes)).Next();
    assert rx == Rx(bytes[..32], Packets(PACKET_SIZE, t.Rest()));
    LoadParametersAll(sent.(code := COMMAND_PROG_START, size := |bytes| - 1), rx.Advance(), 0);
    assert sent.data[..0] + bytes[..32][1..][..5] == bytes[1..6];
    assert bytes[..32][1..][5..] == t.filler;
  }

  lemma StageAddresses(s: State, t: Transfer)
    requires s.Valid() && t.Valid() && s.sent == t.Command()
    ensures s.sent.Is(t.memory) && LoadAddresses(s) == s.(startAddr := t.start, endAddr := t.End())
  {
    hide Lo, Hi, Word, Transfer.Rest;
    WordParts(t.start);
    WordParts(t.End());
    assert t.Stage()[1..6] == [t.memory, Hi(t.start), Lo(t.start), Hi(t.End()), Lo(t.End())];
  }

  /** A flash download erases the first page, drops filler and programs the payload's words. */
  lemma DownloadHandled(s: State, t: Transfer)
    requires s.Valid() && !s.isSecure && !s.waitForExit && t.Valid() && t.memory == FLASH
    ensures var a := t.Address(s);
            var p := ProgramWords(s.chip.Erase(a), t.FirmwareRx(), a, a, 0, |t.payload| / 2);
            Handle(s, t.Request()).state
            == s.(sent := t.Command(), mode := DownloadIdle,
                  startAddr := if p.complete then t.End() else t.start, endAddr := t.End(), chip := p.chip)
  {
    hide LoadParameters, ProgramWords, Discard, Packets, Chip.Erase, Rx.Head, Rx.Advance, Transfer.Stage, Transfer.Rest;
    hide LoadAddresses;
    var s0 := s.(sent := s.sent.(size := |t.Stage()|));
    StageLoaded(s0.sent, t);
    DiscardBank(Rx(t.filler, Packets(PACKET_SIZE, t.Rest())), FILLER_SIZE);
    assert t.filler[FILLER_SIZE..] == [];
    StageAddresses(s0.(sent := t.Command()), t);
  }

  lemma AlignedRx(t: Transfer)
    requires t.Valid() && t.start % PACKET_SIZE == 0 && |t.payload| % 2 == 0
    ensures EvenRx(t.FirmwareRx()) && t.FirmwareRx().Stream() == t.payload + t.suffix
  {
    hide Packets, Flatten, EvenPackets;
    var all := t.payload + t.suffix;
    assert t.Rest() == all;
    assert t.FirmwareRx() == Rx([], Packets(PACKET_SIZE, all));
    PacketsEven(PACKET_SIZE, all);
    FlattenPackets(PACKET_SIZE, all);
    assert [] + all == all;
  }

  /** A download whose first address is on a packet boundary and whose range starts on a page
      boundary or stays inside one page programs the firmware. */
  lemma DownloadProgrammed(s: State, t: Transfer)
    requires s.Valid() && !s.isSecure && !s.waitForExit && s.chip.BufferBlank() && t.Valid() && t.memory == FLASH
    requires t.Address(s) + |t.payload| <= s.chip.part.flashSize && t.Downloadable(s)
    ensures var u := Handle(s, t.Request()).state;
            && u.chip == s.chip.(flash := Programmed(s.chip.part, s.chip.flash, t.Address(s), t.payload))
            && u == s.(chip := u.chip, sent := u.sent, startAddr := t.End(), endAddr := t.End(), mode := DownloadIdle)
  {
    hide Handle, ProgramWords, Programmed, Chip.Erase, Part.Offset, Transfer.Request, Transfer.Command, Transfer.FirmwareRx;
    EvenSum(0x8000 * s.flash64KPage, t.start);
    PacketEven(t.start);
    DownloadHandled(s, t);
    AlignedRx(t);
    ProgramWordsImage(s.chip, t.FirmwareRx(), t.Address(s), |t.payload| / 2);
    assert (t.payload + t.suffix)[..|t.payload|] == t.payload;
  }

  lemma EvenSum(x: nat, y: nat)
    ensures (2 * x + y) % 2 == y % 2
  {
  }

  lemma PacketEven(x: nat)
    requires x % 32 == 0
    ensures x % 2 == 0
  {
    DoubleEven(16 * (x / 32));
  }

  // Reading back

  function ReadCommand(start: word, end: word): Request {
    CommandRequest(AddressCommand(COMMAND_DISP_DATA, 0, start, end))
  }

  const UPLOAD: Request := Request(true, REQ_UPLOAD, 0, [])

  /** The packets that a read command followed by an upload returns. */
  function ReadOut(s: State, start: word, end: word): seq<Packet>
    requires s.Valid()
  {
    Handle(Handle(s, ReadCommand(start, end)).state, UPLOAD).response.packets
  }

  /** A read command followed by an upload returns the addressed words of flash. */
  lemma UploadHandled(s: State, start: word, end: word)
    requires s.Valid() && !s.isSecure && !s.waitForExit && start <= end && end - start + 1 < 0x1_0000
    ensures var n := (end - start + 1) / 2 * 2;
            ReadOut(s, start, end)
            == Packets(PACKET_SIZE, FlashBytes(s.chip, 0x1_0000 * s.flash64KPage + start, n))
  {
    hide Packets, FlashBytes, LoadParameters, DownloadTail, Lo, Hi, Word;
    var bytes := AddressCommand(COMMAND_DISP_DATA, 0, start, end);
    CommandHandled(s, bytes);
    WordParts(start);
    WordParts(end);
    assert bytes[1..] == [0, Hi(start), Lo(start), Hi(end), Lo(end)];
    var u := s.(sent := Command(COMMAND_DISP_DATA, bytes[1..], 0));
    assert LoadAddresses(u) == u.(startAddr := start, endAddr := end);
    assert Process(u) == u.(startAddr := start, endAddr := end, mode := UploadIdle);
    hide Process;
  }

  /** What a download wrote, an upload of the same range returns, in full packets and a last one
      that may be short. */
  lemma DownloadThenUpload(s: State, t: Transfer)
    requires s.Valid() && !s.isSecure && !s.waitForExit && s.chip.BufferBlank() && t.Valid() && t.memory == FLASH
    requires t.Address(s) + |t.payload| <= s.chip.part.flashSize && t.Downloadable(s)
    ensures var packets := ReadOut(Handle(s, t.Request()).state, t.start, t.End());
            packets == Packets(PACKET_SIZE, t.payload) && Flatten(packets) == t.payload
  {
    hide Handle, Programmed, Transfer.Request, ReadOut, Packets, Flatten;
    DownloadProgrammed(s, t);
    ProgrammedData(s.chip.part, s.chip.flash, t.Address(s), t.payload);
    ReadBack(Handle(s, t.Request()).state, t.start, t.payload);
  }

  lemma ReadBack(s: State, start: word, data: seq<byte>)
    requires s.Valid() && !s.isSecure && !s.waitForExit && 0 < |data| < 0x1_0000 && |data| % 2 == 0
    requires start + |data| <= 0x1_0000
    requires var a := 0x1_0000 * s.flash64KPage + start;
             a + |data| <= s.chip.part.flashSize && s.chip.flash[a..a + |data|] == data
    ensures ReadOut(s, start, start + |data| - 1) == Packets(PACKET_SIZE, data)
    ensures Flatten(ReadOut(s, start, start + |data| - 1)) == data
  {
    hide ReadOut, Packets, Flatten, FlashBytes;
    var end: word := start + |data| - 1;
    assert (end - start + 1) / 2 * 2 == |data|;
    UploadHandled(s, start, end);
    FlashBytesSlice(s.chip, 0x1_0000 * s.flash64KPage + start, |data|);
    FlattenPackets(PACKET_SIZE, data);
  }

  lemma FlashBytesSlice(c: Chip, a: nat, n: nat)
    requires c.Valid() && a + n <= c.part.flashSize
    ensures FlashBytes(c, a, n) == c.flash[a..a + n]
  {
    forall i | 0 <= i < n
      ensures FlashBytes(c, a, n)[i] == c.flash[a + i]
    {
      c.part.WrapInside(a + i);
    }
  }

  // Erase and blank check

  const ERASE: Request := CommandRequest([COMMAND_WRITE, 0, 0xFF, 0, 0, 0])
  const BLANK_CHECK: Request := CommandRequest([COMMAND_DISP_DATA, 1, 0, 0, 0, 0])

  ghost predicate InUse(c: Chip)
    requires c.Valid()
  {
    exists i :: 0 <= i < c.part.bootStart && c.flash[i] != BLANK
  }

  /** After a blank check the device is in the error state exactly when some byte of the application
      section is in use or it was in that state before. For a byte in use the registers, and the next
      upload, name the lowest one; otherwise they are as they were. */
  lemma BlankCheckExact(s: State)
    requires s.Valid() && !s.isSecure && !s.waitForExit
    ensures var t, boot := Handle(s, BLANK_CHECK).state, s.chip.part.bootStart;
            && t.chip == s.chip
            && (t.mode.Error? <==> s.mode.Error? || InUse(s.chip))
            && (InUse(s.chip) ==>
                  && t.status.ErrCheckErased?
                  && FlashAddress(t) < boot && s.chip.flash[FlashAddress(t)] != BLANK
                  && forall i :: 0 <= i < FlashAddress(t) ==> s.chip.flash[i] == BLANK)
            && (!InUse(s.chip) ==> t == s.(mode := if s.mode.DownloadIdle? then Idle else s.mode, sent := t.sent))
            && (t.mode.Error? ==> Handle(t, UPLOAD).response.packets == [[Lo(t.startAddr), Hi(t.startAddr)]])
  {
    hide Packets, FlashBytes, LoadParameters, DownloadTail, FirstUsed, Lo, Hi;
    CommandHandled(s, [COMMAND_DISP_DATA, 1, 0, 0, 0, 0]);
  }

  /** A full erase works in secure mode too, opens the device and blanks the application section, up
      to what the page buffer held. A blank check then fails exactly when the buffer was not blank or
      the device was in the error state, which an erase does not end. */
  lemma EraseThenBlankCheck(s: State)
    requires s.Valid() && !s.waitForExit
    ensures var t, boot := Handle(s, ERASE).state, s.chip.part.bootStart;
            && t.chip.BufferBlank() && t == s.(isSecure := false, chip := t.chip, mode := t.mode, sent := t.sent)
            && t.mode == (if s.mode.DownloadIdle? then Idle else s.mode)
            && s.chip.part.pageSize <= boot
            && t.chip.flash == s.chip.buffer + Blanks(boot - s.chip.part.pageSize) + s.chip.flash[boot..]
            && (InUse(t.chip) <==> !s.chip.BufferBlank())
            && (Handle(t, BLANK_CHECK).state.mode.Error? <==> s.mode.Error? || !s.chip.BufferBlank())
  {
    hide Handle, LoadParameters, DownloadTail;
    CommandHandled(s, [COMMAND_WRITE, 0, 0xFF, 0, 0, 0]);
    var t := Handle(s, ERASE).state;
    assert t.chip == ErasedApplication(s.chip);
    ErasedInUse(s.chip);
    BlankCheckExact(t);
  }

  lemma ErasedInUse(c: Chip)
    requires c.Valid()
    ensures c.part.pageSize <= c.part.bootStart
    ensures InUse(ErasedApplication(c)) <==> !c.BufferBlank()
  {
    c.part.BaseBelow(0, c.part.bootStart);
    var flash := ErasedApplication(c).flash;
    if !c.BufferBlank() {
      var i :| 0 <= i < |c.buffer| && c.buffer[i] != BLANK;
      assert flash[i] == c.buffer[i];
    }
  }

  // Refused commands

  const GET_STATUS: Request := Request(true, REQ_GETSTATUS, 6, [])
  const CLEAR_STATUS: Request := Request(true, REQ_CLRSTATUS, 0, [])
  const GET_STATE: Request := Request(true, REQ_GETSTATE, 1, [])
  const ABORT: Request := Request(true, REQ_ABORT, 0, [])

  /** A command that secure mode refuses is stalled and reported as a write error. Clearing the status
      does not end the error state; an abort does. */
  lemma RefusalReported(s: State, bytes: seq<byte>)
    requires s.Valid() && s.isSecure && !s.waitForExit && |bytes| == 6
    requires bytes[0] != COMMAND_READ && !(bytes[0] == COMMAND_WRITE && bytes[1] == 0 && bytes[2] == 0xFF)
    ensures var a := Handle(s, CommandRequest(bytes));
            var b := Handle(a.state, CLEAR_STATUS);
            var c := Handle(b.state, ABORT);
            && a.response == Response([], true) && a.state.chip == s.chip && a.state.isSecure
            && Handle(a.state, GET_STATUS).response.packets == [[3, 0, 0, 0, 10, 0]]
            && Handle(b.state, GET_STATUS).response.packets == [[0, 0, 0, 0, 10, 0]]
            && Handle(b.state, GET_STATE).response.packets == [[10]]
            && Handle(c.state, GET_STATE).response.packets == [[2]]
  {
    hide Download, Upload;
    CommandHandled(s, bytes);
  }

  /** A secure device that refuses a read command, then has its status cleared and is erased: it is
      open and blank, and still reports the error state and a first used address. */
  lemma BlankReportedUsed(chip: Chip)
    requires chip.Valid() && chip.BufferBlank()
    ensures var a := Handle(Reset(true, chip), CommandRequest([COMMAND_DISP_DATA, 0, 0, 0, 0, 1]));
            var b := Handle(Handle(a.state, CLEAR_STATUS).state, ERASE).state;
            var c := Handle(b, BLANK_CHECK).state;
            && a.response.stalled && !c.isSecure && !InUse(c.chip)
            && Handle(c, GET_STATUS).response.packets == [[0, 0, 0, 0, 10, 0]]
            && Handle(c, UPLOAD).response.packets == [[0, 0]]
  {
    hide Download, FirstUsed, ErasedApplication, InUse;
    var s := Reset(true, chip);
    CommandHandled(s, [COMMAND_DISP_DATA, 0, 0, 0, 0, 1]);
    var a := Handle(s, CommandRequest([COMMAND_DISP_DATA, 0, 0, 0, 0, 1])).state;
    var b := Handle(a, CLEAR_STATUS).state;
    EraseThenBlankCheck(b);
    BlankCheckExact(Handle(b, ERASE).state);
  }
}
