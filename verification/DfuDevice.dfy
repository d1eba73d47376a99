/** The DFU bootloader as it runs: static variables updated by the control request handler, with
    loops over the endpoint and the memory. */
module DfuDevice {
  import opened Chips
  import opened Devices
  import opened Programming
  import opened Endpoints
  import opened Dfu

  class Bootloader {
    const dev: Device
    var isSecure: bool
    var runBootloader: bool
    var waitForExit: bool
    var mode: Mode
    var status: Status
    var sent: Command
    var responseByte: byte
    var appStart: word
    var flash64KPage: byte
    var startAddr: word
    var endAddr: word
    /** The control endpoint's OUT side. */
    var rx: Rx
    /** The control endpoint's IN side: packets sent, and the bank being filled. */
    var tx: seq<Packet>
    var txBank: Packet

    ghost predicate Valid()
      reads this
    {
      dev.Valid() && sent.Valid()
    }

    ghost function Value(): (s: State)
      requires Valid()
      reads this, dev.flash, dev.eeprom, dev.buffer
      ensures s.Valid()
    {
      State(isSecure, runBootloader, waitForExit, mode, status, sent, responseByte, appStart, flash64KPage,
            startAddr, endAddr, dev.Value())
    }

    constructor (dev: Device, secure: bool)
      requires dev.Valid()
      ensures this.dev == dev && Valid() && Value() == Reset(secure, dev.Value())
    {
      this.dev := dev;
      isSecure, runBootloader, waitForExit, mode, status := secure, true, false, Idle, Ok;
      sent, responseByte, appStart, flash64KPage, startAddr, endAddr := Command(0, [0, 0, 0, 0, 0], 0), 0, 0, 0, 0, 0;
      rx, tx, txBank := Rx([], []), [], [];
    }

    method DiscardFillerBytes(n: nat)
      requires Valid()
      modifies this`rx
      ensures rx == Discard(old(rx), n)
    {
      var left := n;
      while left > 0
        invariant Discard(rx, left) == Discard(old(rx), n)
      {
        left := left - 1;
        if rx.bank == [] {
          if rx.queue == [] {
            return;
          }
          rx := rx.Next();
        } else {
          rx := rx.Advance();
        }
      }
    }

    method LoadStartEndAddresses()
      requires Valid()
      modifies this`startAddr, this`endAddr
      ensures Value() == LoadAddresses(old(Value()))
    {
      startAddr := Word(sent.data[2], sent.data[1]);
      endAddr := Word(sent.data[4], sent.data[3]);
    }

    method ProcessMemProgCommand()
      requires Valid()
      modifies this`startAddr, this`endAddr, this`mode, dev.flash
      ensures Value() == MemProg(old(Value()))
    {
      hide Chip.Erase, Word;
      if sent.Is(0) || sent.Is(1) {
        LoadStartEndAddresses();
        if sent.Is(0) {
          dev.ErasePage(0x1_0000 * flash64KPage + startAddr);
        }
        mode := DownloadIdle;
      }
    }

    method ProcessMemReadCommand()
      requires Valid()
      modifies this`startAddr, this`endAddr, this`mode, this`status, this`flash64KPage
      ensures Value() == MemRead(old(Value()))
    {
      hide Word;
      if sent.Is(0) || sent.Is(2) {
        LoadStartEndAddresses();
        mode := UploadIdle;
      } else if sent.Is(1) {
        var boot, curr := dev.part.bootStart, 0;
        ghost var flash := dev.Value().flash;
        while curr < boot
          invariant curr <= boot
          invariant FirstUsed(flash, curr, boot) == FirstUsed(flash, 0, boot)
          invariant Value() == old(Value())
        {
          var b := dev.ReadFlash(curr);
          dev.part.WrapInside(curr);
          if b != BLANK {
            flash64KPage, startAddr := curr / 0x1_0000, curr % 0x1_0000;
            mode, status := Error, ErrCheckErased;
            return;
          }
          curr := curr + 1;
        }
      }
    }

    method ProcessWriteCommand()
      requires Valid()
      modifies this`waitForExit, this`appStart, this`runBootloader, this`isSecure, dev.flash, dev.buffer
      ensures Value() == Write(old(Value()))
    {
      hide ErasedApplication, Word;
      if sent.Is(3) {
        waitForExit := true;
        if sent.size != 0 {
          if sent.data[1] == 1 {
            appStart := Word(sent.data[4], sent.data[3]);
          }
        } else if sent.data[1] != 0 {
          runBootloader := false;
        }
      } else if sent.IsTwo(0, 0xFF) {
        dev.EraseApplication();
        isSecure := false;
      }
    }

    method ProcessReadCommand()
      requires Valid()
      modifies this`responseByte
      ensures Value() == Read(old(Value()))
    {
      if sent.Is(0) || sent.Is(1) {
        responseByte := Identification(sent.data[0], sent.data[1]);
      }
    }

    method ProcessBootloaderCommand() returns (stall: bool)
      requires Valid()
      modifies this, dev.flash, dev.buffer
      ensures Valid() && rx == old(rx)
      ensures Value() == Process(old(Value())) && stall == Refused(old(Value()))
    {
      hide MemProg, MemRead, Write, Read;
      stall := false;
      if isSecure && !(sent.code == COMMAND_WRITE && sent.IsTwo(0, 0xFF)) && sent.code != COMMAND_READ {
        mode, status := Error, ErrWrite;
        return true;
      }
      if sent.code == COMMAND_PROG_START {
        ProcessMemProgCommand();
      } else if sent.code == COMMAND_DISP_DATA {
        ProcessMemReadCommand();
      } else if sent.code == COMMAND_WRITE {
        ProcessWriteCommand();
      } else if sent.code == COMMAND_READ {
        ProcessReadCommand();
      } else if sent.code == COMMAND_CHANGE_BASE_ADDR {
        if sent.IsTwo(3, 0) {
          flash64KPage := sent.data[2];
        }
      }
    }

    method WriteFlash() returns (complete: bool)
      requires Valid()
      modifies this`rx, this`startAddr, dev.flash, dev.buffer
      ensures var a, s := FlashAddress(old(Value())), old(Value());
              var p := ProgramWords(s.chip, old(rx), a, a, 0, RangeLength(s) / 2);
              && complete == p.complete
              && Value() == s.(chip := p.chip, startAddr := if p.complete then s.endAddr else s.startAddr)
    {
      hide Chip.Fill, Chip.Erase, Chip.Commit, Rx.Refilled, Rx.Head, Rx.Advance;
      var addr: nat := 0x1_0000 * flash64KPage + startAddr;
      var words: nat := Inc16(Sub16(endAddr, startAddr)) / 2;
      var page: nat, filled: nat := addr, 0;
      ghost var start := ProgramWords(dev.Value(), rx, addr, addr, 0, words);
      while words > 0
        invariant ProgramWords(dev.Value(), rx, addr, page, filled, words) == start
        invariant dev.Valid() && Value() == old(Value()).(chip := dev.Value())
        decreases words
      {
        if rx.Exhausted() {
          return false;
        }
        rx := rx.Refilled();
        dev.FillWord(addr, rx.Head(), rx.Advance().Head());
        rx := rx.Advance().Advance();
        filled := filled + 1;
        addr := addr + 2;
        words := words - 1;
        if filled == dev.part.pageSize / 2 || words == 0 {
          dev.WritePage(page);
          if words != 0 {
            page, filled := addr, 0;
            dev.ErasePage(addr);
          }
        }
      }
      startAddr := endAddr;
      return true;
    }

    method WriteEeprom() returns (complete: bool)
      requires Valid()
      modifies this`rx, this`startAddr, dev.eeprom
      ensures var s := old(Value());
              var (p, a) := ProgramEeprom(s.chip, old(rx), s.startAddr, RangeLength(s));
              complete == p.complete && Value() == s.(chip := p.chip, startAddr := a)
    {
      hide Chip.WriteEeprom, Rx.Refilled, Rx.Head, Rx.Advance;
      var left: nat := Inc16(Sub16(endAddr, startAddr));
      ghost var start := ProgramEeprom(dev.Value(), rx, startAddr, left);
      while left > 0
        invariant ProgramEeprom(dev.Value(), rx, startAddr, left) == start
        invariant dev.Valid() && Value() == old(Value()).(chip := dev.Value(), startAddr := startAddr)
        decreases left
      {
        if rx.Exhausted() {
          return false;
        }
        rx := rx.Refilled();
        dev.WriteEeprom(startAddr, rx.Head());
        rx := rx.Advance();
        startAddr := Inc16(startAddr);
        left := left - 1;
      }
      return true;
    }

    /** Put bytes into the IN bank, sending it first if it is full. */
    method Send(more: seq<byte>, ghost bytes: seq<byte>)
      requires 0 < |more| <= PACKET_SIZE && (|txBank| == PACKET_SIZE || |txBank| + |more| <= PACKET_SIZE)
      requires Packets(PACKET_SIZE, bytes) == tx + [txBank]
      modifies this`tx, this`txBank
      ensures Packets(PACKET_SIZE, bytes + more) == tx + [txBank]
      ensures |txBank| == (if old(|txBank|) == PACKET_SIZE then 0 else old(|txBank|)) + |more|
    {
      PacketsAppend(PACKET_SIZE, bytes, tx, txBank, more);
      if |txBank| == PACKET_SIZE {
        tx := tx + [txBank];
        txBank := [];
        assert [] + more == more;
      }
      txBank := txBank + more;
    }

    method SendFlash()
      requires Valid()
      modifies this`tx, this`txBank
      ensures var s := Value();
              tx + [txBank] == Packets(PACKET_SIZE, FlashBytes(s.chip, FlashAddress(s), RangeLength(s) / 2 * 2))
    {
      hide Chip.ReadFlash, FlashBytes, Packets;
      var start: nat := 0x1_0000 * flash64KPage + startAddr;
      var words: nat := Inc16(Sub16(endAddr, startAddr)) / 2;
      tx, txBank := [], [];
      ghost var c := dev.Value();
      FirstPacket(c, start);
      for i := 0 to words
        invariant Packets(PACKET_SIZE, FlashBytes(c, start, 2 * i)) == tx + [txBank]
        invariant |txBank| % 2 == 0 && |txBank| <= PACKET_SIZE
      {
        var lo := dev.ReadFlash(start + 2 * i);
        var hi := dev.ReadFlash(start + 2 * i + 1);
        Send([lo, hi], FlashBytes(c, start, 2 * i));
        assert FlashBytes(c, start, 2 * i) + [lo, hi] == FlashBytes(c, start, 2 * (i + 1));
      }
    }

    method SendEeprom()
      requires Valid()
      modifies this`tx, this`txBank, this`startAddr
      ensures var s := old(Value());
              && tx + [txBank] == Packets(PACKET_SIZE, EepromBytes(s.chip, s.startAddr, RangeLength(s)))
              && Value() == s.(startAddr := Inc16(s.endAddr))
    {
      hide Chip.ReadEeprom, EepromBytes, Packets;
      var start := startAddr;
      var n: nat := Inc16(Sub16(endAddr, startAddr));
      tx, txBank := [], [];
      ghost var c := dev.Value();
      FirstEepromPacket(c, start);
      for i := 0 to n
        invariant Packets(PACKET_SIZE, EepromBytes(c, start, i)) == tx + [txBank]
        invariant |txBank| <= PACKET_SIZE
        invariant startAddr == (start + i) % 0x1_0000
        invariant Value() == old(Value()).(startAddr := startAddr)
      {
        var b := dev.ReadEeprom(startAddr);
        Send([b], EepromBytes(c, start, i));
        assert EepromBytes(c, start, i) + [b] == EepromBytes(c, start, i + 1);
        startAddr := Inc16(startAddr);
      }
    }

    /** Load a command's parameters from the packet in the bank. */
    method LoadCommand()
      requires Valid()
      modifies this`sent, this`rx
      ensures Valid() && (sent, rx) == LoadParameters(old(sent), old(rx), 0)
    {
      var i := 0;
      while i < 5 && rx.bank != []
        invariant 0 <= i <= 5 && Valid()
        invariant LoadParameters(sent, rx, i) == LoadParameters(old(sent), old(rx), 0)
        decreases 5 - i
      {
        sent := sent.(data := sent.data[i := rx.Head()], size := Sub16(sent.size, 1));
        rx := rx.Advance();
        i := i + 1;
      }
    }

    /** The firmware part of a download, if one is in progress. */
    method LoadFirmware() returns (complete: bool)
      requires Valid()
      modifies this, dev.flash, dev.buffer, dev.eeprom
      ensures Valid()
      ensures Outcome(Value(), complete) == DownloadTail(old(Value()), old(rx))
    {
      hide ProgramWords, ProgramEeprom, Discard;
      complete := true;
      if mode.DownloadIdle? {
        if sent.size == 0 {
          mode := Idle;
        } else {
          DiscardFillerBytes(FILLER_SIZE);
          DiscardFillerBytes(startAddr % PACKET_SIZE);
          if sent.Is(0) {
            complete := WriteFlash();
          } else {
            complete := WriteEeprom();
          }
          if complete {
            DiscardFillerBytes(SUFFIX_SIZE);
          }
        }
      }
    }

    method ReceiveData() returns (stall: bool, complete: bool)
      requires Valid() && rx.bank == []
      modifies this, dev.flash, dev.buffer, dev.eeprom
      ensures Valid()
      ensures Handled(Value(), Response([], stall), complete) == DataStage(old(Value()), old(rx.queue))
    {
      hide Process, LoadParameters, DownloadTail, Refused;
      stall, complete := false, true;
      if sent.size != 0 {
        if rx.queue == [] {
          return false, false;
        }
        rx := rx.Next();
        sent := sent.(code := rx.Head(), size := Sub16(sent.size, 1));
        rx := rx.Advance();
        LoadCommand();
        stall := ProcessBootloaderCommand();
      }
      complete := LoadFirmware();
    }

    method HandleDownload(packets: seq<Packet>) returns (stall: bool, complete: bool)
      requires Valid()
      modifies this, dev.flash, dev.buffer, dev.eeprom
      ensures Valid()
      ensures Handled(Value(), Response([], stall), complete) == Download(old(Value()), packets)
    {
      hide Process, DataStage, Refused;
      rx := Rx([], packets);
      var refused := false;
      if waitForExit {
        refused := ProcessBootloaderCommand();
        waitForExit := false;
      }
      stall, complete := ReceiveData();
      stall := refused || stall;
    }

    method HandleUpload()
      requires Valid()
      modifies this
      ensures Valid() && Answered(Value(), tx + [txBank]) == Upload(old(Value()))
    {
      hide FlashBytes, EepromBytes, Packets, Lo, Hi;
      tx, txBank := [], [];
      if !mode.UploadIdle? {
        if mode.Error? && sent.Is(1) {
          txBank := [Lo(startAddr), Hi(startAddr)];
        } else {
          txBank := [responseByte];
        }
      } else {
        if sent.Is(0) {
          SendFlash();
          startAddr := endAddr;
        } else if sent.Is(2) {
          SendEeprom();
        }
        mode := Idle;
      }
    }

    /** The handler of control requests. */
    method ControlRequest(req: Request) returns (response: Response, complete: bool)
      requires Valid()
      modifies this, dev.flash, dev.buffer, dev.eeprom
      ensures Valid() && Handled(Value(), response, complete) == Handle(old(Value()), req)
    {
      hide Download, Upload;
      response, complete := Response([], false), true;
      if !req.toDfu {
        return;
      }
      sent := sent.(size := req.length);
      if req.code == REQ_DNLOAD {
        var stall;
        stall, complete := HandleDownload(req.packets);
        response := Response([], stall);
      } else if req.code == REQ_UPLOAD {
        HandleUpload();
        response := Response(tx + [txBank], false);
      } else if req.code == REQ_GETSTATUS {
        response := Response([[status.Code(), 0, 0, 0, mode.Code(), 0]], false);
      } else if req.code == REQ_CLRSTATUS {
        status := Ok;
      } else if req.code == REQ_GETSTATE {
        response := Response([[mode.Code()]], false);
      } else if req.code == REQ_ABORT {
        mode := Idle;
      }
    }
  }

  lemma FirstPacket(c: Chip, a: nat)
    requires c.Valid()
    ensures Packets(PACKET_SIZE, FlashBytes(c, a, 0)) == [] + [[]]
  {
    assert FlashBytes(c, a, 0) == [];
  }

  lemma FirstEepromPacket(c: Chip, a: word)
    requires c.Valid()
    ensures Packets(PACKET_SIZE, EepromBytes(c, a, 0)) == [] + [[]]
  {
    assert EepromBytes(c, a, 0) == [];
  }
}
