/** The HID bootloader: the host loader sends page reports, the device programs them. */
module Hid {
  import opened Chips
  import opened Devices
  import opened Endpoints
  import opened HexReader

  const PACKET_SIZE: nat := 8
  const START_APPLICATION: word := 0xFFFF

  // Device

  /** The bootloader's memory and run flag, and whether the last report was complete; the device
      waits for the missing packets of an incomplete one. */
  datatype State = State(chip: Chip, runBootloader: bool, complete: bool)

  /** Load words into the page buffer. */
  function FillPage(c: Chip, rx: Rx, a: nat, n: nat): (r: (Chip, bool))
    requires c.Valid()
    ensures r.0.Valid() && r.0 == c.(buffer := r.0.buffer)
    decreases n
  {
    if n == 0 then (c, true)
    else if rx.Exhausted() then (c, false)
    else
      var r := rx.Refilled();
      FillPage(c.Fill(a, r.Head(), r.Advance().Head()), r.Advance().Advance(), a + 2, n - 1)
  }

  /** The address in a report counts bytes, or 256-byte units on parts beyond 64 KB. */
  function PageAddress(part: Part, w: word): nat {
    if part.flashSize > 0x1_0000 then 0x100 * w else w
  }

  function SetReport(s: State, packets: seq<Packet>): (t: State)
    requires s.chip.Valid()
    ensures t.chip.Valid()
  {
    if packets == [] then s.(complete := false)
    else
      var rx := Rx([], packets).Next();
      var w, rest := Word(rx.Head(), rx.Advance().Head()), rx.Advance().Advance();
      if w == START_APPLICATION then s.(runBootloader := false, complete := true)
      else
        var a := PageAddress(s.chip.part, w);
        var (f, done) := FillPage(s.chip.Erase(a), rest, a, s.chip.part.pageSize / 2);
        s.(chip := if done then f.Commit(a) else f, complete := done)
  }

  // Host

  /** Whether a range of addresses, inside the image, holds a loaded byte. */
  predicate BytesWithinRange(r: Reader, begin: nat, end: nat)
    requires r.Valid()
  {
    end < MEMORY_SIZE && exists i :: begin <= i <= end && r.mask[i]
  }

  /** The loaded bytes of a range, with 0xFF in the gaps; all 0xFF if the range reaches the end of the
      image. */
  function GetData(r: Reader, a: nat, n: nat): (s: seq<byte>)
    requires r.Valid()
    ensures |s| == n
  {
    if a + n >= MEMORY_SIZE then Blanks(n)
    else seq<byte>(n, i requires 0 <= i < n => if r.mask[a + i] then r.image[a + i] else BLANK)
  }

  function AddressBytes(codeSize: nat, a: nat): (b: seq<byte>)
    ensures |b| == 2
  {
    if codeSize < 0x1_0000 then [a % 0x100, a / 0x100 % 0x100] else [a / 0x100 % 0x100, a / 0x1_0000 % 0x100]
  }

  function Report(r: Reader, codeSize: nat, blockSize: nat, a: nat): seq<byte>
    requires r.Valid()
  {
    AddressBytes(codeSize, a) + GetData(r, a, blockSize)
  }

  predicate Sent(r: Reader, blockSize: nat, a: nat)
    requires r.Valid() && 0 < blockSize
  {
    a == 0 || BytesWithinRange(r, a, a + blockSize - 1)
  }

  /** The host's programming loop from an address on, against the device. */
  function Program(r: Reader, codeSize: nat, blockSize: nat, a: nat, s: State): (t: State)
    requires r.Valid() && 0 < blockSize && s.chip.Valid()
    ensures t.chip.Valid()
    decreases codeSize - a
  {
    if a >= codeSize then s
    else
      var t := if Sent(r, blockSize, a) then SetReport(s, Packets(PACKET_SIZE, Report(r, codeSize, blockSize, a))) else s;
      Program(r, codeSize, blockSize, a + blockSize, t)
  }

  // As it runs

  class Bootloader {
    const dev: Device
    var runBootloader: bool
    var complete: bool
    var rx: Rx

    ghost function Value(): (s: State)
      requires dev.Valid()
      reads this, dev.flash, dev.eeprom, dev.buffer
      ensures s.chip.Valid()
    {
      State(dev.Value(), runBootloader, complete)
    }

    constructor (dev: Device)
      requires dev.Valid()
      ensures this.dev == dev && Value() == State(dev.Value(), true, true)
    {
      this.dev, runBootloader, complete, rx := dev, true, true, Rx([], []);
    }

    method FillWords(a: nat) returns (done: bool)
      requires dev.Valid()
      modifies this`rx, dev.buffer
      ensures (dev.Value(), done) == FillPage(old(dev.Value()), old(rx), a, dev.part.pageSize / 2)
    {
      hide Chip.Fill, Rx.Refilled, Rx.Head, Rx.Advance;
      var n := dev.part.pageSize / 2;
      ghost var goal := FillPage(dev.Value(), rx, a, n);
      var i := 0;
      while i < n
        invariant 0 <= i <= n && dev.Valid()
        invariant FillPage(dev.Value(), rx, a + 2 * i, n - i) == goal
      {
        if rx.Exhausted() {
          return false;
        }
        rx := rx.Refilled();
        dev.FillWord(a + 2 * i, rx.Head(), rx.Advance().Head());
        rx := rx.Advance().Advance();
        i := i + 1;
      }
      return true;
    }

    method ReceiveReport(packets: seq<Packet>)
      requires dev.Valid()
      modifies this, dev.flash, dev.buffer
      ensures Value() == SetReport(old(Value()), packets)
    {
      hide Chip.Erase, Chip.Commit, FillPage, Rx.Head, Rx.Advance;
      complete := false;
      if packets == [] {
        return;
      }
      rx := Rx([], packets).Next();
      var w := Word(rx.Head(), rx.Advance().Head());
      rx := rx.Advance().Advance();
      if w == START_APPLICATION {
        runBootloader, complete := false, true;
      } else {
        var a := PageAddress(dev.part, w);
        dev.ErasePage(a);
        complete := FillWords(a);
        if complete {
          dev.WritePage(a);
        }
      }
    }
  }

  method IhexBytesWithinRange(loader: Loader, begin: nat, end: nat) returns (found: bool)
    requires loader.Valid()
    ensures found == BytesWithinRange(loader.Value(), begin, end)
  {
    if begin >= MEMORY_SIZE || end >= MEMORY_SIZE {
      return false;
    }
    var i := begin;
    while i <= end
      invariant begin <= i && forall k :: begin <= k < i && k <= end ==> !loader.mask[k]
      decreases end + 1 - i
    {
      if loader.mask[i] {
        assert loader.Value().mask[i];
        return true;
      }
      i := i + 1;
    }
    return false;
  }

  method IhexGetData(loader: Loader, a: nat, bytes: array<byte>, at: nat, n: nat)
    requires loader.Valid() && at + n <= bytes.Length && bytes != loader.image
    modifies bytes
    ensures bytes[at..at + n] == GetData(loader.Value(), a, n)
    ensures bytes[..at] == old(bytes[..at]) && bytes[at + n..] == old(bytes[at + n..])
  {
    ghost var r := loader.Value();
    for i := 0 to n
      invariant bytes[..at] == old(bytes[..at]) && bytes[at + n..] == old(bytes[at + n..])
      invariant loader.Value() == r
      invariant forall k :: 0 <= k < i ==> bytes[at + k] == GetData(r, a, n)[k]
    {
      if a + n >= MEMORY_SIZE {
        bytes[at + i] := BLANK;
      } else if loader.mask[a + i] {
        bytes[at + i] := loader.image[a + i];
      } else {
        bytes[at + i] := BLANK;
      }
    }
  }

  /** Put the page address and the page's data into the report buffer. */
  method FillReport(loader: Loader, codeSize: nat, blockSize: nat, a: nat, buf: array<byte>)
    requires loader.Valid() && blockSize <= 256 && buf.Length == 260 && buf != loader.image
    modifies buf
    ensures buf[..2 + blockSize] == Report(loader.Value(), codeSize, blockSize, a)
  {
    hide GetData;
    if codeSize < 0x1_0000 {
      buf[0], buf[1] := a % 0x100, a / 0x100 % 0x100;
    } else {
      buf[0], buf[1] := a / 0x100 % 0x100, a / 0x1_0000 % 0x100;
    }
    IhexGetData(loader, a, buf, 2, blockSize);
    assert buf[..2] == AddressBytes(codeSize, a);
    assert buf[..2 + blockSize] == buf[..2] + buf[2..2 + blockSize];
  }

  /** The host's programming loop. */
  method ProgramDevice(loader: Loader, codeSize: nat, blockSize: nat, device: Bootloader)
    requires loader.Valid() && device.dev.Valid() && 0 < blockSize <= 256
    requires loader.image != device.dev.flash && loader.image != device.dev.buffer && loader.image != device.dev.eeprom
    modifies device, device.dev.flash, device.dev.buffer
    ensures device.Value() == Program(loader.Value(), codeSize, blockSize, 0, old(device.Value()))
    ensures loader.Value() == old(loader.Value())
  {
    hide SetReport, Packets, Report, BytesWithinRange;
    ghost var r := loader.Value();
    var buf := new byte[260](_ => 0);
    var a := 0;
    while a < codeSize
      invariant 0 <= a && loader.Value() == r && fresh(buf)
      invariant Program(r, codeSize, blockSize, a, device.Value()) == Program(r, codeSize, blockSize, 0, old(device.Value()))
    {
      var within := true;
      if a > 0 {
        within := IhexBytesWithinRange(loader, a, a + blockSize - 1);
      }
      if within {
        FillReport(loader, codeSize, blockSize, a, buf);
        device.ReceiveReport(Packets(PACKET_SIZE, buf[..2 + blockSize]));
      }
      a := a + blockSize;
    }
  }
}
