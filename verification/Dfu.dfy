/** The DFU-class bootloader: control requests drive a state machine that
    downloads, uploads, blank-checks and erases memory. */
module Dfu {
  import opened Chips
  import opened Programming
  import opened Endpoints

  const PACKET_SIZE: nat := 32
  const FILLER_SIZE: nat := 26
  const SUFFIX_SIZE: nat := 16

  const REQ_DNLOAD: byte := 1
  const REQ_UPLOAD: byte := 2
  const REQ_GETSTATUS: byte := 3
  const REQ_CLRSTATUS: byte := 4
  const REQ_GETSTATE: byte := 5
  const REQ_ABORT: byte := 6

  const COMMAND_PROG_START: byte := 1
  const COMMAND_DISP_DATA: byte := 3
  const COMMAND_WRITE: byte := 4
  const COMMAND_READ: byte := 5
  const COMMAND_CHANGE_BASE_ADDR: byte := 6

  datatype Mode = Idle | DownloadIdle | UploadIdle | Error {
    function Code(): byte {
      match this
      case Idle => 2
      case DownloadIdle => 5
      case UploadIdle => 9
      case Error => 10
    }
  }

  datatype Status = Ok | ErrWrite | ErrCheckErased {
    function Code(): byte {
      match this
      case Ok => 0
      case ErrWrite => 3
      case ErrCheckErased => 5
    }
  }

  /** The last command the host sent, with the size of the data that follows it. */
  datatype Command = Command(code: byte, data: seq<byte>, size: word) {
    predicate Valid() {
      |data| == 5
    }

    predicate Is(b0: byte)
      requires Valid()
    {
      data[0] == b0
    }

    predicate IsTwo(b0: byte, b1: byte)
      requires Valid()
    {
      data[0] == b0 && data[1] == b1
    }
  }

  datatype State = State(
    isSecure: bool, runBootloader: bool, waitForExit: bool, mode: Mode, status: Status,
    sent: Command, responseByte: byte, appStart: word, flash64KPage: byte,
    startAddr: word, endAddr: word, chip: Chip)
  {
    predicate Valid() {
      chip.Valid() && sent.Valid()
    }
  }

  /** A control request: whether it addresses the DFU interface, its request code, the announced
      data length, and the data packets that arrive before the host is done or detaches. */
  datatype Request = Request(toDfu: bool, code: byte, length: word, packets: seq<Packet>)

  datatype Response = Response(packets: seq<Packet>, stalled: bool)

  function Sub16(x: word, y: word): word {
    if y <= x then x - y else x - y + 0x1_0000
  }

  /** Length of the addressed range, in 16-bit arithmetic. */
  function RangeLength(s: State): word {
    Inc16(Sub16(s.endAddr, s.startAddr))
  }

  function FlashAddress(s: State): nat {
    0x1_0000 * s.flash64KPage + s.startAddr
  }

  // Commands

  function LoadAddresses(s: State): State
    requires s.Valid()
  {
    s.(startAddr := Word(s.sent.data[2], s.sent.data[1]), endAddr := Word(s.sent.data[4], s.sent.data[3]))
  }

  function MemProg(s: State): (t: State)
    requires s.Valid()
    ensures t.Valid()
  {
    if s.sent.Is(0) then
      var l := LoadAddresses(s);
      l.(chip := l.chip.Erase(FlashAddress(l)), mode := DownloadIdle)
    else if s.sent.Is(1) then LoadAddresses(s).(mode := DownloadIdle)
    else s
  }

  /** The lowest address from `from` on that is not blank, or the start of the boot section. */
  function FirstUsed(flash: seq<byte>, from: nat, end: nat): (a: nat)
    requires from <= end <= |flash|
    ensures from <= a <= end
    ensures forall i :: from <= i < a ==> flash[i] == BLANK
    ensures a < end ==> flash[a] != BLANK
    decreases end - from
  {
    if from == end || flash[from] != BLANK then from else FirstUsed(flash, from + 1, end)
  }

  function MemRead(s: State): (t: State)
    requires s.Valid()
    ensures t.Valid()
  {
    if s.sent.Is(0) || s.sent.Is(2) then LoadAddresses(s).(mode := UploadIdle)
    else if s.sent.Is(1) then
      var a := FirstUsed(s.chip.flash, 0, s.chip.part.bootStart);
      if a < s.chip.part.bootStart
      then s.(flash64KPage := a / 0x1_0000, startAddr := a % 0x1_0000, mode := Error, status := ErrCheckErased)
      else s
    else s
  }

  function Write(s: State): (t: State)
    requires s.Valid()
    ensures t.Valid()
  {
    if s.sent.Is(3) then
      var w := s.(waitForExit := true);
      if s.sent.size != 0 then
        if s.sent.data[1] == 1 then w.(appStart := Word(s.sent.data[4], s.sent.data[3])) else w
      else if s.sent.data[1] == 0 then w
      else w.(runBootloader := false)
    else if s.sent.IsTwo(0, 0xFF) then s.(chip := ErasedApplication(s.chip), isSecure := false)
    else s
  }

  /** The identification tables; reads beyond them are not modelled. */
  function Identification(table: byte, index: byte): byte {
    if table == 0 then (if index < 3 then [0x20, 0xDC, 0xFB][index] else 0)
    else if 0x30 <= index < 0x34 then [0x58, 0x1E, 0x97, 0x82][index - 0x30]
    else if index == 0x60 then 0x82
    else 0
  }

  function Read(s: State): (t: State)
    requires s.Valid()
    ensures t.Valid()
  {
    if s.sent.Is(0) || s.sent.Is(1) then s.(responseByte := Identification(s.sent.data[0], s.sent.data[1]))
    else s
  }

  /** In secure mode only identification reads and the full erase are let through. */
  predicate Refused(s: State)
    requires s.Valid()
  {
    s.isSecure && !(s.sent.code == COMMAND_WRITE && s.sent.IsTwo(0, 0xFF)) && s.sent.code != COMMAND_READ
  }

  function Process(s: State): (t: State)
    requires s.Valid()
    ensures t.Valid() && t.sent == s.sent && (t.isSecure ==> s.isSecure)
  {
    if Refused(s) then s.(mode := Error, status := ErrWrite)
    else match s.sent.code
      case 1 => MemProg(s)
      case 3 => MemRead(s)
      case 4 => Write(s)
      case 5 => Read(s)
      case 6 => if s.sent.IsTwo(3, 0) then s.(flash64KPage := s.sent.data[2]) else s
      case _ => s
  }

  // Downloads

  /** Read command parameters while there are bytes in the packet. */
  function LoadParameters(sent: Command, rx: Rx, i: nat): (r: (Command, Rx))
    requires sent.Valid()
    ensures r.0.Valid()
    decreases 5 - i
  {
    if i < 5 && rx.bank != []
    then LoadParameters(sent.(data := sent.data[i := rx.Head()], size := Sub16(sent.size, 1)), rx.Advance(), i + 1)
    else (sent, rx)
  }

  /** Drop filler bytes. Taking a new packet uses up one of the bytes to drop. */
  function Discard(rx: Rx, n: nat): Rx
    decreases n
  {
    if n == 0 || rx.Exhausted() then rx
    else if rx.bank == [] then Discard(rx.Next(), n - 1)
    else Discard(rx.Advance(), n - 1)
  }

  datatype Progress = Progress(chip: Chip, rx: Rx, complete: bool)

  /** Program words from the endpoint. `filled` words of the page at `page` are in the buffer. */
  function ProgramWords(c: Chip, rx: Rx, addr: nat, page: nat, filled: nat, remaining: nat): (r: Progress)
    requires c.Valid()
    ensures r.chip.Valid()
    decreases remaining
  {
    if remaining == 0 then Progress(c, rx, true)
    else if rx.Exhausted() then Progress(c, rx, false)
    else
      var r := rx.Refilled();
      var f, r' := c.Fill(addr, r.Head(), r.Advance().Head()), r.Advance().Advance();
      if filled + 1 == c.part.pageSize / 2 || remaining == 1 then
        var w := f.Commit(page);
        if remaining == 1 then Progress(w, r', true)
        else ProgramWords(w.Erase(addr + 2), r', addr + 2, addr + 2, 0, remaining - 1)
      else ProgramWords(f, r', addr + 2, page, filled + 1, remaining - 1)
  }

  /** Write EEPROM bytes from the endpoint; also the address reached. */
  function ProgramEeprom(c: Chip, rx: Rx, addr: word, remaining: nat): (r: (Progress, word))
    requires c.Valid()
    ensures r.0.chip.Valid()
    decreases remaining
  {
    if remaining == 0 then (Progress(c, rx, true), addr)
    else if rx.Exhausted() then (Progress(c, rx, false), addr)
    else
      var r := rx.Refilled();
      ProgramEeprom(c.WriteEeprom(addr, r.Head()), r.Advance(), Inc16(addr), remaining - 1)
  }

  /** A state reached, and whether it was reached without the host detaching. */
  datatype Outcome = Outcome(state: State, complete: bool)

  /** Load the announced firmware into memory. */
  function Firmware(s: State, rx: Rx): (o: Outcome)
    requires s.Valid()
    ensures o.state.Valid() && o.state == s.(chip := o.state.chip, startAddr := o.state.startAddr)
  {
    var r := Discard(Discard(rx, FILLER_SIZE), s.startAddr % PACKET_SIZE);
    if s.sent.Is(0) then
      var a := FlashAddress(s);
      var p := ProgramWords(s.chip, r, a, a, 0, RangeLength(s) / 2);
      Outcome(s.(chip := p.chip, startAddr := if p.complete then s.endAddr else s.startAddr), p.complete)
    else
      var (p, a) := ProgramEeprom(s.chip, r, s.startAddr, RangeLength(s));
      Outcome(s.(chip := p.chip, startAddr := a), p.complete)
  }

  function DownloadTail(s: State, rx: Rx): (o: Outcome)
    requires s.Valid()
    ensures o.state.Valid()
    ensures o.state == s.(chip := o.state.chip, startAddr := o.state.startAddr, mode := o.state.mode)
  {
    if !s.mode.DownloadIdle? then Outcome(s, true)
    else if s.sent.size == 0 then Outcome(s.(mode := Idle), true)
    else Firmware(s, rx)
  }

  /** What a control request leaves, what it answers, and whether it ran to its end. */
  datatype Handled = Handled(state: State, response: Response, complete: bool)

  /** The data stage of a download: a command, and the firmware that may follow it. */
  function DataStage(s: State, packets: seq<Packet>): (h: Handled)
    requires s.Valid()
    ensures h.state.Valid() && (h.state.isSecure ==> s.isSecure)
  {
    if s.sent.size == 0 then
      var o := DownloadTail(s, Rx([], packets));
      Handled(o.state, Response([], false), o.complete)
    else if packets == [] then Handled(s, Response([], false), false)
    else
      var rx := Rx([], packets).Next();
      var command := s.sent.(code := rx.Head(), size := Sub16(s.sent.size, 1));
      var (sent, rx') := LoadParameters(command, rx.Advance(), 0);
      var t := s.(sent := sent);
      var o := DownloadTail(Process(t), rx');
      Handled(o.state, Response([], Refused(t)), o.complete)
  }

  /** A download request; when the bootloader waits to exit the last command is processed first. */
  function Download(s: State, packets: seq<Packet>): (h: Handled)
    requires s.Valid()
    ensures h.state.Valid() && (h.state.isSecure ==> s.isSecure)
  {
    if s.waitForExit then
      var h := DataStage(Process(s).(waitForExit := false), packets);
      h.(response := Response([], Refused(s) || h.response.stalled))
    else DataStage(s, packets)
  }

  // Uploads

  /** The flash bytes from an address on, wrapping at the end of flash. */
  function FlashBytes(c: Chip, a: nat, n: nat): (s: seq<byte>)
    requires c.Valid()
    ensures |s| == n && forall i :: 0 <= i < n ==> s[i] == c.ReadFlash(a + i)
  {
    seq<byte>(n, i requires 0 <= i < n => c.ReadFlash(a + i))
  }

  function EepromBytes(c: Chip, a: word, n: nat): (s: seq<byte>)
    requires c.Valid()
    ensures |s| == n && forall i :: 0 <= i < n ==> s[i] == c.ReadEeprom((a + i) % 0x1_0000)
  {
    seq<byte>(n, i requires 0 <= i < n => c.ReadEeprom((a + i) % 0x1_0000))
  }

  function Upload(s: State): (h: Handled)
    requires s.Valid()
    ensures h.state.Valid() && (h.state.isSecure ==> s.isSecure)
  {
    if !s.mode.UploadIdle? then
      Answered(s, [if s.mode.Error? && s.sent.Is(1) then [Lo(s.startAddr), Hi(s.startAddr)] else [s.responseByte]])
    else if s.sent.Is(0) then
      Answered(s.(startAddr := s.endAddr, mode := Idle),
               Packets(PACKET_SIZE, FlashBytes(s.chip, FlashAddress(s), RangeLength(s) / 2 * 2)))
    else if s.sent.Is(2) then
      Answered(s.(startAddr := Inc16(s.endAddr), mode := Idle),
               Packets(PACKET_SIZE, EepromBytes(s.chip, s.startAddr, RangeLength(s))))
    else Answered(s.(mode := Idle), [[]])
  }

  function Answered(s: State, packets: seq<Packet>): Handled {
    Handled(s, Response(packets, false), true)
  }

  function Handle(s: State, req: Request): (h: Handled)
    requires s.Valid()
    ensures h.state.Valid() && (h.state.isSecure ==> s.isSecure)
  {
    if !req.toDfu then Answered(s, [])
    else
      var s0 := s.(sent := s.sent.(size := req.length));
      match req.code
      case 1 => Download(s0, req.packets)
      case 2 => Upload(s0)
      case 3 => Answered(s0, [[s0.status.Code(), 0, 0, 0, s0.mode.Code(), 0]])
      case 4 => Answered(s0.(status := Ok), [])
      case 5 => Answered(s0, [[s0.mode.Code()]])
      case 6 => Answered(s0.(mode := Idle), [])
      case _ => Answered(s0, [])
  }

  /** The responses to a sequence of requests, and the state after them. */
  function Run(s: State, reqs: seq<Request>): (r: (State, seq<Response>))
    requires s.Valid()
    ensures r.0.Valid() && |r.1| == |reqs| && (r.0.isSecure ==> s.isSecure)
    decreases |reqs|
  {
    if reqs == [] then (s, [])
    else
      var h := Handle(s, reqs[0]);
      var (t, rs) := Run(h.state, reqs[1..]);
      (t, [h.response] + rs)
  }

  /** Power-up, with the build's choice of secure mode. */
  function Reset(secure: bool, chip: Chip): State {
    State(secure, true, false, Idle, Ok, Command(0, [0, 0, 0, 0, 0], 0), 0, 0, 0, 0, 0, chip)
  }
}
