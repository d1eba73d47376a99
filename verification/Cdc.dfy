/** The CDC-class bootloader: AVR109 commands over a serial stream. */
module Cdc {
  import opened Chips
  import opened Programming
  import opened Endpoints

  const PACKET_SIZE: nat := 16

  /** Lock and fuse bits, which commands report. */
  datatype Fuses = Fuses(lock: byte, low: byte, high: byte, extended: byte)

  datatype State = State(chip: Chip, currAddress: uint32, runBootloader: bool, fuses: Fuses)

  function Ascii(c: char): byte
    requires c <= 'z'
  {
    c as int
  }

  const RETURN: byte := 13
  const SYNC: byte := 27

  // Streams

  /** The next byte of the OUT stream, from the next packet that has one; zero once the host is gone. */
  function Fetch(rx: Rx): (byte, Rx)
    decreases |rx.queue|
  {
    if rx.bank != [] then (rx.bank[0], rx.Advance())
    else if rx.queue == [] then (0, rx)
    else Fetch(rx.Next())
  }

  function FetchMany(rx: Rx, n: nat): (r: (seq<byte>, Rx))
    ensures |r.0| == n
    decreases n
  {
    if n == 0 then ([], rx)
    else
      var (b, rest) := Fetch(rx);
      var (bs, end) := FetchMany(rest, n - 1);
      ([b] + bs, end)
  }

  /** The packets that carry a response: a transfer ends with a short packet, if need be an empty one. */
  function Transfer(bytes: seq<byte>): (ps: seq<Packet>)
    ensures ps != []
  {
    var ps := Packets(PACKET_SIZE, bytes);
    if |ps[|ps| - 1]| == PACKET_SIZE then ps + [[]] else ps
  }

  // Memory blocks

  /** The address counter after `n` words. */
  function Skip(a: uint32, n: nat): uint32
    decreases n
  {
    if n == 0 then a else Skip(Add32(a, 2), n - 1)
  }

  /** Bytes of flash words from an address on. */
  function ReadWords(c: Chip, a: uint32, n: nat): (s: seq<byte>)
    requires c.Valid()
    ensures |s| == n
    decreases n
  {
    if n == 0 then []
    else if n == 1 then [c.ReadFlash(a)]
    else [c.ReadFlash(a), c.ReadFlash(a + 1)] + ReadWords(c, Add32(a, 2), n - 2)
  }

  /** Address of an EEPROM byte: half the counter, as a 16-bit pointer. */
  function EepromAddress(a: uint32): word {
    a / 2 % 0x1_0000
  }

  function ReadEepromBlock(c: Chip, a: uint32, n: nat): (s: seq<byte>)
    requires c.Valid()
    ensures |s| == n
    decreases n
  {
    if n == 0 then [] else [c.ReadEeprom(EepromAddress(a))] + ReadEepromBlock(c, Add32(a, 2), n - 1)
  }

  /** Load bytes as words into the page buffer; an odd last byte is dropped. */
  function LoadWords(c: Chip, a: uint32, data: seq<byte>): (r: Chip)
    requires c.Valid()
    ensures r.Valid() && r == c.(buffer := r.buffer)
    decreases |data|
  {
    if |data| < 2 then c else LoadWords(c.Fill(a, data[0], data[1]), Add32(a, 2), data[2..])
  }

  function WriteEepromBlock(c: Chip, a: uint32, data: seq<byte>): (r: Chip)
    requires c.Valid()
    ensures r.Valid() && r == c.(eeprom := r.eeprom)
    decreases |data|
  {
    if data == [] then c else WriteEepromBlock(c.WriteEeprom(EepromAddress(a), data[0]), Add32(a, 2), data[1..])
  }

  // Commands

  /** State, rest of the stream, and response bytes. */
  datatype Result = Result(state: State, rx: Rx, response: seq<byte>)

  /** Write a block of flash, as one page, or of EEPROM at the address counter. */
  function Written(s: State, flash: bool, data: seq<byte>): (t: State)
    requires s.chip.Valid()
    ensures t.chip.Valid()
  {
    var c, a := s.chip, s.currAddress;
    if flash then s.(chip := LoadWords(c.Erase(a), a, data).Commit(a), currAddress := Skip(a, |data| / 2))
    else s.(chip := WriteEepromBlock(c, a, data), currAddress := Skip(a, |data|))
  }

  function BlockCommand(s: State, write: bool, rx: Rx): (r: Result)
    requires s.chip.Valid()
    ensures r.state.chip.Valid()
  {
    var (head, rx1) := FetchMany(rx, 3);
    var n: nat := Word(head[1], head[0]);
    var flash := head[2] == Ascii('F');
    if !flash && head[2] != Ascii('E') then Result(s, rx1, [Ascii('?')])
    else if write then
      var (data, rx2) := FetchMany(rx1, n);
      Result(Written(s, flash, data), rx2, [RETURN])
    else if flash then
      Result(s.(currAddress := Skip(s.currAddress, n / 2)), rx1, ReadWords(s.chip, s.currAddress, n))
    else Result(s.(currAddress := Skip(s.currAddress, n)), rx1, ReadEepromBlock(s.chip, s.currAddress, n))
  }

  /** The byte address of a word address, computed in 16-bit signed arithmetic. */
  function CommandAddress(hi: byte, lo: byte): uint32 {
    var shifted := 0x200 * hi % 0x1_0000;
    (if shifted < 0x8000 then shifted else 0xFFFF_0000 + shifted) + 2 * lo
  }

  const IDENTIFIER: seq<byte> := [0x4C, 0x55, 0x46, 0x41, 0x43, 0x44, 0x43]

  /** Replies that do not depend on memory. */
  function FixedReply(fuses: Fuses, pageSize: word, command: byte): seq<byte> {
    if command == Ascii('P') || command == Ascii('L') then [RETURN]
    else if command == Ascii('t') then [0x44, 0]
    else if command == Ascii('a') then [Ascii('Y')]
    else if command == Ascii('p') then [Ascii('S')]
    else if command == Ascii('S') then IDENTIFIER
    else if command == Ascii('V') then [Ascii('1'), Ascii('0')]
    else if command == Ascii('s') then [0x82, 0x97, 0x1E]
    else if command == Ascii('r') then [fuses.lock]
    else if command == Ascii('F') then [fuses.low]
    else if command == Ascii('N') then [fuses.high]
    else if command == Ascii('Q') then [fuses.extended]
    else if command == Ascii('b') then [Ascii('Y'), Hi(pageSize), Lo(pageSize)]
    else if command == SYNC then []
    else [Ascii('?')]
  }

  function Execute(s: State, command: byte, rx: Rx): (r: Result)
    requires s.chip.Valid()
    ensures r.state.chip.Valid()
  {
    if command == Ascii('E') then Result(s.(runBootloader := false), rx, [RETURN])
    else if command == Ascii('x') || command == Ascii('y') || command == Ascii('T') then Result(s, Fetch(rx).1, [RETURN])
    else if command == Ascii('A') then
      var (b, rest) := FetchMany(rx, 2);
      Result(s.(currAddress := CommandAddress(b[0], b[1])), rest, [RETURN])
    else if command == Ascii('e') then Result(s.(chip := ErasedApplication(s.chip)), rx, [RETURN])
    else if command == Ascii('l') then
      var (b, rest) := Fetch(rx);
      Result(s.(fuses := s.fuses.(lock := And(s.fuses.lock, b))), rest, [RETURN])
    else if command == Ascii('B') || command == Ascii('g') then BlockCommand(s, command == Ascii('B'), rx)
    else if command == Ascii('C') then
      var (b, rest) := Fetch(rx);
      Result(s.(chip := s.chip.Fill(s.currAddress, b, 0)), rest, [RETURN])
    else if command == Ascii('c') then
      var (b, rest) := Fetch(rx);
      Result(s.(chip := s.chip.Fill(s.currAddress - s.currAddress % 2 + 1, b, 0), currAddress := Add32(s.currAddress, 2)),
             rest, [RETURN])
    else if command == Ascii('m') then Result(s.(chip := s.chip.Commit(s.currAddress)), rx, [RETURN])
    else if command == Ascii('R') then
      Result(s, rx, [s.chip.ReadFlash(s.currAddress + 1), s.chip.ReadFlash(s.currAddress)])
    else if command == Ascii('D') then
      var (b, rest) := Fetch(rx);
      Result(s.(chip := s.chip.WriteEeprom(EepromAddress(s.currAddress), b), currAddress := Add32(s.currAddress, 2)),
             rest, [RETURN])
    else if command == Ascii('d') then
      Result(s.(currAddress := Add32(s.currAddress, 2)), rx, [s.chip.ReadEeprom(EepromAddress(s.currAddress))])
    else Result(s, rx, FixedReply(s.fuses, s.chip.part.pageSize, command))
  }

  /** One call of `CDC_Task`: the state, the packets sent, and the packets still waiting. What is left of
      the packet in the bank when the command ends is dropped. */
  datatype Done = Done(state: State, sent: seq<Packet>, waiting: seq<Packet>)

  function Task(s: State, packets: seq<Packet>): (d: Done)
    requires s.chip.Valid()
    ensures d.state.chip.Valid()
  {
    if packets == [] then Done(s, [], [])
    else
      var (command, rx) := Fetch(Rx(packets[0], packets[1..]));
      var r := Execute(s, command, rx);
      Done(r.state, Transfer(r.response), r.rx.queue)
  }
}
