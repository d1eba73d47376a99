/** The Intel HEX text format: records of bytes, printed two upper-case
    hexadecimal digits a byte after a colon. */
module HexText {
  import opened Chips

  /** What fits one record. */
  type Payload = d: seq<byte> | |d| < 0x100

  /** A record with the checksum byte it is printed with, right or wrong. */
  datatype Record = Record(address: word, kind: byte, data: Payload, check: byte) {

    function Header(): seq<byte> {
      [|data|, Hi(address), Lo(address), kind]
    }

    function Bytes(): seq<byte> {
      Header() + data + [check]
    }

    predicate Checked() {
      check == Negate(Sum(Header() + data))
    }
  }

  const DATA: byte := 0
  const END_OF_FILE: byte := 1

  function Add8(x: byte, y: byte): byte {
    if x + y < 0x100 then x + y else x + y - 0x100
  }

  /** Two's complement of a byte. */
  function Negate(x: byte): byte {
    if x == 0 then 0 else 0x100 - x
  }

  /** Sum of bytes modulo 256. */
  function Sum(s: seq<byte>): byte {
    if s == [] then 0 else Add8(Sum(s[..|s| - 1]), s[|s| - 1])
  }

  function Digit(n: nat): char
    requires n < 16
  {
    if n < 10 then '0' + n as char else 'A' + (n - 10) as char
  }

  function Hex(b: byte): string {
    [Digit(b / 16), Digit(b % 16)]
  }

  function HexAll(s: seq<byte>): string {
    if s == [] then [] else Hex(s[0]) + HexAll(s[1..])
  }

  function Print(r: Record): string {
    [':'] + HexAll(r.Bytes())
  }

  function PrintAll(rs: seq<Record>): string {
    if rs == [] then [] else Print(rs[0]) + PrintAll(rs[1..])
  }

  /** Data records that follow one another without gaps from address `at`. */
  ghost predicate Contiguous(rs: seq<Record>, at: nat) {
    rs != [] ==>
      && rs[0].kind == DATA && rs[0].address == at
      && Contiguous(rs[1..], at + |rs[0].data|)
  }

  /** The memory image that data records hold. */
  function Image(rs: seq<Record>): seq<byte> {
    if rs == [] then [] else rs[0].data + Image(rs[1..])
  }
}
