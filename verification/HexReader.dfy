/** The host loader's Intel HEX reader: a line at a time, into an image of 64 KB and a mask of the
    bytes that were loaded. */
module HexReader {
  import opened Chips

  const MEMORY_SIZE: nat := 0x1_0000
  const LINE_LIMIT: nat := 1023

  // Scanning hexadecimal fields

  predicate IsDigit(c: char) {
    '0' <= c <= '9' || 'A' <= c <= 'F' || 'a' <= c <= 'f'
  }

  function DigitValue(c: char): (d: nat)
    requires IsDigit(c)
    ensures d < 16
  {
    if c <= '9' then (c - '0') as int else if c <= 'F' then (c - 'A') as int + 10 else (c - 'a') as int + 10
  }

  /** The number of hexadecimal digits at the start of a text, up to a width. */
  function DigitCount(s: string, width: nat): (n: nat)
    ensures n <= width && n <= |s| && forall i :: 0 <= i < n ==> IsDigit(s[i])
    decreases width
  {
    if width == 0 || s == [] || !IsDigit(s[0]) then 0 else 1 + DigitCount(s[1..], width - 1)
  }

  function HexValue(s: string): (v: nat)
    requires forall i :: 0 <= i < |s| ==> IsDigit(s[i])
    ensures |s| <= 1 ==> v < 0x10
    ensures |s| <= 2 ==> v < 0x100
    ensures |s| <= 3 ==> v < 0x1000
    ensures |s| <= 4 ==> v < 0x1_0000
  {
    if s == [] then 0 else 16 * HexValue(s[..|s| - 1]) + DigitValue(s[|s| - 1])
  }

  /** Outcome of scanning a field. `Other` stands for the white space, signs and 0x prefixes that
      the C library also accepts. */
  datatype Scan = Number(value: nat) | NoNumber | AtEnd | Other

  function ScanHex(s: string, width: nat): (r: Scan)
    ensures width == 2 && r.Number? ==> r.value < 0x100
    ensures width == 4 && r.Number? ==> r.value < 0x1_0000
  {
    var n := DigitCount(s, width);
    if s == [] then AtEnd
    else if s[0] in " \t\n\r+-" || s[0] as int == 11 || s[0] as int == 12 then Other
    else if n == 0 then NoNumber
    else if n < width && n == 1 && s[0] == '0' && |s| > 1 && s[1] in "xX" then Other
    else Number(HexValue(s[..n]))
  }

  // Lines

  datatype Reader = Reader(image: seq<byte>, mask: seq<bool>, endSeen: bool, byteCount: nat, extended: uint32) {
    predicate Valid() {
      |image| == MEMORY_SIZE && |mask| == MEMORY_SIZE
    }
  }

  function Blank(): (r: Reader)
    ensures r.Valid()
  {
    Reader(Blanks(MEMORY_SIZE), seq(MEMORY_SIZE, _ => false), false, 0, 0)
  }

  /** What reading a line comes to. `Unspecified` covers what the C code leaves undefined - a field
      that the text ends before, an index that wraps out of the image - and fields scanned as `Other`. */
  datatype Verdict = Accepted | Rejected | Unspecified

  datatype Parsed = Parsed(reader: Reader, verdict: Verdict)

  function Store(r: Reader, a: nat, b: byte): (q: Reader)
    requires r.Valid() && a < MEMORY_SIZE
    ensures q.Valid()
  {
    r.(image := r.image[a := b], mask := r.mask[a := true])
  }

  /** The rest of a data record: store bytes from `line[at..]` at `addr`, then check the sum. */
  function ReadData(r: Reader, line: string, at: nat, addr: uint32, left: nat, sum: nat): (p: Parsed)
    requires r.Valid()
    ensures p.reader.Valid()
    decreases left
  {
    if left == 0 then
      match Field(line, at, 2)
      case Number(check) => Parsed(r, if (sum + check) % 0x100 == 0 then Accepted else Rejected)
      case NoNumber => Parsed(r, Rejected)
      case _ => Parsed(r, Unspecified)
    else
      match Field(line, at, 2)
      case Number(b) =>
        if addr >= MEMORY_SIZE then Parsed(r, Unspecified)
        else ReadData(Store(r, addr, b), line, at + 2, Add32(addr, 1), left - 1, sum + b)
      case Other => Parsed(r, Unspecified)
      case _ => Parsed(r, Rejected)
  }

  /** Scan a field at a position of the line. */
  function Field(line: string, at: nat, width: nat): (r: Scan)
    ensures width == 2 && r.Number? ==> r.value < 0x100
    ensures width == 4 && r.Number? ==> r.value < 0x1_0000
  {
    if at <= |line| then ScanHex(line[at..], width) else AtEnd
  }

  /** An extended address record with a correct sum sets the upper part of the address. */
  function ReadExtended(r: Reader, line: string, sum: nat, linear: bool): (p: Parsed)
    requires r.Valid()
    ensures p.reader.Valid()
  {
    match Field(line, 9, 4)
    case Number(a) =>
      (match Field(line, 13, 2)
       case Number(check) =>
         Parsed(if (sum + a / 0x100 + a % 0x100 + check) % 0x100 != 0 then r
                else r.(extended := if linear then a * 0x1_0000 else a * 0x10),
                Accepted)
       case NoNumber => Parsed(r, Accepted)
       case _ => Parsed(r, Unspecified))
    case NoNumber => Parsed(r, Accepted)
    case _ => Parsed(r, Unspecified)
  }

  function ParseLine(r: Reader, line: string): (p: Parsed)
    requires r.Valid()
    ensures p.reader.Valid()
  {
    if line == [] || line[0] != ':' || |line| < 11 then Parsed(r, Rejected)
    else
      match Field(line, 1, 2)
      case Number(len) => if |line| < 11 + 2 * len then Parsed(r, Rejected) else ParseFields(r, line, len)
      case NoNumber => Parsed(r, Rejected)
      case _ => Parsed(r, Unspecified)
  }

  /** The line after its length field. */
  function ParseFields(r: Reader, line: string, len: byte): (p: Parsed)
    requires r.Valid()
    ensures p.reader.Valid()
  {
    match (Field(line, 3, 4), Field(line, 7, 2))
    case (Number(addr), Number(code)) =>
      if Add32(Add32(addr, r.extended), len) >= MEMORY_SIZE then Parsed(r, Rejected)
      else
        var sum := len + addr / 0x100 + addr % 0x100 + code;
        if code == 0 then
          ReadData(r.(byteCount := r.byteCount + len), line, 9, Add32(addr, r.extended), len, sum)
        else if code == 1 then Parsed(r.(endSeen := true), Accepted)
        else if code == 2 && len == 2 then ReadExtended(r, line, sum, false)
        else if code == 4 && len == 2 then ReadExtended(r, line, sum, true)
        else Parsed(r, Accepted)
    case (NoNumber, _) => Parsed(r, Rejected)
    case (Number(_), NoNumber) => Parsed(r, Rejected)
    case _ => Parsed(r, Unspecified)
  }

  // Files

  /** Length of the first line of a text, with its newline, as far as the line buffer holds it. */
  function LineLength(text: string, limit: nat): (n: nat)
    ensures n <= |text| && n <= limit && (text != [] && limit > 0 ==> n > 0)
    decreases limit
  {
    if text == [] || limit == 0 then 0
    else if text[0] == '\n' then 1
    else 1 + LineLength(text[1..], limit - 1)
  }

  /** The text up to the first NUL. */
  function CString(s: string): string {
    if s == [] || s[0] == '\0' then [] else [s[0]] + CString(s[1..])
  }

  /** Read lines until one is rejected, the end record is seen or the text ends. */
  function ReadText(r: Reader, text: string): (p: Parsed)
    requires r.Valid()
    ensures p.reader.Valid()
    decreases |text|
  {
    if text == [] then Parsed(r, Accepted)
    else
      var n := LineLength(text, LINE_LIMIT);
      var line := CString(text[..n]);
      if line == [] then ReadText(r, text[n..])
      else
        var p := ParseLine(r, line);
        if !p.verdict.Accepted? || p.reader.endSeen then p else ReadText(p.reader, text[n..])
  }

  /** The loader as it runs: the image and the mask are filled in place. */
  class Loader {
    const image: array<byte>
    const mask: array<bool>
    var endSeen: bool
    var byteCount: nat
    var extended: uint32

    ghost predicate Valid() {
      image.Length == MEMORY_SIZE && mask.Length == MEMORY_SIZE && image as object != mask
    }

    ghost function Value(): (r: Reader)
      requires Valid()
      reads this, image, mask
      ensures r.Valid()
    {
      Reader(image[..], mask[..], endSeen, byteCount, extended)
    }

    constructor ()
      ensures Valid() && fresh(image) && fresh(mask)
    {
      image := new byte[MEMORY_SIZE](_ => BLANK);
      mask := new bool[MEMORY_SIZE](_ => false);
      endSeen, byteCount, extended := false, 0, 0;
    }

    method ReadDataBytes(line: string, start: uint32, len: byte, total: nat) returns (v: Verdict)
      requires Valid()
      modifies image, mask
      ensures Parsed(Value(), v) == ReadData(old(Value()), line, 9, start, len, total)
    {
      hide Field;
      var at: nat, left: nat, sum: nat := 9, len, total;
      var addr: uint32 := start;
      ghost var goal := ReadData(Value(), line, 9, start, len, total);
      while left > 0
        invariant ReadData(Value(), line, at, addr, left, sum) == goal
        decreases left
      {
        var f := Field(line, at, 2);
        if f.Other? {
          return Unspecified;
        }
        if !f.Number? {
          return Rejected;
        }
        if addr >= MEMORY_SIZE {
          return Unspecified;
        }
        ghost var before := Value();
        image[addr] := f.value;
        mask[addr] := true;
        assert Value() == Store(before, addr, f.value);
        at, left, sum, addr := at + 2, left - 1, sum + f.value, Add32(addr, 1);
      }
      match Field(line, at, 2)
      case Number(check) => v := if (sum + check) % 0x100 == 0 then Accepted else Rejected;
      case NoNumber => v := Rejected;
      case _ => v := Unspecified;
    }

    method ReadExtendedAddress(line: string, sum: nat, linear: bool) returns (v: Verdict)
      requires Valid()
      modifies this`extended
      ensures Parsed(Value(), v) == ReadExtended(old(Value()), line, sum, linear)
    {
      hide Field;
      var f, g := Field(line, 9, 4), Field(line, 13, 2);
      if f.NoNumber? {
        return Accepted;
      }
      if !f.Number? {
        return Unspecified;
      }
      if g.NoNumber? {
        return Accepted;
      }
      if !g.Number? {
        return Unspecified;
      }
      if (sum + f.value / 0x100 + f.value % 0x100 + g.value) % 0x100 == 0 {
        extended := if linear then f.value * 0x1_0000 else f.value * 0x10;
      }
      v := Accepted;
    }

    method ParseHexLine(line: string) returns (v: Verdict)
      requires Valid()
      modifies this, image, mask
      ensures Parsed(Value(), v) == ParseLine(old(Value()), line)
    {
      hide Field, ReadData, ReadExtended;
      if line == [] || line[0] != ':' || |line| < 11 {
        return Rejected;
      }
      var f := Field(line, 1, 2);
      if !f.Number? {
        return if f.NoNumber? then Rejected else Unspecified;
      }
      var len: byte := f.value;
      if |line| < 11 + 2 * f.value {
        return Rejected;
      }
      var g, h := Field(line, 3, 4), Field(line, 7, 2);
      if !g.Number? {
        return if g.NoNumber? then Rejected else Unspecified;
      }
      if !h.Number? {
        return if h.NoNumber? then Rejected else Unspecified;
      }
      var addr: word, code: byte := g.value, h.value;
      if Add32(Add32(addr, extended), len) >= MEMORY_SIZE {
        return Rejected;
      }
      var sum := f.value + g.value / 0x100 + g.value % 0x100 + h.value;
      if code != 0 {
        if code == 1 {
          endSeen := true;
          return Accepted;
        }
        if code == 2 && len == 2 {
          v := ReadExtendedAddress(line, sum, false);
          return;
        }
        if code == 4 && len == 2 {
          v := ReadExtendedAddress(line, sum, true);
          return;
        }
        return Accepted;
      }
      byteCount := byteCount + f.value;
      v := ReadDataBytes(line, Add32(addr, extended), len, sum);
    }

    /** Read a whole file into a blank image. */
    method ReadIntelHex(text: string) returns (v: Verdict)
      requires Valid()
      modifies this, image, mask
      ensures Parsed(Value(), v) == ReadText(Blank(), text)
    {
      hide ParseLine, CString, LineLength;
      byteCount, endSeen, extended := 0, false, 0;
      forall i | 0 <= i < MEMORY_SIZE {
        image[i] := BLANK;
      }
      forall i | 0 <= i < MEMORY_SIZE {
        mask[i] := false;
      }
      assert image[..] == Blank().image && mask[..] == Blank().mask;
      var rest := text;
      while rest != []
        invariant ReadText(Value(), rest) == ReadText(Blank(), text)
        decreases |rest|
      {
        var n := LineLength(rest, LINE_LIMIT);
        var line := CString(rest[..n]);
        rest := rest[n..];
        if line != [] {
          v := ParseHexLine(line);
          if !v.Accepted? || endSeen {
            return;
          }
        }
      }
      v := Accepted;
    }
  }
}
