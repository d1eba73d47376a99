/** The self-programming memory that every bootloader drives: flash that is
    erased and committed a page at a time through a temporary page buffer, and
    byte-addressed EEPROM.

    `Chip` is the value of that memory with the hardware's operations as
    functions; `Device` is the memory itself, updated in place. */
module Chips {

  type byte = x: int | 0 <= x < 0x100
  type word = x: int | 0 <= x < 0x1_0000
  type uint32 = x: int | 0 <= x < 0x1_0000_0000

  const BLANK: byte := 0xFF

  function Lo(w: word): byte { w % 0x100 }

  function Hi(w: word): byte { w / 0x100 }

  function Word(lo: byte, hi: byte): word { lo + 0x100 * hi }

  lemma WordParts(w: word)
    ensures Word(Lo(w), Hi(w)) == w
  {
  }

  // Unsigned arithmetic wraps around

  function Inc16(x: word): word {
    if x == 0xFFFF then 0 else x + 1
  }

  function Add32(x: uint32, y: uint32): uint32 {
    if x + y < 0x1_0000_0000 then x + y else x + y - 0x1_0000_0000
  }

  /** Bitwise conjunction, which is what programming does to a flash cell: bits
      can be cleared, and only an erase sets them again. */
  function BitAnd(a: nat, b: nat): (r: nat)
    ensures r <= a && r <= b
  {
    if a == 0 || b == 0 then 0
    else (if a % 2 == 1 && b % 2 == 1 then 1 else 0) + 2 * BitAnd(a / 2, b / 2)
  }

  function Ones(k: nat): nat { if k == 0 then 0 else 1 + 2 * Ones(k - 1) }

  lemma {:induction false} BitAndOnes(k: nat, b: nat)
    requires b <= Ones(k)
    ensures BitAnd(Ones(k), b) == b && BitAnd(b, Ones(k)) == b
  {
    if k != 0 && b != 0 {
      BitAndOnes(k - 1, b / 2);
    }
  }

  function And(a: byte, b: byte): (r: byte)
    ensures a == BLANK ==> r == b
    ensures b == BLANK ==> r == a
  {
    assert Ones(8) == BLANK;
    BitAndOnes(8, a);
    BitAndOnes(8, b);
    BitAnd(a, b)
  }

  /** A microcontroller, as the build configures the bootloader for it. */
  datatype Part = Part(pageSize: nat, flashSize: nat, bootStart: nat, eepromSize: nat) {

    predicate Valid() {
      && (pageSize == 128 || pageSize == 256)
      && 0 < bootStart <= flashSize <= 0x2_0000
      && Aligned(bootStart) && Aligned(flashSize)
      && 0 < eepromSize <= 0x1000
    }

    /** Position of an address inside its page: the remainder by the page size. */
    function Offset(a: nat): (o: nat)
      requires 0 < pageSize
      ensures o < pageSize && o <= a
    {
      if a < pageSize then a else Offset(a - pageSize)
    }

    predicate Aligned(a: nat)
      requires 0 < pageSize
    {
      Offset(a) == 0
    }

    /** Start of the page an address lies in. */
    function Base(a: nat): nat
      requires 0 < pageSize
    {
      a - Offset(a)
    }

    /** First page boundary at or after an address. */
    function PageEnd(a: nat): nat
      requires 0 < pageSize
    {
      if Aligned(a) then a else Base(a) + pageSize
    }

    /** Address bits beyond the flash are not decoded. */
    function Wrap(a: nat): (r: nat)
      requires 0 < flashSize
      ensures r < flashSize
      ensures a < flashSize ==> r == a
    {
      if a < flashSize then a else Wrap(a - flashSize)
    }

    function WrapEeprom(a: nat): (r: nat)
      requires 0 < eepromSize
      ensures r < eepromSize
      ensures a < eepromSize ==> r == a
    {
      if a < eepromSize then a else WrapEeprom(a - eepromSize)
    }

    lemma WrapSmall(a: nat)
      requires a < flashSize
      ensures Wrap(a) == a
    {
    }

    lemma WrapInside(a: nat)
      requires 0 < flashSize && 0 < eepromSize
      ensures a < flashSize ==> Wrap(a) == a
      ensures a < eepromSize ==> WrapEeprom(a) == a
    {
    }

    /** Start of the physical page that an address selects. */
    function Page(a: nat): (r: nat)
      requires Valid()
      ensures r + pageSize <= flashSize && Aligned(r)
      ensures a < flashSize ==> r == Base(a)
    {
      BaseAligned(Wrap(a));
      BaseBelow(Wrap(a), flashSize);
      Base(Wrap(a))
    }

    lemma {:induction false} BaseAligned(a: nat)
      requires 0 < pageSize
      ensures Aligned(Base(a)) && Base(a) <= a
    {
      if a >= pageSize {
        BaseAligned(a - pageSize);
        assert Base(a) == Base(a - pageSize) + pageSize;
      }
    }

    lemma {:induction false} BaseBelow(a: nat, end: nat)
      requires 0 < pageSize && Aligned(end) && a < end
      ensures Base(a) + pageSize <= end
    {
      if a >= pageSize {
        BaseBelow(a - pageSize, end - pageSize);
      }
    }

    lemma PageEndBelow(a: nat, end: nat)
      requires 0 < pageSize && Aligned(end) && a <= end
      ensures a <= PageEnd(a) <= end
    {
      if a < end {
        BaseBelow(a, end);
      }
    }

    lemma {:induction false} OffsetAdd(a: nat, k: nat)
      requires 0 < pageSize && Offset(a) + k < pageSize
      ensures Offset(a + k) == Offset(a) + k
    {
      if a >= pageSize {
        OffsetAdd(a - pageSize, k);
      }
    }

    lemma {:induction false} OffsetNext(a: nat, k: nat)
      requires 0 < pageSize && Offset(a) + k == pageSize
      ensures Aligned(a + k)
    {
      if a >= pageSize {
        OffsetNext(a - pageSize, k);
      }
    }

    /** Offsets do not depend on the aligned address they are counted from. */
    lemma {:induction false} OffsetFrom(at: nat, k: nat)
      requires 0 < pageSize && Aligned(at)
      ensures Offset(at + k) == Offset(k) <= k
    {
      if at >= pageSize {
        OffsetFrom(at - pageSize, k);
      }
    }

    lemma {:induction false} OffsetParity(a: nat)
      requires 0 < pageSize && pageSize % 2 == 0
      ensures Offset(a) % 2 == a % 2
    {
      if a >= pageSize {
        OffsetParity(a - pageSize);
      }
    }

    /** A word at an even address does not straddle pages. */
    lemma WordFits(a: nat)
      requires (pageSize == 128 || pageSize == 256) && a % 2 == 0
      ensures Offset(a) % 2 == 0 && Offset(a) + 2 <= pageSize
    {
      OffsetParity(a);
    }

    lemma {:induction false} PageEndInside(a: nat, n: nat)
      requires 0 < pageSize && 0 < n && Offset(a) + n <= pageSize
      ensures PageEnd(a + n) == Base(a) + pageSize
    {
      if Offset(a) + n == pageSize {
        OffsetNext(a, n);
      } else {
        OffsetAdd(a, n);
      }
    }
  }

  function Blanks(n: nat): (s: seq<byte>)
    ensures |s| == n
    ensures forall i :: 0 <= i < n ==> s[i] == BLANK
  {
    seq(n, _ => BLANK)
  }

  /** A sequence with the stretch from `at` on replaced. */
  function Splice<T>(s: seq<T>, at: nat, d: seq<T>): (r: seq<T>)
    requires at + |d| <= |s|
    ensures |r| == |s|
  {
    s[..at] + d + s[at + |d|..]
  }

  function AndAll(cells: seq<byte>, data: seq<byte>): (r: seq<byte>)
    requires |cells| == |data|
    ensures |r| == |data|
    ensures cells == Blanks(|cells|) ==> r == data
  {
    seq(|cells|, i requires 0 <= i < |cells| => And(cells[i], data[i]))
  }

  datatype Chip = Chip(part: Part, flash: seq<byte>, eeprom: seq<byte>, buffer: seq<byte>) {

    predicate Valid() {
      && part.Valid()
      && |flash| == part.flashSize
      && |eeprom| == part.eepromSize
      && |buffer| == part.pageSize
    }

    predicate BufferBlank() {
      buffer == Blanks(|buffer|)
    }

    /** Erase the flash page an address lies in. */
    function Erase(a: nat): (c: Chip)
      requires Valid()
      ensures c.Valid() && c == this.(flash := c.flash)
    {
      this.(flash := Splice(flash, part.Page(a), Blanks(part.pageSize)))
    }

    /** Load the word with the given low and high byte into the page buffer; the lowest address
        bit is not decoded. */
    function Fill(a: nat, lo: byte, hi: byte): (c: Chip)
      requires Valid()
      ensures c.Valid() && c == this.(buffer := c.buffer)
    {
      part.OffsetParity(a);
      this.(buffer := Splice(buffer, part.Offset(a) - a % 2, [lo, hi]))
    }

    /** Program the page buffer into the page an address lies in; the buffer is blank afterwards. */
    function Commit(a: nat): (c: Chip)
      requires Valid()
      ensures c.Valid() && c == this.(flash := c.flash, buffer := c.buffer) && c.BufferBlank()
    {
      var base := part.Page(a);
      this.(flash := Splice(flash, base, AndAll(flash[base..base + part.pageSize], buffer)),
            buffer := Blanks(|buffer|))
    }

    function ReadFlash(a: nat): byte
      requires Valid()
    {
      flash[part.Wrap(a)]
    }

    function ReadEeprom(a: nat): byte
      requires Valid()
    {
      eeprom[part.WrapEeprom(a)]
    }

    function WriteEeprom(a: nat, b: byte): (c: Chip)
      requires Valid()
      ensures c.Valid() && c == this.(eeprom := c.eeprom)
    {
      this.(eeprom := eeprom[part.WrapEeprom(a) := b])
    }
  }
}
