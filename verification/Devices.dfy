/** The memory updated in place. Each operation is the one of the same name on
    the value `Chip`. */
module Devices {
  import opened Chips
  import opened Programming

  class Device {
    const part: Part
    const flash: array<byte>
    const eeprom: array<byte>
    const buffer: array<byte>

    ghost predicate Valid() {
      && part.Valid()
      && flash.Length == part.flashSize
      && eeprom.Length == part.eepromSize
      && buffer.Length == part.pageSize
      && flash != eeprom && flash != buffer && eeprom != buffer
    }

    ghost function Value(): (c: Chip)
      requires Valid()
      reads flash, eeprom, buffer
      ensures c.Valid() && c.part == part
    {
      Chip(part, flash[..], eeprom[..], buffer[..])
    }

    /** A device holding the given contents; the page buffer is blank at reset. */
    constructor (part: Part, f: seq<byte>, e: seq<byte>)
      requires part.Valid() && |f| == part.flashSize && |e| == part.eepromSize
      ensures Valid() && fresh(flash) && fresh(eeprom) && fresh(buffer)
      ensures Value() == Chip(part, f, e, Blanks(part.pageSize))
    {
      this.part := part;
      flash := new byte[|f|](i requires 0 <= i < |f| => f[i]);
      eeprom := new byte[|e|](i requires 0 <= i < |e| => e[i]);
      buffer := new byte[part.pageSize](_ => BLANK);
      new;
      assert buffer[..] == Blanks(part.pageSize);
    }

    method ErasePage(a: nat)
      requires Valid()
      modifies flash
      ensures Value() == old(Value()).Erase(a)
    {
      var base := part.Page(a);
      forall i | base <= i < base + part.pageSize {
        flash[i] := BLANK;
      }
      assert flash[..] == Splice(old(flash[..]), base, Blanks(part.pageSize));
    }

    method FillWord(a: nat, lo: byte, hi: byte)
      requires Valid()
      modifies buffer
      ensures Value() == old(Value()).Fill(a, lo, hi)
    {
      part.OffsetParity(a);
      var o := part.Offset(a) - a % 2;
      buffer[o] := lo;
      buffer[o + 1] := hi;
      assert buffer[..] == old(Value()).Fill(a, lo, hi).buffer;
    }

    method WritePage(a: nat)
      requires Valid()
      modifies flash, buffer
      ensures Value() == old(Value()).Commit(a)
    {
      hide And, Part.Offset, Part.Wrap, Part.Base;
      var base, n := part.Page(a), part.pageSize;
      forall i | 0 <= i < n {
        flash[base + i] := And(flash[base + i], buffer[i]);
      }
      assert flash[base..base + n] == AndAll(old(flash[base..base + n]), old(buffer[..]));
      assert flash[..] == Splice(old(flash[..]), base, flash[base..base + n]);
      forall i | 0 <= i < n {
        buffer[i] := BLANK;
      }
      assert buffer[..] == Blanks(n);
    }

    /** Erase and commit every page below the boot section. */
    method EraseApplication()
      requires Valid()
      modifies flash, buffer
      ensures Value() == ErasedApplication(old(Value()))
    {
      hide Chip.Erase, Chip.Commit, Part.Offset, Wiped, ErasedApplication;
      ghost var c := Value();
      var curr := 0;
      assert Value() == Wiped(c, 0) by { WipedNone(c); }
      while curr < part.bootStart
        invariant curr == 0 || part.pageSize <= curr <= part.bootStart
        invariant part.Aligned(curr)
        invariant Value() == Wiped(c, curr)
      {
        WipeStep(c, curr);
        ErasePage(curr);
        WritePage(curr);
        curr := curr + part.pageSize;
      }
      WipedAll(c);
    }

    method ReadFlash(a: nat) returns (b: byte)
      requires Valid()
      ensures b == Value().ReadFlash(a)
    {
      b := flash[part.Wrap(a)];
    }

    method ReadEeprom(a: nat) returns (b: byte)
      requires Valid()
      ensures b == Value().ReadEeprom(a)
    {
      b := eeprom[part.WrapEeprom(a)];
    }

    method WriteEeprom(a: nat, b: byte)
      requires Valid()
      modifies eeprom
      ensures Value() == old(Value()).WriteEeprom(a, b)
    {
      eeprom[part.WrapEeprom(a)] := b;
      assert eeprom[..] == old(Value()).WriteEeprom(a, b).eeprom;
    }
  }
}
