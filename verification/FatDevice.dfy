/** The virtual disk as it runs: the allocation table and the block buffer are written in place, and
    flash is programmed word by word. */
module FatDevice {
  import opened Chips
  import opened Devices
  import opened Programming
  import opened FatTable
  import opened VirtualFat

  method UpdateFAT12ClusterEntry(table: array<byte>, index: word, entry: word)
    requires table.Length == SECTOR_SIZE
    modifies table
    ensures table[..] == SetEntry(old(table[..]), index, entry)
  {
    hide Or;
    var o := EntryOffset(index);
    if index % 2 == 1 {
      table[o] := table[o] % 16 + entry % 16 * 16;
      table[o + 1] := entry / 16 % 0x100;
    } else {
      table[o] := entry % 0x100;
      table[o + 1] := Or(table[o] / 16 * 16, entry / 0x100);
    }
  }

  method UpdateFAT12ClusterChain(table: array<byte>, index: word, length: nat)
    requires table.Length == SECTOR_SIZE && length < 0x100
    modifies table
    ensures table[..] == SetChain(old(table[..]), index, 0, length)
  {
    hide SetEntry;
    for i := 0 to length
      invariant SetChain(table[..], index, i, length) == SetChain(old(table[..]), index, 0, length)
    {
      var current: word := (index + i) % 0x1_0000;
      var next: word := (current + 1) % 0x1_0000;
      if i == length - 1 {
        next := END_OF_CHAIN;
      }
      UpdateFAT12ClusterEntry(table, current, next);
    }
  }

  class VirtualDisk {
    const dev: Device
    const flashSectors: nat
    const eepromSectors: nat
    const dir: array<byte>

    ghost predicate Valid() {
      && dev.Valid() && dir.Length == DIRECTORY_SIZE
      && dir != dev.flash && dir != dev.eeprom && dir != dev.buffer
      && 0 < flashSectors && 512 * flashSectors <= dev.part.bootStart
      && 0 < eepromSectors && 512 * eepromSectors == dev.part.eepromSize
    }

    ghost function Value(): (d: Disk)
      requires Valid()
      reads dev.flash, dev.eeprom, dev.buffer, dir
      ensures d.Valid()
    {
      Disk(dev.Value(), flashSectors, eepromSectors, dir[..])
    }

    constructor (dev: Device, flashSectors: nat, eepromSectors: nat, entries: seq<byte>)
      requires dev.Valid() && |entries| == DIRECTORY_SIZE
      requires 0 < flashSectors && 512 * flashSectors <= dev.part.bootStart
      requires 0 < eepromSectors && 512 * eepromSectors == dev.part.eepromSize
      ensures Valid() && fresh(dir) && Value() == Disk(dev.Value(), flashSectors, eepromSectors, entries)
    {
      this.dev, this.flashSectors, this.eepromSectors := dev, flashSectors, eepromSectors;
      dir := new byte[DIRECTORY_SIZE](i requires 0 <= i < DIRECTORY_SIZE => entries[i]);
      new;
      assert dir[..] == entries;
    }

    method WriteFlashFile(at: nat, block: array<byte>)
      requires Valid() && at % 512 == 0 && at + 512 <= 512 * flashSectors
      requires block.Length == 512 && block != dev.flash && block != dev.buffer
      modifies dev.flash, dev.buffer
      ensures dev.Value() == old(dev.Value()).(flash := Splice(old(dev.flash[..]), at, block[..]), buffer := Blanks(dev.part.pageSize))
    {
      hide Splice, Blanks, Part.Offset, Chip.Erase, Chip.Fill, Chip.Commit, Streamed;
      ghost var c, data := dev.Value(), block[..];
      assert at == 512 * (at / 512);
      BlocksAligned(dev.part, at / 512);
      var addr, i := at, 0;
      assert dev.Value() == Streamed(c, at, data[..0]) by { StreamedNone(c, at, data); }
      while i < 512
        invariant 0 <= i <= 512 && i % 2 == 0 && addr == at + i
        invariant block[..] == data
        invariant dev.Value() == Streamed(c, at, data[..i])
      {
        StreamedWord(c, at, data[..i], data[i], data[i + 1]);
        assert data[..i] + [data[i], data[i + 1]] == data[..i + 2];
        if dev.part.Offset(addr) == 0 {
          dev.ErasePage(addr);
        }
        dev.FillWord(addr, block[i], block[i + 1]);
        ghost var before := addr;
        addr := addr + 2;
        if dev.part.Offset(addr) == 0 {
          LastPage(dev.part, before);
          dev.WritePage(addr - dev.part.pageSize);
        }
        i := i + 2;
      }
      assert data[..512] == data;
      StreamedWhole(c, at, data);
    }

    method ReadWriteFLASHFileBlock(b: word, block: array<byte>, read: bool)
      requires Valid() && block.Length == 512
      requires block != dev.flash && block != dev.buffer && block != dev.eeprom && block != dir
      modifies if read then {block} else {dev.flash, dev.buffer}
      ensures if read
              then && Value() == old(Value())
                   && block[..] == if InFlash(Value(), b) then FlashSlice(Value(), b) else old(block[..])
              else block[..] == old(block[..]) && Value() == WriteFlashBlock(old(Value()), b, block[..])
    {
      hide StartBlock, Splice, Blanks, Word;
      var start := StartBlock(Word(dir[90], dir[91]));
      assert InFlash(Value(), b) == InFile(b, start, flashSectors);
      if !InFile(b, start, flashSectors) {
        return;
      }
      InFileMeans(b, start, flashSectors);
      var at := 512 * (b - start);
      if read {
        for i := 0 to 512
          invariant Value() == old(Value())
          invariant forall k :: 0 <= k < i ==> block[k] == dev.flash[at + k]
        {
          block[i] := dev.ReadFlash(at + i);
          dev.part.WrapInside(at + i);
        }
      } else {
        WriteFlashFile(at, block);
      }
    }

    method ReadWriteEEPROMFileBlock(b: word, block: array<byte>, read: bool)
      requires Valid() && block.Length == 512
      requires block != dev.flash && block != dev.buffer && block != dev.eeprom && block != dir
      modifies if read then {block} else {dev.eeprom}
      ensures if read
              then && Value() == old(Value())
                   && block[..] == if InEeprom(Value(), b) then EepromSlice(Value(), b) else old(block[..])
              else block[..] == old(block[..]) && Value() == WriteEepromBlock(old(Value()), b, block[..])
    {
      hide StartBlock, Splice, Blanks, Word;
      var start := StartBlock(Word(dir[154], dir[155]));
      assert InEeprom(Value(), b) == InFile(b, start, eepromSectors);
      if !InFile(b, start, eepromSectors) {
        return;
      }
      InFileMeans(b, start, eepromSectors);
      var at := 512 * (b - start);
      if read {
        for i := 0 to 512
          invariant Value() == old(Value())
          invariant forall k :: 0 <= k < i ==> block[k] == dev.eeprom[at + k]
        {
          block[i] := dev.ReadEeprom(at + i);
          dev.part.WrapInside(at + i);
        }
      } else {
        WriteEepromFile(at, block);
      }
    }

    method WriteEepromFile(at: nat, block: array<byte>)
      requires Valid() && at + 512 <= dev.eeprom.Length && block.Length == 512 && block != dev.eeprom
      modifies dev.eeprom
      ensures dev.Value() == old(dev.Value()).(eeprom := Splice(old(dev.eeprom[..]), at, block[..]))
    {
      hide Chip.WriteEeprom;
      for i := 0 to 512
        invariant dev.flash[..] == old(dev.flash[..]) && dev.buffer[..] == old(dev.buffer[..])
        invariant block[..] == old(block[..])
        invariant forall k :: 0 <= k < dev.eeprom.Length ==>
          dev.eeprom[k] == if at <= k < at + i then block[k - at] else old(dev.eeprom[k])
      {
        EepromByteWritten(dev.Value(), at + i, block[i]);
        dev.WriteEeprom(at + i, block[i]);
      }
      assert dev.eeprom[..] == Splice(old(dev.eeprom[..]), at, block[..]);
    }

    /** Receive a block from the host. */
    method WriteBlock(b: word, data: Sector)
      requires Valid()
      modifies dev.flash, dev.buffer, dev.eeprom, dir
      ensures Value() == WriteSector(old(Value()), b, data)
    {
      hide WriteFlashBlock, WriteEepromBlock;
      var block := new byte[512](i requires 0 <= i < 512 => data[i]);
      assert block[..] == data;
      if b < ROOT_BLOCK {
      } else if b == ROOT_BLOCK {
        forall i | 0 <= i < DIRECTORY_SIZE {
          dir[i] := block[i];
        }
        assert dir[..] == data[..DIRECTORY_SIZE];
      } else {
        ReadWriteFLASHFileBlock(b, block, false);
        ReadWriteEEPROMFileBlock(b, block, false);
      }
    }

    /** Make up a block for the host. */
    method ReadBlock(b: word) returns (data: seq<byte>)
      requires Valid()
      ensures data == ReadSector(Value(), b)
    {
      hide SetChain, SetEntry, Zeros, DataSector, InFlash, InEeprom, FlashOffset, EepromOffset;
      var block := new byte[512](_ => 0);
      assert block[..] == Zeros(512);
      if b == BOOT_BLOCK {
        return BootSector(flashSectors + eepromSectors + 32);
      } else if b == FAT_BLOCK_1 || b == FAT_BLOCK_2 {
        UpdateFAT12ClusterEntry(block, 0, 0xFF8);
        UpdateFAT12ClusterEntry(block, 1, 0xFFF);
        UpdateFAT12ClusterChain(block, Word(dir[90], dir[91]), FileClusters(512 * flashSectors) % 0x100);
        UpdateFAT12ClusterChain(block, Word(dir[154], dir[155]), FileClusters(512 * eepromSectors - 1) % 0x100);
      } else if b == ROOT_BLOCK {
        forall i | 0 <= i < DIRECTORY_SIZE {
          block[i] := dir[i];
        }
      } else {
        ReadWriteFLASHFileBlock(b, block, true);
        ReadWriteEEPROMFileBlock(b, block, true);
        DataSlices(Value(), b);
      }
      return block[..];
    }
  }

  function FlashSlice(d: Disk, b: word): Sector
    requires d.Valid() && InFlash(d, b)
  {
    d.chip.flash[FlashOffset(d, b)..FlashOffset(d, b) + 512]
  }

  function EepromSlice(d: Disk, b: word): Sector
    requires d.Valid() && InEeprom(d, b)
  {
    d.chip.eeprom[EepromOffset(d, b)..EepromOffset(d, b) + 512]
  }

  lemma DataSlices(d: Disk, b: word)
    requires d.Valid()
    ensures DataSector(d, b) == if InEeprom(d, b) then EepromSlice(d, b) else if InFlash(d, b) then FlashSlice(d, b) else Zeros(512)
  {
  }

  lemma StreamedNone(c: Chip, at: nat, data: seq<byte>)
    requires c.Valid() && c.part.Aligned(at) && at <= c.part.flashSize
    ensures Streamed(c, at, data[..0]) == c
  {
    var none := data[..0];
    assert none[..0] == none && Splice(c.flash, at, none) == c.flash;
  }

  lemma StreamedWhole(c: Chip, at: nat, data: seq<byte>)
    requires c.Valid() && c.part.Aligned(at) && at + |data| <= c.part.flashSize && |data| % 2 == 0
    requires data != [] && c.part.Aligned(at + |data|)
    ensures Streamed(c, at, data) == c.(flash := Splice(c.flash, at, data), buffer := Blanks(|c.buffer|))
  {
    assert data[..|data|] == data;
  }

  /** The page just completed is the one before the next address. */
  lemma LastPage(part: Part, a: nat)
    requires part.Valid() && part.Aligned(a + 2) && a % 2 == 0
    ensures part.pageSize <= a + 2 && part.Base(a) == a + 2 - part.pageSize
  {
    part.WordFits(a);
    if part.Offset(a) + 2 < part.pageSize {
      part.OffsetAdd(a, 2);
      assert false;
    }
  }
}
