/** SCSI commands over the virtual disk. */
module Scsi {
  import opened Chips
  import opened Endianness
  import opened FatTable
  import opened VirtualFat
  import opened VirtualFatRefinement

  const INQUIRY: byte := 0x12
  const REQUEST_SENSE: byte := 0x03
  const READ_CAPACITY_10: byte := 0x25
  const WRITE_10: byte := 0x2A
  const READ_10: byte := 0x28
  const MODE_SENSE_6: byte := 0x1A
  const START_STOP_UNIT: byte := 0x1B
  const SEND_DIAGNOSTIC: byte := 0x1D
  const TEST_UNIT_READY: byte := 0x00
  const PREVENT_ALLOW_MEDIUM_REMOVAL: byte := 0x1E
  const VERIFY_10: byte := 0x2F

  datatype Sense = Good | InvalidCommand | InvalidField | AddressOutOfRange

  type CommandBlock = c: seq<byte> | |c| == 16 witness Zeros(16)

  /** The logical unit: its disk, the sense data of the last command, the bytes the host still
      expects to transfer, and the flag that keeps the bootloader running. */
  datatype Unit = Unit(disk: Disk, sense: Sense, residue: uint32, runBootloader: bool)

  /** Outcome of a command, with the data sent to the host by block transfers. */
  datatype Reply = Reply(unit: Unit, ok: bool, data: seq<byte>)

  function Sub32(x: uint32, y: uint32): uint32 {
    if y <= x then x - y else x - y + 0x1_0000_0000
  }

  /** The block address, of which the code keeps 16 bits. */
  function BlockAddress(cdb: CommandBlock): word {
    SwapEndian(4, LittleEndian(cdb[2..6])) % 0x1_0000
  }

  function BlockCount(cdb: CommandBlock): word {
    SwapEndian(2, LittleEndian(cdb[7..9])) % 0x1_0000
  }

  function ReadBlocks(d: Disk, at: word, n: nat): (data: seq<byte>)
    requires d.Valid()
    ensures |data| == 512 * n
    decreases n
  {
    if n == 0 then [] else ReadSector(d, at) + ReadBlocks(d, Inc16(at), n - 1)
  }

  function WriteBlocks(d: Disk, at: word, n: nat, data: seq<byte>): (r: Disk)
    requires d.Valid() && |data| == 512 * n
    ensures r.Valid() && r.flashSectors == d.flashSectors && r.eepromSectors == d.eepromSectors
    decreases n
  {
    if n == 0 then d else WriteBlocks(WriteSector(d, at, data[..512]), Inc16(at), n - 1, data[512..])
  }

  /** READ(10) and WRITE(10). The host supplies all the blocks that a write announces. */
  function ReadWrite10(u: Unit, cdb: CommandBlock, read: bool, input: seq<byte>): (r: Reply)
    requires u.disk.Valid() && (!read ==> |input| == 512 * BlockCount(cdb))
    ensures r.unit.disk.Valid()
  {
    var at, n := BlockAddress(cdb), BlockCount(cdb);
    if at >= MediaBlocks(u.disk) then Reply(u.(sense := AddressOutOfRange), false, [])
    else
      var moved := u.(residue := Sub32(u.residue, 512 * n));
      if read then Reply(moved, true, ReadBlocks(u.disk, at, n))
      else Reply(moved.(disk := WriteBlocks(u.disk, at, n, input)), true, [])
  }

  function Min(x: nat, y: nat): nat {
    if x <= y then x else y
  }

  /** A data-in command whose reply is not modelled beyond its length. */
  function Informed(u: Unit, length: uint32): Reply {
    Reply(u.(residue := Sub32(u.residue, length)), true, [])
  }

  function Dispatch(u: Unit, cdb: CommandBlock, input: seq<byte>): (r: Reply)
    requires u.disk.Valid() && (cdb[0] == WRITE_10 ==> |input| == 512 * BlockCount(cdb))
    ensures r.unit.disk.Valid()
  {
    var opcode := cdb[0];
    if opcode == INQUIRY then
      if cdb[1] % 4 != 0 || cdb[2] != 0 then Reply(u.(sense := InvalidField), false, [])
      else Informed(u, Min(SwapEndian(2, LittleEndian(cdb[3..5])) % 0x1_0000, 36))
    else if opcode == REQUEST_SENSE then Informed(u, Min(cdb[4], 18))
    else if opcode == READ_CAPACITY_10 then Informed(u, 8)
    else if opcode == WRITE_10 then ReadWrite10(u, cdb, false, input)
    else if opcode == READ_10 then ReadWrite10(u, cdb, true, input)
    else if opcode == MODE_SENSE_6 then Informed(u, 4)
    else if opcode == START_STOP_UNIT then Reply(u.(runBootloader := cdb[4] % 4 != 2, residue := 0), true, [])
    else if opcode in {SEND_DIAGNOSTIC, TEST_UNIT_READY, PREVENT_ALLOW_MEDIUM_REMOVAL, VERIFY_10}
    then Reply(u.(residue := 0), true, [])
    else Reply(u.(sense := InvalidCommand), false, [])
  }

  /** A success clears the sense data. */
  function Decode(u: Unit, cdb: CommandBlock, input: seq<byte>): (r: Reply)
    requires u.disk.Valid() && (cdb[0] == WRITE_10 ==> |input| == 512 * BlockCount(cdb))
    ensures r.unit.disk.Valid()
  {
    var r := Dispatch(u, cdb, input);
    if r.ok then r.(unit := r.unit.(sense := Good)) else r
  }

  // Block transfers

  /** The code reads the address and the count in big-endian order, and drops the upper half of the
      address. */
  lemma CommandFields(cdb: CommandBlock)
    ensures BlockAddress(cdb) == BigEndian(cdb[2..6]) % 0x1_0000
    ensures BlockCount(cdb) == BigEndian(cdb[7..9])
  {
    hide SwapEndian, LittleEndian;
    SwapEndianLoads(cdb[2..6]);
    SwapEndianLoads(cdb[7..9]);
    BigEndianTwo(cdb[7..9]);
  }

  lemma BigEndianTwo(s: seq<byte>)
    requires |s| == 2
    ensures BigEndian(s) < 0x1_0000
  {
    assert s[..1][..0] == [];
    assert BigEndian(s[..1]) == s[0];
  }

  lemma {:induction false} WriteBlocksElsewhere(d: Disk, at: word, n: nat, data: seq<byte>, q: word)
    requires d.Valid() && |data| == 512 * n && at >= DATA_START_BLOCK && at + n <= 0x1_0000
    requires q < at || at + n <= q
    ensures ReadSector(WriteBlocks(d, at, n, data), q) == ReadSector(d, q)
    ensures n < 0x1_0000
    decreases n
  {
    hide WriteSector, ReadSector;
    if n != 0 {
      WriteRead(d, at, data[..512], q);
      if n > 1 {
        WriteBlocksElsewhere(WriteSector(d, at, data[..512]), at + 1, n - 1, data[512..], q);
      }
    }
  }

  function Block(data: seq<byte>, i: nat): Sector
    requires 512 * i + 512 <= |data|
  {
    data[512 * i..512 * i + 512]
  }

  lemma SameStores(d: Disk, at: word, data: Sector, q: word)
    requires d.Valid() && at >= DATA_START_BLOCK
    ensures Stores(WriteSector(d, at, data), q) == Stores(d, q)
  {
    hide StartBlock, InFile;
  }

  /** After a write, each block holds what was written to it if it stores, and what it held if not. */
  lemma {:induction false} WrittenBlock(d: Disk, at: word, n: nat, data: seq<byte>, i: nat)
    requires d.Valid() && |data| == 512 * n && at >= DATA_START_BLOCK && at + n <= 0x1_0000 && i < n
    ensures ReadSector(WriteBlocks(d, at, n, data), at + i)
            == if Stores(d, at + i) then Block(data, i) else ReadSector(d, at + i)
    decreases n
  {
    hide WriteSector, ReadSector, Stores;
    var e := WriteSector(d, at, data[..512]);
    WriteRead(d, at, data[..512], at + i);
    if i == 0 {
      if n > 1 {
        WriteBlocksElsewhere(e, at + 1, n - 1, data[512..], at);
      }
    } else {
      SameStores(d, at, data[..512], at + i);
      WrittenBlock(e, at + 1, n - 1, data[512..], i - 1);
      BlockShift(data, i - 1);
    }
  }

  lemma {:induction false} ReadBlocksAre(d: Disk, at: word, n: nat, data: seq<byte>)
    requires d.Valid() && |data| == 512 * n && at + n <= 0x1_0000
    requires forall i :: 0 <= i < n ==> ReadSector(d, at + i) == Block(data, i)
    ensures ReadBlocks(d, at, n) == data
    decreases n
  {
    hide ReadSector;
    if n > 0 {
      assert ReadSector(d, at + 0) == Block(data, 0) == data[..512];
      if n > 1 {
        forall i | 0 <= i < n - 1
          ensures ReadSector(d, at + 1 + i) == Block(data[512..], i)
        {
          BlockShift(data, i);
          assert ReadSector(d, at + (i + 1)) == Block(data, i + 1);
        }
        ReadBlocksAre(d, at + 1, n - 1, data[512..]);
      } else {
        assert data[512..] == [];
      }
    }
  }

  /** Two commands address the same blocks. */
  predicate SameBlocks(w: CommandBlock, r: CommandBlock) {
    BlockAddress(w) == BlockAddress(r) && BlockCount(w) == BlockCount(r)
  }

  /** WRITE(10) then READ(10) of blocks of the file data returns what was written; both succeed and
      lower the residue by the bytes moved. */
  lemma WriteThenRead(u: Unit, w: CommandBlock, r: CommandBlock, data: seq<byte>)
    requires u.disk.Valid() && w[0] == WRITE_10 && r[0] == READ_10 && SameBlocks(w, r)
    requires |data| == 512 * BlockCount(w)
    requires var at, n := BlockAddress(w), BlockCount(w);
             && DATA_START_BLOCK <= at < MediaBlocks(u.disk) && at + n <= 0x1_0000
             && forall q: word :: at <= q < at + n ==> Stores(u.disk, q)
    ensures var n := 512 * BlockCount(w);
            var written := Decode(u, w, data);
            var back := Decode(written.unit, r, []);
            && written.ok && written.unit.residue == Sub32(u.residue, n) && written.unit.sense.Good?
            && back.ok && back.unit.residue == Sub32(written.unit.residue, n) && back.unit.disk == written.unit.disk
            && back.data == data
  {
    hide BlockAddress, BlockCount, ReadBlocks, WriteBlocks, Stores, ReadSector;
    var at, n := BlockAddress(w), BlockCount(w);
    var d := WriteBlocks(u.disk, at, n, data);
    forall i | 0 <= i < n
      ensures ReadSector(d, at + i) == Block(data, i)
    {
      assert Stores(u.disk, at + i);
      WrittenBlock(u.disk, at, n, data, i);
    }
    ReadBlocksAre(d, at, n, data);
  }

  /** All blocks of a transfer are on the disk. */
  predicate OnDisk(d: Disk, lba: nat, count: nat)
    requires d.Valid()
  {
    lba < MediaBlocks(d) && lba + count <= MediaBlocks(d)
  }

  /** A block transfer is refused exactly when the low half of its first address is off the disk. That
      is the right answer exactly when it is refused or all its blocks are on the disk. */
  lemma RefusedExactly(u: Unit, cdb: CommandBlock, read: bool, input: seq<byte>)
    requires u.disk.Valid() && (!read ==> |input| == 512 * BlockCount(cdb))
    ensures var lba, count, ok := BigEndian(cdb[2..6]), BigEndian(cdb[7..9]), ReadWrite10(u, cdb, read, input).ok;
            && (ok <==> lba % 0x1_0000 < MediaBlocks(u.disk))
            && ((ok <==> OnDisk(u.disk, lba, count))
                <==> lba % 0x1_0000 >= MediaBlocks(u.disk) || OnDisk(u.disk, lba, count))
  {
    hide BlockAddress, BlockCount, ReadBlocks, WriteBlocks, BigEndian;
    CommandFields(cdb);
  }

  /** A read of two blocks from the last one of the disk on succeeds, and returns a block behind the
      disk as well. */
  lemma OffTheEnd(u: Unit, cdb: CommandBlock)
    requires u.disk.Valid()
    requires BigEndian(cdb[2..6]) == MediaBlocks(u.disk) - 1 && BigEndian(cdb[7..9]) == 2
    ensures var r, last := ReadWrite10(u, cdb, true, []), MediaBlocks(u.disk) - 1;
            && !OnDisk(u.disk, last, 2) && r.ok
            && r.data == ReadSector(u.disk, last) + ReadSector(u.disk, last + 1)
  {
    hide BlockAddress, BlockCount, ReadSector, BigEndian;
    CommandFields(cdb);
    var d, last: word := u.disk, MediaBlocks(u.disk) - 1;
    assert ReadBlocks(d, last + 1, 1) == ReadSector(d, last + 1) + [];
    assert ReadBlocks(d, last, 2) == ReadSector(d, last) + ReadBlocks(d, last + 1, 1);
  }

  /** Blocks from an address to the next directory block; addresses count on from 0xFFFF to 0. */
  function ToRoot(at: word): nat {
    if at <= ROOT_BLOCK then ROOT_BLOCK - at else 0x1_0000 + ROOT_BLOCK - at
  }

  lemma ToRootNext(at: word)
    ensures ToRoot(at) < 0x1_0000 && (ToRoot(at) == 0 <==> at == ROOT_BLOCK)
    ensures at != ROOT_BLOCK ==> ToRoot(Inc16(at)) == ToRoot(at) - 1
    ensures at == ROOT_BLOCK ==> ToRoot(Inc16(at)) == 0xFFFF
  {
  }

  lemma SectorDirectory(d: Disk, at: word, data: Sector)
    requires d.Valid()
    ensures WriteSector(d, at, data).dir == if at == ROOT_BLOCK then data[..DIRECTORY_SIZE] else d.dir
  {
    hide WriteFlashBlock, WriteEepromBlock;
  }

  lemma BlockShift(data: seq<byte>, k: nat)
    requires 512 * k + 1024 <= |data|
    ensures Block(data[512..], k) == Block(data, k + 1)
  {
  }

  /** A write replaces the directory by the block of its data that falls on the directory block, if one
      does, also by coming round to it from the end of the addresses, and otherwise leaves it. */
  lemma {:induction false} DirectoryWritten(d: Disk, at: word, n: nat, data: seq<byte>)
    requires d.Valid() && |data| == 512 * n && n < 0x1_0000
    ensures WriteBlocks(d, at, n, data).dir
            == if ToRoot(at) < n then Block(data, ToRoot(at))[..DIRECTORY_SIZE] else d.dir
    decreases n
  {
    hide WriteSector, ToRoot, Inc16;
    ToRootNext(at);
    if n > 0 {
      var k := ToRoot(at);
      SectorDirectory(d, at, data[..512]);
      DirectoryWritten(WriteSector(d, at, data[..512]), Inc16(at), n - 1, data[512..]);
      if 0 < k < n {
        BlockShift(data, k - 1);
      }
    }
  }

  /** A read of block 0x10000, far beyond the disk, returns the boot block. */
  lemma FarAddressRead(u: Unit)
    requires u.disk.Valid()
    ensures var cdb: CommandBlock := [READ_10, 0, 0, 1, 0, 0, 0, 0, 1, 0, 0, 0, 0, 0, 0, 0];
            var r := ReadWrite10(u, cdb, true, []);
            && BigEndian(cdb[2..6]) == 0x1_0000 > MediaBlocks(u.disk)
            && r.ok && r.data == ReadSector(u.disk, BOOT_BLOCK)
  {
    hide ReadSector, BigEndian, BlockAddress, BlockCount;
    var cdb: CommandBlock := [READ_10, 0, 0, 1, 0, 0, 0, 0, 1, 0, 0, 0, 0, 0, 0, 0];
    CommandFields(cdb);
    assert cdb[2..6] == [0, 1, 0, 0] && cdb[7..9] == [0, 1];
    BigEndianValues();
    assert ReadBlocks(u.disk, 0, 1) == ReadSector(u.disk, 0) + [];
  }

  lemma BigEndianValues()
    ensures BigEndian([0, 1, 0, 0]) == 0x1_0000 && BigEndian([0, 1]) == 1
  {
    assert [0, 1, 0, 0][..3] == [0, 1, 0] && [0, 1, 0][..2] == [0, 1] && [0, 1][..1] == [0] && [0][..0] == [];
    assert BigEndian([0]) == 0 && BigEndian([0, 1]) == 1 && BigEndian([0, 1, 0]) == 0x100;
  }
}
