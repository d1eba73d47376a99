/** The mass-storage bootloader as it runs: the command dispatcher and the main loop. */
module ScsiDevice {
  import opened Chips
  import opened Endianness
  import opened FatTable
  import opened FatDevice
  import opened VirtualFat
  import opened Scsi

  class LogicalUnit {
    const disk: VirtualDisk
    var sense: Sense
    var residue: uint32
    var runBootloader: bool

    ghost predicate Valid() {
      disk.Valid()
    }

    ghost function Value(): (u: Unit)
      requires Valid()
      reads this, disk.dev.flash, disk.dev.eeprom, disk.dev.buffer, disk.dir
      ensures u.disk.Valid()
    {
      Unit(disk.Value(), sense, residue, runBootloader)
    }

    constructor (disk: VirtualDisk)
      requires disk.Valid()
      ensures Valid() && Value() == Unit(disk.Value(), Good, 0, true)
    {
      this.disk := disk;
      sense, residue, runBootloader := Good, 0, true;
    }

    method CommandReadWrite10(cdb: CommandBlock, read: bool, input: seq<byte>) returns (ok: bool, output: seq<byte>)
      requires Valid() && (!read ==> |input| == 512 * BlockCount(cdb))
      modifies this, disk.dev.flash, disk.dev.buffer, disk.dev.eeprom, disk.dir
      ensures Reply(Value(), ok, output) == ReadWrite10(old(Value()), cdb, read, input)
    {
      hide ReadSector, WriteSector, BlockAddress, BlockCount, Sub32, Inc16, Chip.Valid;
      var at := BlockAddress(cdb);
      var n: nat := BlockCount(cdb);
      output := [];
      if at >= disk.flashSectors + disk.eepromSectors + 32 {
        sense := AddressOutOfRange;
        return false, [];
      }
      var i: nat, block: word := 0, at;
      ghost var d := disk.Value();
      while i < n
        invariant i <= n
        invariant Value() == old(Value()).(disk := disk.Value())
        invariant read ==> disk.Value() == d && ReadBlocks(d, at, n) == output + ReadBlocks(d, block, n - i)
        invariant !read ==> output == []
        invariant !read ==> WriteBlocks(d, at, n, input) == WriteBlocks(disk.Value(), block, n - i, input[512 * i..])
      {
        if read {
          var data := disk.ReadBlock(block);
          output := output + data;
        } else {
          var data := input[512 * i..][..512];
          assert input[512 * i..][512..] == input[512 * (i + 1)..];
          disk.WriteBlock(block, data);
        }
        i := i + 1;
        block := Inc16(block);
      }
      residue := Sub32(residue, 512 * n);
      ok := true;
    }

    /** Run the handler of the command in the command block. */
    method DispatchCommand(cdb: CommandBlock, input: seq<byte>) returns (ok: bool, output: seq<byte>)
      requires Valid() && (cdb[0] == WRITE_10 ==> |input| == 512 * BlockCount(cdb))
      modifies this, disk.dev.flash, disk.dev.buffer, disk.dev.eeprom, disk.dir
      ensures Reply(Value(), ok, output) == Dispatch(old(Value()), cdb, input)
    {
      hide ReadWrite10, BlockCount;
      var opcode := cdb[0];
      ok, output := true, [];
      if opcode == INQUIRY {
        if cdb[1] % 4 != 0 || cdb[2] != 0 {
          sense := InvalidField;
          return false, [];
        }
        residue := Sub32(residue, Min(SwapEndian(2, LittleEndian(cdb[3..5])) % 0x1_0000, 36));
      } else if opcode == REQUEST_SENSE {
        residue := Sub32(residue, Min(cdb[4], 18));
      } else if opcode == READ_CAPACITY_10 {
        residue := Sub32(residue, 8);
      } else if opcode == WRITE_10 {
        ok, output := CommandReadWrite10(cdb, false, input);
      } else if opcode == READ_10 {
        ok, output := CommandReadWrite10(cdb, true, input);
      } else if opcode == MODE_SENSE_6 {
        residue := Sub32(residue, 4);
      } else if opcode == START_STOP_UNIT {
        runBootloader := cdb[4] % 4 != 2;
        residue := 0;
      } else if opcode in {SEND_DIAGNOSTIC, TEST_UNIT_READY, PREVENT_ALLOW_MEDIUM_REMOVAL, VERIFY_10} {
        residue := 0;
      } else {
        sense := InvalidCommand;
        ok := false;
      }
    }

    method DecodeSCSICommand(cdb: CommandBlock, input: seq<byte>) returns (ok: bool, output: seq<byte>)
      requires Valid() && (cdb[0] == WRITE_10 ==> |input| == 512 * BlockCount(cdb))
      modifies this, disk.dev.flash, disk.dev.buffer, disk.dev.eeprom, disk.dir
      ensures Reply(Value(), ok, output) == Decode(old(Value()), cdb, input)
    {
      hide Dispatch;
      ok, output := DispatchCommand(cdb, input);
      if ok {
        sense := Good;
      }
    }
  }
}
