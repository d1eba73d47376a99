/** Whatever the directory says, the made-up disk behaves as a plain array of sectors. */
module VirtualFatRefinement {
  import opened Chips
  import opened Programming
  import opened FatTable
  import opened VirtualFat

  /** The blocks that keep what is written to them. */
  predicate Stores(d: Disk, b: word)
    requires d.Valid()
  {
    b >= DATA_START_BLOCK && (InFlash(d, b) || InEeprom(d, b))
  }

  lemma SpliceSlice(s: seq<byte>, at: nat, d: seq<byte>, from: nat)
    requires at + |d| <= |s| && from + |d| <= |s|
    requires from == at || from + |d| <= at || at + |d| <= from
    ensures Splice(s, at, d)[from..from + |d|] == if from == at then d else s[from..from + |d|]
  {
  }

  /** Distinct blocks of a file do not overlap. */
  lemma BlocksApart(start: word, b: word, q: word)
    requires start <= b && start <= q
    ensures b == q || 512 * (b - start) + 512 <= 512 * (q - start) || 512 * (q - start) + 512 <= 512 * (b - start)
  {
  }

  lemma FlashWriteRead(d: Disk, b: word, data: Sector, q: word)
    requires d.Valid()
    ensures var r := WriteFlashBlock(d, b, data);
            DataSector(r, q) == if q == b && InFlash(d, b) && !InEeprom(d, b) then data else DataSector(d, q)
  {
    hide Splice, StartBlock, Zeros;
    if InFlash(d, b) && InFlash(d, q) {
      var start := StartBlock(d.FlashCluster());
      BlocksApart(start, b, q);
      SpliceSlice(d.chip.flash, FlashOffset(d, b), data, FlashOffset(d, q));
    }
  }

  lemma EepromWriteRead(d: Disk, b: word, data: Sector, q: word)
    requires d.Valid()
    ensures var r := WriteEepromBlock(d, b, data);
            DataSector(r, q) == if q == b && InEeprom(d, b) then data else DataSector(d, q)
  {
    hide Splice, StartBlock, Zeros;
    if InEeprom(d, b) && InEeprom(d, q) {
      var start := StartBlock(d.EepromCluster());
      BlocksApart(start, b, q);
      SpliceSlice(d.chip.eeprom, EepromOffset(d, b), data, EepromOffset(d, q));
    }
  }

  /** A block outside the directory block reads back what was written exactly if it stores, and no
      write to such a block shows in any other block - for every directory, also one whose files
      overlap, wrap around or lie over the reserved blocks. */
  lemma WriteRead(d: Disk, b: word, data: Sector, q: word)
    requires d.Valid() && b != ROOT_BLOCK
    ensures ReadSector(WriteSector(d, b, data), q) == if q == b && Stores(d, b) then data else ReadSector(d, q)
  {
    hide DataSector, InFlash, InEeprom, BootSector, TableSector, WriteFlashBlock, WriteEepromBlock, Zeros;
    if b > ROOT_BLOCK {
      var f := WriteFlashBlock(d, b, data);
      FlashWriteRead(d, b, data, q);
      EepromWriteRead(f, b, data, q);
      SameDirectory(d, f, b);
      SameDirectory(f, WriteEepromBlock(f, b, data), b);
    }
  }

  lemma SameDirectory(d: Disk, r: Disk, b: word)
    requires d.Valid() && r.Valid() && r == d.(chip := r.chip)
    ensures MediaBlocks(r) == MediaBlocks(d) && TableSector(r) == TableSector(d)
    ensures InFlash(r, b) == InFlash(d, b) && InEeprom(r, b) == InEeprom(d, b)
  {
    hide MakeTable;
  }

  /** Programming stays inside the flash file, for every directory and every block. */
  lemma FlashBound(d: Disk, b: word, data: Sector)
    requires d.Valid()
    ensures var r := WriteSector(d, b, data);
            r.chip.flash[512 * d.flashSectors..] == d.chip.flash[512 * d.flashSectors..]
  {
    hide StartBlock;
  }

  /** The memory when the loop that writes a block to flash is about to load the word at `k`. */
  function AtWord(d: Disk, b: word, data: Sector, k: nat): (e: Chip)
    requires d.Valid() && InFlash(d, b) && k < 512 && k % 2 == 0
    ensures e.Valid() && e.part == d.chip.part && FlashOffset(d, b) + k < |e.flash|
  {
    OffsetAligned(d, b);
    Loading(d.chip, FlashOffset(d, b), data[..k])
  }

  /** Before each word of a block is loaded, and so before each commit, the page it belongs to is blank
      in flash and inside the file, for every directory. */
  lemma CommittedErased(d: Disk, b: word, data: Sector, k: nat)
    requires d.Valid() && InFlash(d, b) && k < 512 && k % 2 == 0
    ensures var part, e, a := d.chip.part, AtWord(d, b, data, k), FlashOffset(d, b) + k;
            && part.Base(a) + part.pageSize <= 512 * d.flashSectors <= |e.flash|
            && e.flash[part.Base(a)..part.Base(a) + part.pageSize] == Blanks(part.pageSize)
  {
    hide Loading, Part.Offset, InFlash, FlashOffset, Part.Base, Part.Valid, StartBlock, Blanks;
    var part, at, end := d.chip.part, FlashOffset(d, b), 512 * d.flashSectors;
    assert part.Aligned(at) && at % 2 == 0 && part.Aligned(end) && end <= part.flashSize by {
      OffsetAligned(d, b);
      BlocksAligned(part, d.flashSectors);
    }
    part.BaseBelow(at + k, end);
    StreamedErased(d.chip, at, data[..k]);
  }

  lemma OffsetAligned(d: Disk, b: word)
    requires d.Valid() && InFlash(d, b)
    ensures d.chip.part.Aligned(FlashOffset(d, b)) && FlashOffset(d, b) % 2 == 0
    ensures 512 * d.flashSectors <= d.chip.part.flashSize
  {
    hide Part.Offset, StartBlock;
    BlocksAligned(d.chip.part, b - StartBlock(d.FlashCluster()));
  }

  // Sequences of operations

  datatype Op = Read(block: word) | Write(block: word, data: Sector)

  /** Directory writes keep the files where they are. */
  ghost predicate KeepsFiles(d: Disk, op: Op)
    requires d.Valid()
  {
    op.Write? && op.block == ROOT_BLOCK ==>
      && Word(op.data[90], op.data[91]) == d.FlashCluster()
      && Word(op.data[154], op.data[155]) == d.EepromCluster()
  }

  function Step(d: Disk, op: Op): (r: Disk)
    requires d.Valid()
    ensures r.Valid()
  {
    if op.Read? then d else WriteSector(d, op.block, op.data)
  }

  /** What the reads of a sequence of operations return. */
  function Outputs(d: Disk, ops: seq<Op>): seq<Sector>
    requires d.Valid()
    decreases |ops|
  {
    if ops == [] then []
    else (if ops[0].Read? then [ReadSector(d, ops[0].block)] else []) + Outputs(Step(d, ops[0]), ops[1..])
  }

  /** The array of sectors that the host sees. */
  function View(d: Disk): (v: seq<Sector>)
    requires d.Valid()
    ensures |v| == 0x1_0000
    ensures forall b :: 0 <= b < 0x1_0000 ==> v[b] == ReadSector(d, b)
  {
    seq<Sector>(0x1_0000, b requires 0 <= b < 0x1_0000 => ReadSector(d, b))
  }

  /** The same operation on a plain array of sectors. */
  function PlainStep(d: Disk, v: seq<Sector>, op: Op): (r: seq<Sector>)
    requires d.Valid() && |v| == 0x1_0000
    ensures |r| == 0x1_0000
  {
    if op.Read? then v
    else if Stores(d, op.block) then v[op.block := op.data]
    else if op.block == ROOT_BLOCK
    then v[ROOT_BLOCK := op.data[..DIRECTORY_SIZE] + Zeros(SECTOR_SIZE - DIRECTORY_SIZE)]
    else v
  }

  function PlainOutputs(d: Disk, v: seq<Sector>, ops: seq<Op>): seq<Sector>
    requires d.Valid() && |v| == 0x1_0000
    decreases |ops|
  {
    if ops == [] then []
    else (if ops[0].Read? then [v[ops[0].block]] else []) + PlainOutputs(d, PlainStep(d, v, ops[0]), ops[1..])
  }

  /** The two disks have their files in the same places. */
  ghost predicate SamePlaces(d: Disk, e: Disk) {
    && d.Valid() && e.Valid()
    && d.flashSectors == e.flashSectors && d.eepromSectors == e.eepromSectors
    && d.FlashCluster() == e.FlashCluster() && d.EepromCluster() == e.EepromCluster()
  }

  lemma RootWriteRead(d: Disk, data: Sector, q: word)
    requires d.Valid() && KeepsFiles(d, Write(ROOT_BLOCK, data))
    ensures ReadSector(WriteSector(d, ROOT_BLOCK, data), q)
            == if q == ROOT_BLOCK then data[..DIRECTORY_SIZE] + Zeros(SECTOR_SIZE - DIRECTORY_SIZE) else ReadSector(d, q)
    ensures SamePlaces(WriteSector(d, ROOT_BLOCK, data), d)
  {
    hide MakeTable, Zeros;
    var r := WriteSector(d, ROOT_BLOCK, data);
    assert r.FlashCluster() == d.FlashCluster() && r.EepromCluster() == d.EepromCluster();
    assert TableSector(r) == TableSector(d) && MediaBlocks(r) == MediaBlocks(d);
    hide BootSector, TableSector;
  }

  lemma StepView(d0: Disk, d: Disk, op: Op)
    requires SamePlaces(d, d0) && KeepsFiles(d0, op)
    ensures View(Step(d, op)) == PlainStep(d0, View(d), op)
    ensures SamePlaces(Step(d, op), d0)
  {
    hide ReadSector, InFile, WriteFlashBlock, WriteEepromBlock, Zeros;
    if op.Write? {
      if op.block == ROOT_BLOCK {
        forall q: word
          ensures View(Step(d, op))[q] == PlainStep(d0, View(d), op)[q]
        {
          RootWriteRead(d, op.data, q);
        }
        RootWriteRead(d, op.data, ROOT_BLOCK);
      } else {
        assert Stores(d, op.block) == Stores(d0, op.block);
        forall q: word
          ensures View(Step(d, op))[q] == PlainStep(d0, View(d), op)[q]
        {
          WriteRead(d, op.block, op.data, q);
        }
      }
    }
  }

  /** Every sequence of block reads and writes that leaves the files where they are returns what a
      plain array of sectors would, starting from what the host can see. */
  lemma {:induction false} DiskIsPlain(d0: Disk, d: Disk, ops: seq<Op>)
    requires SamePlaces(d, d0) && forall i :: 0 <= i < |ops| ==> KeepsFiles(d0, ops[i])
    ensures Outputs(d, ops) == PlainOutputs(d0, View(d), ops)
    decreases |ops|
  {
    if ops != [] {
      StepView(d0, d, ops[0]);
      hide Step, PlainStep, KeepsFiles, ReadSector;
      DiskIsPlain(d0, Step(d, ops[0]), ops[1..]);
    }
  }
}
