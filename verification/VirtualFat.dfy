/** The mass-storage bootloader's disk: a FAT12 volume made up on the fly over the flash and the
    EEPROM, in blocks of 512 bytes. */
module VirtualFat {
  import opened Chips
  import opened Programming
  import opened FatTable

  const SECTORS_PER_CLUSTER: nat := 4
  const BOOT_BLOCK: word := 0
  const FAT_BLOCK_1: word := 1
  const FAT_BLOCK_2: word := 2
  const ROOT_BLOCK: word := 3
  const DATA_START_BLOCK: word := 4
  const DIRECTORY_SIZE: nat := 160

  type Sector = s: seq<byte> | |s| == SECTOR_SIZE witness Zeros(SECTOR_SIZE)

  function FileSectors(size: nat): nat {
    size / 512 + if size % 512 != 0 then 1 else 0
  }

  function FileClusters(size: nat): nat {
    size / 2048 + if size % 2048 != 0 then 1 else 0
  }

  lemma FileSectorsExact(n: nat)
    requires 0 < n
    ensures FileSectors(512 * n) == n && FileSectors(512 * n - 1) == n
  {
  }

  /** Blocks consist of whole pages. */
  lemma {:induction false} BlocksAligned(part: Part, n: nat)
    requires part.Valid()
    ensures part.Aligned(512 * n) && part.Aligned(512 * n + 512) && 512 * n % 2 == 0
  {
    hide Part.Offset;
    if n > 0 {
      BlocksAligned(part, n - 1);
    } else {
      ZeroAligned(part);
    }
    part.OffsetFrom(512 * n, 512);
    OneBlock(part);
    assert 512 * n % 2 == 0 by { DoubleEven(256 * n); }
  }

  lemma ZeroAligned(part: Part)
    requires part.Valid()
    ensures part.Aligned(0)
  {
  }

  lemma OneBlock(part: Part)
    requires part.Valid()
    ensures part.Aligned(512)
  {
    hide Part.Offset;
    ZeroAligned(part);
    var p := part.pageSize;
    part.OffsetNext(0, p);
    part.OffsetFrom(p, p);
    part.OffsetFrom(2 * p, 2 * p);
  }

  /** The disk: memory, the whole sectors of the two files, and the directory entries as the host
      last wrote them. */
  datatype Disk = Disk(chip: Chip, flashSectors: nat, eepromSectors: nat, dir: seq<byte>) {

    predicate Valid() {
      && chip.Valid() && |dir| == DIRECTORY_SIZE
      && 0 < flashSectors && 512 * flashSectors <= chip.part.bootStart
      && 0 < eepromSectors && 512 * eepromSectors == chip.part.eepromSize
    }

    /** The start clusters are fields of the third and the fifth directory entry. */
    function FlashCluster(): word
      requires Valid()
    {
      Word(dir[90], dir[91])
    }

    function EepromCluster(): word
      requires Valid()
    {
      Word(dir[154], dir[155])
    }
  }

  /** First block of a cluster, in 16-bit arithmetic. */
  function StartBlock(cluster: word): word {
    (4 * cluster + 0xFFFC) % 0x1_0000
  }

  /** The range check, whose upper bound wraps too. */
  predicate InFile(b: word, start: word, sectors: nat)
    requires 0 < sectors
  {
    start <= b <= (start + sectors - 1) % 0x1_0000
  }

  lemma InFileMeans(b: word, start: word, sectors: nat)
    requires 0 < sectors <= 0x1_0000
    ensures InFile(b, start, sectors) <==> start + sectors <= 0x1_0000 && start <= b < start + sectors
  {
  }

  predicate InFlash(d: Disk, b: word)
    requires d.Valid()
  {
    InFile(b, StartBlock(d.FlashCluster()), d.flashSectors)
  }

  predicate InEeprom(d: Disk, b: word)
    requires d.Valid()
  {
    InFile(b, StartBlock(d.EepromCluster()), d.eepromSectors)
  }

  /** Address of a block inside the flash file. */
  function FlashOffset(d: Disk, b: word): (a: nat)
    requires d.Valid() && InFlash(d, b)
    ensures a % 512 == 0 && a + 512 <= 512 * d.flashSectors
  {
    InFileMeans(b, StartBlock(d.FlashCluster()), d.flashSectors);
    512 * (b - StartBlock(d.FlashCluster()))
  }

  function EepromOffset(d: Disk, b: word): (a: nat)
    requires d.Valid() && InEeprom(d, b)
    ensures a % 512 == 0 && a + 512 <= 512 * d.eepromSectors
  {
    InFileMeans(b, StartBlock(d.EepromCluster()), d.eepromSectors);
    512 * (b - StartBlock(d.EepromCluster()))
  }

  /** Total number of blocks on the disk. */
  function MediaBlocks(d: Disk): word
    requires d.Valid()
  {
    d.flashSectors + d.eepromSectors + 32
  }

  const BOOT_HEAD: seq<byte> := [0xEB, 0x3C, 0x90, 0x6D, 0x6B, 0x64, 0x6F, 0x73, 0x66, 0x73, 0, 0, 2, 4, 1, 0, 2, 16, 0]
  const BOOT_SERIAL: seq<byte> := [0x29, 0x78, 0x56, 0x34, 0x12]
  const BOOT_LABEL: seq<byte> := [0x4C, 0x55, 0x46, 0x41, 0x20, 0x42, 0x4F, 0x4F, 0x54, 0x20, 0x20]
  const BOOT_SYSTEM: seq<byte> := [0x46, 0x41, 0x54, 0x31, 0x32, 0x20, 0x20, 0x20]

  /** The volume parameters that depend on the size of the disk. */
  function BootGeometry(blocks: word): (s: seq<byte>)
    ensures |s| == 19
  {
    [Lo(blocks), Hi(blocks), 0xF8, 1, 0, Lo(blocks % 64), Hi(blocks % 64), Lo(blocks / 64), Hi(blocks / 64)] + Zeros(10)
  }

  function BootSector(blocks: word): Sector {
    BOOT_HEAD + BootGeometry(blocks) + BOOT_SERIAL + BOOT_LABEL + BOOT_SYSTEM + Zeros(448) + [0x55, 0xAA]
  }

  function TableSector(d: Disk): Sector
    requires d.Valid()
  {
    MakeTable(d.FlashCluster(), FileClusters(512 * d.flashSectors) % 0x100,
              d.EepromCluster(), FileClusters(512 * d.eepromSectors - 1) % 0x100)
  }

  /** A block of the data area: EEPROM over flash over zeros. */
  function DataSector(d: Disk, b: word): Sector
    requires d.Valid()
  {
    if InEeprom(d, b) then d.chip.eeprom[EepromOffset(d, b)..EepromOffset(d, b) + 512]
    else if InFlash(d, b) then d.chip.flash[FlashOffset(d, b)..FlashOffset(d, b) + 512]
    else Zeros(SECTOR_SIZE)
  }

  function ReadSector(d: Disk, b: word): Sector
    requires d.Valid()
  {
    if b == BOOT_BLOCK then BootSector(MediaBlocks(d))
    else if b == FAT_BLOCK_1 || b == FAT_BLOCK_2 then TableSector(d)
    else if b == ROOT_BLOCK then d.dir + Zeros(SECTOR_SIZE - DIRECTORY_SIZE)
    else DataSector(d, b)
  }

  function WriteFlashBlock(d: Disk, b: word, data: Sector): (r: Disk)
    requires d.Valid()
    ensures r.Valid() && r == d.(chip := r.chip)
  {
    if InFlash(d, b)
    then d.(chip := d.chip.(flash := Splice(d.chip.flash, FlashOffset(d, b), data), buffer := Blanks(d.chip.part.pageSize)))
    else d
  }

  function WriteEepromBlock(d: Disk, b: word, data: Sector): (r: Disk)
    requires d.Valid()
    ensures r.Valid() && r == d.(chip := r.chip)
  {
    if InEeprom(d, b) then d.(chip := d.chip.(eeprom := Splice(d.chip.eeprom, EepromOffset(d, b), data))) else d
  }

  function WriteSector(d: Disk, b: word, data: Sector): (r: Disk)
    requires d.Valid()
    ensures r.Valid() && r == d.(chip := r.chip, dir := r.dir)
  {
    if b < ROOT_BLOCK then d
    else if b == ROOT_BLOCK then d.(dir := data[..DIRECTORY_SIZE])
    else WriteEepromBlock(WriteFlashBlock(d, b, data), b, data)
  }
}
