/** What a host sees that mounts the disk: it takes a file's first cluster from the directory,
    follows the allocation table and reads the blocks of every cluster on the way. */
module VirtualFatHost {
  import opened Chips
  import opened FatTable
  import opened VirtualFat

  /** Consecutive blocks. */
  function Blocks(d: Disk, first: nat, count: nat): (s: seq<byte>)
    requires d.Valid() && first + count <= 0x1_0000
    ensures |s| == 512 * count
    decreases count
  {
    if count == 0 then [] else ReadSector(d, first) + Blocks(d, first + 1, count - 1)
  }

  /** The bytes of the clusters that the table links from a cluster on. */
  function Follow(d: Disk, cluster: nat, limit: nat): seq<byte>
    requires d.Valid()
    decreases limit
  {
    if limit == 0 || !(2 <= cluster <= 340) then []
    else Blocks(d, 4 * cluster - 4, 4) + Follow(d, Entry(TableSector(d), cluster), limit - 1)
  }

  lemma {:induction false} BlocksConcat(d: Disk, first: nat, m: nat, n: nat)
    requires d.Valid() && first + m + n <= 0x1_0000
    ensures Blocks(d, first, m) + Blocks(d, first + m, n) == Blocks(d, first, m + n)
    decreases m
  {
    hide ReadSector;
    if m == 0 {
      assert [] + Blocks(d, first, n) == Blocks(d, first, n);
    } else {
      BlocksConcat(d, first + 1, m - 1, n);
      assert ReadSector(d, first) + Blocks(d, first + 1, m - 1) + Blocks(d, first + m, n)
          == ReadSector(d, first) + (Blocks(d, first + 1, m - 1) + Blocks(d, first + m, n));
    }
  }

  lemma {:induction false} ChainFollowed(d: Disk, cluster: nat, length: nat, limit: nat)
    requires d.Valid() && 2 <= cluster && cluster + length <= 171 && 0 < length < limit
    requires Chained(TableSector(d), cluster, length)
    ensures Follow(d, cluster, limit) == Blocks(d, 4 * cluster - 4, 4 * length)
    decreases length
  {
    hide Blocks, TableSector, Entry;
    var next := Entry(TableSector(d), cluster);
    if length > 1 {
      assert next == cluster + 1;
      ChainFollowed(d, cluster + 1, length - 1, limit - 1);
      BlocksConcat(d, 4 * cluster - 4, 4, 4 * (length - 1));
    } else {
      assert next == END_OF_CHAIN && Follow(d, next, limit - 1) == [];
    }
  }

  /** A block shows its piece of a memory. */
  ghost predicate Shows(d: Disk, first: nat, memory: seq<byte>, i: nat)
    requires d.Valid() && first + |memory| / 512 <= 0x1_0000
  {
    i < |memory| / 512 ==> ReadSector(d, first + i) == memory[512 * i..512 * i + 512]
  }

  lemma {:induction false} BlocksShow(d: Disk, first: nat, memory: seq<byte>, count: nat, from: nat)
    requires d.Valid() && from <= count && |memory| == 512 * count && first + count <= 0x1_0000
    requires forall i: nat :: Shows(d, first, memory, i)
    ensures Blocks(d, first + from, count - from) == memory[512 * from..]
    decreases count - from
  {
    hide ReadSector;
    if from < count {
      assert Shows(d, first, memory, from);
      BlocksShow(d, first, memory, count, from + 1);
      assert memory[512 * from..] == memory[512 * from..512 * from + 512] + memory[512 * (from + 1)..];
    }
  }

  // The volume as the host computes it from the boot block

  /** A 16-bit field of a block. */
  function FieldOf(block: Sector, at: nat): nat
    requires at + 2 <= SECTOR_SIZE
  {
    Word(block[at], block[at + 1])
  }

  /** A 32-bit field of a block. */
  function LongFieldOf(block: Sector, at: nat): nat
    requires at + 4 <= SECTOR_SIZE
  {
    FieldOf(block, at) + 0x1_0000 * FieldOf(block, at + 2)
  }

  /** First block of the root directory: behind the reserved blocks and the tables. */
  function RootStart(boot: Sector): nat {
    var tables: nat := boot[16];
    FieldOf(boot, 14) + tables * FieldOf(boot, 22)
  }

  /** First block of a cluster: behind the root directory, counted from cluster 2. */
  function ClusterStart(boot: Sector, cluster: nat): int {
    var size: nat, perCluster: nat := FieldOf(boot, 11), boot[13];
    RootStart(boot) + (if size == 0 then 0 else 32 * FieldOf(boot, 17) / size) + (cluster - 2) * perCluster
  }

  /** The boot block's geometry matches the blocks that the disk serves: tables in blocks 1 and 2, the
      directory in block 3 with the two start clusters in its entries, clusters of four blocks from
      block 4 on. */
  lemma Layout(d: Disk, cluster: nat)
    requires d.Valid()
    ensures var boot, root := ReadSector(d, BOOT_BLOCK), ReadSector(d, ROOT_BLOCK);
            && FieldOf(boot, 11) == SECTOR_SIZE && boot[13] == SECTORS_PER_CLUSTER
            && FieldOf(boot, 14) == FAT_BLOCK_1 && FieldOf(boot, 14) + FieldOf(boot, 22) == FAT_BLOCK_2
            && RootStart(boot) == ROOT_BLOCK && ClusterStart(boot, cluster) == 4 * cluster - 4
            && FieldOf(boot, 19) == MediaBlocks(d) && FieldOf(boot, 510) == 0xAA55
            && FieldOf(root, 32 * 2 + 26) == d.FlashCluster() && FieldOf(root, 32 * 4 + 26) == d.EepromCluster()
  {
    hide BootSector, MakeTable, Zeros, MediaBlocks, RootStart, ClusterStart, DataSector, TableSector;
    BootFields(MediaBlocks(d));
    WordParts(MediaBlocks(d));
    Geometry(ReadSector(d, BOOT_BLOCK), cluster);
  }

  lemma Geometry(boot: Sector, cluster: nat)
    requires boot[11] == 0 && boot[12] == 2 && boot[13] == 4 && boot[14] == 1 && boot[15] == 0 && boot[16] == 2
    requires boot[17] == 16 && boot[18] == 0 && boot[22] == 1 && boot[23] == 0
    ensures RootStart(boot) == ROOT_BLOCK && ClusterStart(boot, cluster) == 4 * cluster - 4
  {
    assert FieldOf(boot, 11) == 512 && FieldOf(boot, 14) == 1 && FieldOf(boot, 17) == 16 && FieldOf(boot, 22) == 1;
  }

  lemma BootFields(blocks: word)
    ensures var boot := BootSector(blocks);
            && boot[11] == 0 && boot[12] == 2 && boot[13] == 4 && boot[14] == 1 && boot[15] == 0 && boot[16] == 2
            && boot[17] == 16 && boot[18] == 0 && boot[19] == Lo(blocks) && boot[20] == Hi(blocks)
            && boot[21] == 0xF8 && boot[22] == 1 && boot[23] == 0 && boot[510] == 0x55 && boot[511] == 0xAA
  {
  }

  // Files

  /** A file with that many sectors starts at a data cluster and ends inside the disk. */
  predicate OnDisk(d: Disk, cluster: word, sectors: nat)
    requires d.Valid()
  {
    2 <= cluster && 4 * cluster - 4 + sectors <= MediaBlocks(d)
  }

  function Clusters(sectors: nat): nat {
    (sectors + 3) / 4
  }

  lemma ClusterCount(sectors: nat)
    requires 0 < sectors <= 256
    ensures FileClusters(512 * sectors) == Clusters(sectors) == FileClusters(512 * sectors - 1)
    ensures 0 < Clusters(sectors) <= 64 && Clusters(sectors) % 0x100 == Clusters(sectors)
    ensures 4 * Clusters(sectors) - 3 <= sectors <= 4 * Clusters(sectors)
  {
  }

  lemma OnDiskBound(d: Disk, cluster: word, sectors: nat)
    requires d.Valid() && 0 < sectors <= 256 && OnDisk(d, cluster, sectors)
    ensures cluster + Clusters(sectors) <= 171 && StartBlock(cluster) == 4 * cluster - 4
    ensures 4 * cluster - 4 + 4 * Clusters(sectors) <= 0x1_0000
  {
    ClusterCount(sectors);
    hide Clusters;
    assert d.flashSectors <= 256 && d.eepromSectors <= 8;
  }

  /** Both files on the disk, on different clusters. */
  predicate Disjoint(d: Disk)
    requires d.Valid()
  {
    var f, e := d.FlashCluster(), d.EepromCluster();
    && OnDisk(d, f, d.flashSectors) && OnDisk(d, e, d.eepromSectors)
    && (f + Clusters(d.flashSectors) <= e || e + Clusters(d.eepromSectors) <= f)
  }

  lemma TableChains(d: Disk)
    requires d.Valid() && Disjoint(d)
    ensures var f, e, n, m := d.FlashCluster(), d.EepromCluster(), Clusters(d.flashSectors), Clusters(d.eepromSectors);
            && 0 < n && f + n <= 171 && 0 < m && e + m <= 171
            && Chained(TableSector(d), e, m)
            && (Chained(TableSector(d), f, n) <==> !Damaging(f, n, e, m))
  {
    hide Clusters, FileClusters, MakeTable, MediaBlocks, Chained, OnDisk;
    ClusterCount(d.flashSectors);
    ClusterCount(d.eepromSectors);
    OnDiskBound(d, d.FlashCluster(), d.flashSectors);
    OnDiskBound(d, d.EepromCluster(), d.eepromSectors);
    assert 2 <= d.FlashCluster() && 2 <= d.EepromCluster() by { StartsAtTwo(d); }
    ChainsExactly(d.FlashCluster(), Clusters(d.flashSectors), d.EepromCluster(), Clusters(d.eepromSectors));
  }

  lemma StartsAtTwo(d: Disk)
    requires d.Valid() && Disjoint(d)
    ensures 2 <= d.FlashCluster() && 2 <= d.EepromCluster() && d.flashSectors <= 256 && d.eepromSectors <= 8
  {
  }

  lemma BlocksOfFiles(d: Disk, i: nat)
    requires d.Valid() && Disjoint(d)
    ensures var b := 4 * d.FlashCluster() - 4 + i;
            i < d.flashSectors ==>
              DATA_START_BLOCK <= b < 0x1_0000 && InFlash(d, b) && !InEeprom(d, b) && FlashOffset(d, b) == 512 * i
    ensures var b := 4 * d.EepromCluster() - 4 + i;
            i < d.eepromSectors ==> DATA_START_BLOCK <= b < 0x1_0000 && InEeprom(d, b) && EepromOffset(d, b) == 512 * i
  {
    hide Clusters, StartBlock, MediaBlocks;
    var f, e := d.FlashCluster(), d.EepromCluster();
    StartsAtTwo(d);
    ClusterCount(d.flashSectors);
    ClusterCount(d.eepromSectors);
    OnDiskBound(d, f, d.flashSectors);
    OnDiskBound(d, e, d.eepromSectors);
    if i < d.flashSectors {
      InFileMeans(4 * f - 4 + i, StartBlock(f), d.flashSectors);
      InFileMeans(4 * f - 4 + i, StartBlock(e), d.eepromSectors);
    }
    if i < d.eepromSectors {
      InFileMeans(4 * e - 4 + i, StartBlock(e), d.eepromSectors);
    }
  }

  /** The entries of the two files in the root directory. */
  const FLASH_ENTRY: nat := 2
  const EEPROM_ENTRY: nat := 4

  /** What opening a file comes to: its bytes, or a chain that is too short for its size. */
  datatype Opened = Contents(bytes: seq<byte>) | TooShort

  /** The size that the directory gives for a file. */
  function SizeOf(d: Disk, entry: nat): nat
    requires d.Valid() && entry < 16
  {
    LongFieldOf(ReadSector(d, ROOT_BLOCK), 32 * entry + 28)
  }

  /** A file as the host reads it: as many bytes as its directory entry says, from the clusters that
      follow the one in the entry. */
  function Open(d: Disk, entry: nat, limit: nat): Opened
    requires d.Valid() && entry < 16
  {
    var bytes := Follow(d, FieldOf(ReadSector(d, ROOT_BLOCK), 32 * entry + 26), limit);
    var size := SizeOf(d, entry);
    if size <= |bytes| then Contents(bytes[..size]) else TooShort
  }

  lemma Opens(d: Disk, entry: nat, limit: nat, memory: seq<byte>)
    requires d.Valid() && entry < 16
    requires memory <= Follow(d, FieldOf(ReadSector(d, ROOT_BLOCK), 32 * entry + 26), limit)
    ensures var size, file := SizeOf(d, entry), Open(d, entry, limit);
            && (size <= |memory| ==> file == Contents(memory[..size]))
            && (file == Contents(memory) <==> size == |memory|)
  {
    hide Follow, ReadSector, SizeOf, FieldOf;
    var bytes := Follow(d, FieldOf(ReadSector(d, ROOT_BLOCK), 32 * entry + 26), limit);
    assert bytes[..|memory|] == memory && memory[..|memory|] == memory;
  }

  /** What the host reads as FLASH.BIN, if the table's chain for it is intact, is as much of the flash
      as the directory says, and all of the application exactly if the directory has its size. */
  lemma FlashFileRead(d: Disk, limit: nat)
    requires d.Valid() && Disjoint(d) && limit > 64
    requires !Damaging(d.FlashCluster(), Clusters(d.flashSectors), d.EepromCluster(), Clusters(d.eepromSectors))
    ensures var memory := d.chip.flash[..512 * d.flashSectors];
            var size, file := SizeOf(d, FLASH_ENTRY), Open(d, FLASH_ENTRY, limit);
            && (size <= |memory| ==> file == Contents(memory[..size]))
            && (file == Contents(memory) <==> size == |memory|)
  {
    hide Follow, ReadSector, SizeOf, FieldOf, Disjoint, Damaging, Open;
    FlashChain(d, limit);
    EntriesFound(d);
    Opens(d, FLASH_ENTRY, limit, d.chip.flash[..512 * d.flashSectors]);
  }

  lemma EntriesFound(d: Disk)
    requires d.Valid()
    ensures FieldOf(ReadSector(d, ROOT_BLOCK), 32 * FLASH_ENTRY + 26) == d.FlashCluster()
    ensures FieldOf(ReadSector(d, ROOT_BLOCK), 32 * EEPROM_ENTRY + 26) == d.EepromCluster()
  {
    hide BootSector, TableSector, DataSector, Zeros;
  }

  lemma FlashChain(d: Disk, limit: nat)
    requires d.Valid() && Disjoint(d) && limit > 64
    requires !Damaging(d.FlashCluster(), Clusters(d.flashSectors), d.EepromCluster(), Clusters(d.eepromSectors))
    ensures d.chip.flash[..512 * d.flashSectors] <= Follow(d, d.FlashCluster(), limit)
  {
    hide Follow, Blocks, Clusters, TableSector, ReadSector, Damaging, MediaBlocks;
    var f: nat, n, k := d.FlashCluster(), d.flashSectors, Clusters(d.flashSectors);
    StartsAtTwo(d);
    var memory, first: nat := d.chip.flash[..512 * n], 4 * f - 4;
    ClusterCount(n);
    OnDiskBound(d, f, n);
    TableChains(d);
    ChainFollowed(d, f, k, limit);
    forall i: nat
      ensures Shows(d, first, memory, i)
    {
      FlashSectorShown(d, i);
    }
    BlocksShow(d, first, memory, n, 0);
    BlocksConcat(d, first, n, 4 * k - n);
  }

  lemma FlashSectorShown(d: Disk, i: nat)
    requires d.Valid() && Disjoint(d)
    ensures 4 * d.FlashCluster() - 4 >= 0 && 4 * d.FlashCluster() - 4 + d.flashSectors <= 0x1_0000
    ensures Shows(d, 4 * d.FlashCluster() - 4, d.chip.flash[..512 * d.flashSectors], i)
  {
    hide InFlash, InEeprom, FlashOffset, Clusters, BootSector, TableSector, Zeros;
    StartsAtTwo(d);
    BlocksOfFiles(d, i);
    var memory := d.chip.flash[..512 * d.flashSectors];
    if i < d.flashSectors {
      var b: word := 4 * d.FlashCluster() - 4 + i;
      assert ReadSector(d, b) == DataSector(d, b) == d.chip.flash[512 * i..512 * i + 512];
      assert memory[512 * i..512 * i + 512] == d.chip.flash[512 * i..512 * i + 512];
    }
  }

  /** What the host reads as EEPROM.BIN is as much of the EEPROM as the directory says, and all of it
      exactly if the directory has its size. */
  lemma EepromFileRead(d: Disk, limit: nat)
    requires d.Valid() && Disjoint(d) && limit > 64
    ensures var memory, size, file := d.chip.eeprom, SizeOf(d, EEPROM_ENTRY), Open(d, EEPROM_ENTRY, limit);
            && (size <= |memory| ==> file == Contents(memory[..size]))
            && (file == Contents(memory) <==> size == |memory|)
  {
    hide Follow, ReadSector, SizeOf, FieldOf, Disjoint, Open;
    EepromChain(d, limit);
    EntriesFound(d);
    Opens(d, EEPROM_ENTRY, limit, d.chip.eeprom);
  }

  lemma EepromChain(d: Disk, limit: nat)
    requires d.Valid() && Disjoint(d) && limit > 64
    ensures d.chip.eeprom <= Follow(d, d.EepromCluster(), limit)
  {
    hide Follow, Blocks, Clusters, TableSector, ReadSector, Damaging, MediaBlocks;
    var e: nat, n, k := d.EepromCluster(), d.eepromSectors, Clusters(d.eepromSectors);
    StartsAtTwo(d);
    var memory, first: nat := d.chip.eeprom, 4 * e - 4;
    ClusterCount(n);
    OnDiskBound(d, e, n);
    TableChains(d);
    ChainFollowed(d, e, k, limit);
    forall i: nat
      ensures Shows(d, first, memory, i)
    {
      EepromSectorShown(d, i);
    }
    BlocksShow(d, first, memory, n, 0);
    BlocksConcat(d, first, n, 4 * k - n);
  }

  lemma EepromSectorShown(d: Disk, i: nat)
    requires d.Valid() && Disjoint(d)
    ensures 4 * d.EepromCluster() - 4 >= 0 && 4 * d.EepromCluster() - 4 + d.eepromSectors <= 0x1_0000
    ensures Shows(d, 4 * d.EepromCluster() - 4, d.chip.eeprom, i)
  {
    hide InFlash, InEeprom, EepromOffset, Clusters, BootSector, TableSector, Zeros;
    StartsAtTwo(d);
    BlocksOfFiles(d, i);
    if i < d.eepromSectors {
      var b: word := 4 * d.EepromCluster() - 4 + i;
      assert ReadSector(d, b) == DataSector(d, b) == d.chip.eeprom[512 * i..512 * i + 512];
    }
  }

  /** The directory that the bootloader starts with, in which the size of EEPROM.BIN is the last EEPROM
      address: the host reads all of the application, and all of the EEPROM but its last byte. */
  lemma InitialDirectory(d: Disk, limit: nat)
    requires d.Valid() && limit > 64
    requires d.FlashCluster() == 2 && d.EepromCluster() == 2 + FileClusters(512 * d.flashSectors)
    requires SizeOf(d, FLASH_ENTRY) == 512 * d.flashSectors && SizeOf(d, EEPROM_ENTRY) == d.chip.part.eepromSize - 1
    ensures Open(d, FLASH_ENTRY, limit) == Contents(d.chip.flash[..512 * d.flashSectors])
    ensures Open(d, EEPROM_ENTRY, limit) == Contents(d.chip.eeprom[..|d.chip.eeprom| - 1]) != Contents(d.chip.eeprom)
  {
    hide Open, SizeOf, Clusters, FileClusters;
    assert d.flashSectors <= 256 && d.eepromSectors <= 8;
    ClusterCount(d.flashSectors);
    ClusterCount(d.eepromSectors);
    FlashFileRead(d, limit);
    EepromFileRead(d, limit);
  }
}
