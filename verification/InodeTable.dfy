/**
 Reading an ext2 inode table into memory: `create_inode_table` of kernel/fs/ext2.c. The disk is
 a pure map from byte addresses to bytes; an inode is its 128 bytes.
 */
module InodeTable {
  import opened Arithmetic

  const INODE_SIZE := 128
  const SECTOR := 512
  const TWO_32 := 0x1_0000_0000

  type Disk = int -> int
  type Inode = seq<int>

  /** The superblock and group descriptor fields the driver keeps. */
  datatype Volume = Volume(blockSize: int, inodesPerGroup: int, inodeTable: int)

  /** `block_size` is 1024 shifted left, in 16 bits; the other two have 32. */
  predicate Typed(v: Volume) {
    && 0 <= v.blockSize < 0x1_0000 && v.blockSize % SECTOR == 0
    && 0 <= v.inodesPerGroup < TWO_32 && 0 <= v.inodeTable < TWO_32
  }

  function PerBlock(v: Volume): (n: int) { v.blockSize / INODE_SIZE }

  function Blocks(v: Volume): (n: int)
    requires 0 < PerBlock(v)
  {
    v.inodesPerGroup / PerBlock(v) + if v.inodesPerGroup % PerBlock(v) != 0 then 1 else 0
  }

  /** `(bg_inode_table + i) * BLOCK`, in 32-bit arithmetic. */
  function Sector(v: Volume, i: int): (sector: int) {
    (v.inodeTable + i) % TWO_32 * (v.blockSize / SECTOR) % TWO_32
  }

  /** The inode whose first byte is at `at`. */
  function InodeAt(disk: Disk, at: int): (inode: Inode) {
    seq(INODE_SIZE, b => disk(at + b))
  }

  /** `ahci_read_byte` of whole inodes from the start of a block. */
  method ReadInodes(disk: Disk, sector: int, n: nat) returns (inodes: seq<Inode>)
    ensures |inodes| == n && forall j | 0 <= j < n :: inodes[j] == InodeAt(disk, SECTOR * sector + INODE_SIZE * j)
  {
    inodes := [];
    for j := 0 to n
      invariant |inodes| == j
      invariant forall j' | 0 <= j' < j :: inodes[j'] == InodeAt(disk, SECTOR * sector + INODE_SIZE * j')
    {
      var inode := [];
      for b := 0 to INODE_SIZE
        invariant |inode| == b && forall b' | 0 <= b' < b :: inode[b'] == disk(SECTOR * sector + INODE_SIZE * j + b')
      {
        inode := inode + [disk(SECTOR * sector + INODE_SIZE * j + b)];
      }
      inodes := inodes + [inode];
    }
  }

  /** What belongs in slot `k`: the inode at its place in its block. */
  function SlotInode(disk: Disk, v: Volume, k: int): (inode: Inode)
    requires 0 < PerBlock(v)
  {
    InodeAt(disk, SECTOR * Sector(v, k / PerBlock(v)) + INODE_SIZE * (k % PerBlock(v)))
  }

  /** The index the inner loop writes to identifies the block and the place in it. */
  lemma SlotIndex(per: int, i: int, j: int)
    requires 0 <= j < per && 0 <= i
    ensures i + j + (per - 1) * i == i * per + j
    ensures (i * per + j) / per == i && (i * per + j) % per == j
  {
    QuotientIs(i * per + j, per, i, j);
    assert (per - 1) * i == i * per - i;
  }

  /** What the inner loop stores is what belongs there, and rows of the table do not overlap. */
  lemma RowIsSlots(disk: Disk, v: Volume, i: int, j: int)
    requires 0 <= j < PerBlock(v) && 0 <= i
    ensures i + j + (PerBlock(v) - 1) * i == i * PerBlock(v) + j
    ensures SlotInode(disk, v, i * PerBlock(v) + j) == InodeAt(disk, SECTOR * Sector(v, i) + INODE_SIZE * j)
  {
    SlotIndex(PerBlock(v), i, j);
  }

  lemma RowFits(i: int, rows: int, per: int)
    requires 0 <= i < rows && 0 <= per
    ensures 0 <= i * per && (i + 1) * per == i * per + per && i * per + per <= rows * per
  {
    assert rows * per - i * per == (rows - i) * per;
    TimesAtLeast(rows - i, per);
  }

  /** One turn of the outer loop: reads block `i` of the table and stores its inodes. */
  method ReadBlock(disk: Disk, v: Volume, i: nat, table: array<Inode>)
    requires 0 < PerBlock(v) && 0 <= i * PerBlock(v) && i * PerBlock(v) + PerBlock(v) <= table.Length
    modifies table
    ensures forall k | i * PerBlock(v) <= k < i * PerBlock(v) + PerBlock(v) :: table[k] == SlotInode(disk, v, k)
    ensures forall k | 0 <= k < table.Length && !(i * PerBlock(v) <= k < i * PerBlock(v) + PerBlock(v)) ::
      table[k] == old(table[k])
  {
    var per := PerBlock(v);
    ghost var row := i * per;
    var inodes := ReadInodes(disk, Sector(v, i), per);
    for j := 0 to per
      invariant forall k | row <= k < row + j :: table[k] == SlotInode(disk, v, k)
      invariant forall k | 0 <= k < table.Length && !(row <= k < row + j) :: table[k] == old(table[k])
    {
      RowIsSlots(disk, v, i, j);
      table[i + j + (per - 1) * i] := inodes[j];
    }
  }

  /** Halts on a zero block size; otherwise fills every slot of the table once. */
  method CreateInodeTable(disk: Disk, v: Volume) returns (halted: bool, table: array?<Inode>)
    requires Typed(v)
    ensures halted <==> v.blockSize == 0
    ensures !halted ==> table != null && table.Length == Blocks(v) * PerBlock(v)
    ensures !halted ==> forall k | 0 <= k < table.Length :: table[k] == SlotInode(disk, v, k)
  {
    var per := v.blockSize / INODE_SIZE;
    if v.blockSize == 0 {
      return true, null;
    }
    var nblock := v.inodesPerGroup / per;
    if v.inodesPerGroup % per != 0 {
      nblock := nblock + 1;
    }
    assert 0 <= nblock * per;
    var len := nblock * per;
    table := new Inode[len](_ => []);
    for i := 0 to nblock
      invariant 0 <= i * per <= len
      invariant forall k | 0 <= k < i * per :: table[k] == SlotInode(disk, v, k)
    {
      RowFits(i, nblock, per);
      ReadBlock(disk, v, i, table);
    }
    return false, table;
  }

  /** The table has room for every inode of the group, and less than one block to spare. */
  lemma TableHoldsGroup(v: Volume)
    requires Typed(v) && 0 < v.blockSize
    ensures v.inodesPerGroup <= Blocks(v) * PerBlock(v) < v.inodesPerGroup + PerBlock(v)
  {
    var per := PerBlock(v);
    assert v.inodesPerGroup == per * (v.inodesPerGroup / per) + v.inodesPerGroup % per;
    assert per * (v.inodesPerGroup / per + 1) == per * (v.inodesPerGroup / per) + per;
  }

  /**
   Slot `k` holds the inode at byte `inodeTable * blockSize + 128 * k` of the disk: the blocks
   of the table leave no gap, provided the block's sector number has 32 bits.
   */
  lemma SlotIsContiguous(disk: Disk, v: Volume, k: int)
    requires Typed(v) && 0 < v.blockSize && 0 <= k
    requires (v.inodeTable + k / PerBlock(v)) * (v.blockSize / SECTOR) < TWO_32
    ensures SlotInode(disk, v, k) == InodeAt(disk, v.inodeTable * v.blockSize + INODE_SIZE * k)
    ensures |SlotInode(disk, v, k)| == 128
    ensures forall b | 0 <= b < 128 :: SlotInode(disk, v, k)[b] == disk(v.inodeTable * v.blockSize + 128 * k + b)
  {
    var per, s := PerBlock(v), v.blockSize / SECTOR;
    SectorIsExact(v, k / per);
    BlockIsFourPerSector(v);
    BytesOfSlot(v.inodeTable, k / per, s, k % per, per, v.blockSize, k);
  }

  lemma BlockIsFourPerSector(v: Volume)
    requires Typed(v)
    ensures v.blockSize == SECTOR * (v.blockSize / SECTOR) && PerBlock(v) == 4 * (v.blockSize / SECTOR)
  {
  }

  lemma BytesOfSlot(table: int, i: int, s: int, j: int, per: int, blockSize: int, k: int)
    requires per == 4 * s && blockSize == SECTOR * s && k == per * i + j
    ensures SECTOR * ((table + i) * s) + INODE_SIZE * j == table * blockSize + INODE_SIZE * k
  {
    assert (table + i) * s == table * s + i * s;
    assert table * (SECTOR * s) == SECTOR * (table * s);
    assert 4 * s * i == 4 * (i * s);
  }

  /** The sector number is the intended one exactly when that has 32 bits. */
  lemma SectorIsExact(v: Volume, i: int)
    requires Typed(v) && 0 < v.blockSize && 0 <= i
    ensures Sector(v, i) == (v.inodeTable + i) * (v.blockSize / SECTOR)
      <==> (v.inodeTable + i) * (v.blockSize / SECTOR) < TWO_32
  {
    var block, s := v.inodeTable + i, v.blockSize / SECTOR;
    TimesAtLeast(s, block);
    TruncationIsExact(block, s);
  }

  lemma TruncationIsExact(block: int, s: int)
    requires 0 <= block <= s * block
    ensures block % TWO_32 * s % TWO_32 == block * s <==> block * s < TWO_32
  {
    if block * s < TWO_32 {
      assert block % TWO_32 == block;
    }
  }
}
