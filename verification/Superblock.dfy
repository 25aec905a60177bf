/// The superblock's layout checks: src/superblock.rs.
module Superblock {
  import opened Bytes
  import opened Image
  import opened Metadata

  const SUPERBLOCK_SIZE := 96
  const MIN_INODE_SIZE := 16

  /// The start an absent optional table carries.
  const NO_TABLE := U64_MAX

  /// The block sizes `parse` lets through: 4 KiB to 1 MiB.
  type BlockLog = n: nat | 12 <= n <= 20 witness 12

  datatype Superblock = Superblock(
    inodeCount: u32,
    blockLog: BlockLog,
    fragmentCount: u32,
    idCount: u16,
    rootInodeRef: u64,
    bytesUsed: u64,
    idTable: u64,
    xattrIdTable: u64,
    inodeTable: u64,
    directoryTable: u64,
    fragmentTable: u64,
    exportTable: u64)

  function Pow2(n: nat): (p: nat)
    ensures p > 0
  {
    if n == 0 then 1 else 2 * Pow2(n - 1)
  }

  /// The block size, which `parse` has checked against its logarithm.
  function BlockSizeOf(sb: Superblock): (n: nat)
    ensures n > 0
  {
    Pow2(sb.blockLog)
  }

  lemma {:induction false} Pow2Grows(m: nat, n: nat)
    requires m <= n
    ensures Pow2(m) <= Pow2(n)
  {
    if m < n {
      Pow2Grows(m, n - 1);
    }
  }

  lemma BlockSizeBounded(sb: Superblock)
    ensures BlockSizeOf(sb) <= 0x10_0000
  {
    Pow2Grows(sb.blockLog, 20);
    assert Pow2(5) == 32 && Pow2(10) == 32 * Pow2(5) && Pow2(15) == 32 * Pow2(10) && Pow2(20) == 32 * Pow2(15);
  }

  lemma BlockSizes(sb: Superblock)
    ensures sb.blockLog == 12 ==> BlockSizeOf(sb) == 4096
    ensures sb.blockLog == 17 ==> BlockSizeOf(sb) == 131072
    ensures sb.blockLog == 20 ==> BlockSizeOf(sb) == 1048576
  {
    assert Pow2(6) == 64 && Pow2(12) == 64 * Pow2(6) && Pow2(16) == 16 * Pow2(12) && Pow2(20) == 16 * Pow2(16);
  }

  /// The smallest listed start past `from`, leaving absent tables out.
  function NearestAfter(from: u64, starts: seq<u64>): (end: u64) {
    if starts == [] then U64_MAX
    else
      var rest := NearestAfter(from, starts[1..]);
      if starts[0] != NO_TABLE && starts[0] > from then Min(starts[0], rest) else rest
  }

  lemma {:induction false} NearestAfterIsNearest(from: u64, starts: seq<u64>)
    ensures var end := NearestAfter(from, starts);
            && (forall t :: t in starts && t > from ==> end <= t)
            && (end == U64_MAX || (end in starts && end > from))
  {
    if starts != [] {
      NearestAfterIsNearest(from, starts[1..]);
      assert starts == [starts[0]] + starts[1..];
    }
  }

  function InodeTableEnd(sb: Superblock): u64 {
    NearestAfter(
      sb.inodeTable,
      [sb.directoryTable, sb.fragmentTable, sb.exportTable, sb.idTable, sb.xattrIdTable, sb.bytesUsed])
  }

  function DirectoryTableEnd(sb: Superblock): u64 {
    NearestAfter(sb.directoryTable, [sb.fragmentTable, sb.exportTable, sb.idTable, sb.xattrIdTable, sb.bytesUsed])
  }

  // ----- what the checks amount to -----

  predicate InImage(sb: Superblock, t: u64) { SUPERBLOCK_SIZE <= t < sb.bytesUsed }

  /// The optional and required tables after the directory table, in the order mksquashfs
  /// writes them.
  function LaterTables(sb: Superblock): seq<u64> { [sb.fragmentTable, sb.exportTable, sb.idTable, sb.xattrIdTable] }

  /// Present tables never start before an earlier one.
  predicate Ordered(from: u64, ts: seq<u64>) {
    && (forall i :: 0 <= i < |ts| && ts[i] != NO_TABLE ==> from <= ts[i])
    && (forall i, j :: 0 <= i < j < |ts| && ts[i] != NO_TABLE && ts[j] != NO_TABLE ==> ts[i] <= ts[j])
  }

  /// The required tables, and those optional ones that are present, are inside the image.
  predicate TablesInside(sb: Superblock) {
    && InImage(sb, sb.inodeTable) && InImage(sb, sb.directoryTable) && InImage(sb, sb.idTable)
    && (sb.fragmentTable != NO_TABLE ==> InImage(sb, sb.fragmentTable))
    && (sb.exportTable != NO_TABLE ==> InImage(sb, sb.exportTable))
    && (sb.xattrIdTable != NO_TABLE ==> InImage(sb, sb.xattrIdTable))
  }

  predicate TablesOrdered(sb: Superblock) {
    sb.inodeTable < sb.directoryTable && Ordered(sb.directoryTable, LaterTables(sb))
  }

  predicate RootInside(sb: Superblock) { sb.inodeTable + sb.rootInodeRef / 0x1_0000 < sb.directoryTable }

  predicate LaidOut(sb: Superblock, deviceSize: u64) {
    sb.bytesUsed <= deviceSize && TablesInside(sb) && TablesOrdered(sb) && RootInside(sb)
  }

  /// The most inodes the bound lets a table of the given extent claim.
  function Room(extent: nat): nat { extent / 3 * (METADATA_SIZE / MIN_INODE_SIZE) }

  /// The loop that carries the start of the last table seen.
  method CheckOrder(from: u64, tables: seq<u64>) returns (ordered: bool)
    ensures ordered <==> Ordered(from, tables)
  {
    var prev := from;
    for i := 0 to |tables|
      invariant from <= prev
      invariant forall j :: 0 <= j < i && tables[j] != NO_TABLE ==> from <= tables[j] <= prev
      invariant prev == from || exists j :: 0 <= j < i && tables[j] == prev && prev != NO_TABLE
      invariant forall j, k ::
                  0 <= j < k < i && tables[j] != NO_TABLE && tables[k] != NO_TABLE ==> tables[j] <= tables[k]
    {
      if tables[i] != NO_TABLE {
        if tables[i] < prev {
          return false;
        }
        prev := tables[i];
      }
    }
    return true;
  }

  /// `validate_against_device`.
  method Validate(sb: Superblock, deviceSize: u64) returns (error: Option<SuperblockFault>)
    ensures error.None? <==> LaidOut(sb, deviceSize) && sb.inodeCount <= Room(sb.directoryTable - sb.inodeTable)
    ensures error == Some(BytesUsedPastDevice) <==> sb.bytesUsed > deviceSize
    ensures error == Some(TableOutsideImage) <==> sb.bytesUsed <= deviceSize && !TablesInside(sb)
    ensures error == Some(TablesOutOfOrder) <==> sb.bytesUsed <= deviceSize && TablesInside(sb) && !TablesOrdered(sb)
    ensures error == Some(RootOutsideInodeTable) <==>
            sb.bytesUsed <= deviceSize && TablesInside(sb) && TablesOrdered(sb) && !RootInside(sb)
    ensures error == Some(TooManyInodes) <==>
            LaidOut(sb, deviceSize) && sb.inodeCount > Room(sb.directoryTable - sb.inodeTable)
  {
    if sb.bytesUsed > deviceSize {
      return Some(BytesUsedPastDevice);
    }
    if !InImage(sb, sb.inodeTable) || !InImage(sb, sb.directoryTable) || !InImage(sb, sb.idTable) {
      return Some(TableOutsideImage);
    }
    var optional := [sb.fragmentTable, sb.exportTable, sb.xattrIdTable];
    for i := 0 to 3
      invariant forall j :: 0 <= j < i && optional[j] != NO_TABLE ==> InImage(sb, optional[j])
    {
      if optional[i] != NO_TABLE && !InImage(sb, optional[i]) {
        assert i == 0 || i == 1 || i == 2;
        return Some(TableOutsideImage);
      }
    }
    assert optional[0] == sb.fragmentTable && optional[1] == sb.exportTable && optional[2] == sb.xattrIdTable;
    if sb.inodeTable >= sb.directoryTable {
      return Some(TablesOutOfOrder);
    }
    var ordered := CheckOrder(sb.directoryTable, LaterTables(sb));
    if !ordered {
      return Some(TablesOutOfOrder);
    }
    if sb.inodeTable + sb.rootInodeRef / 0x1_0000 >= sb.directoryTable {
      return Some(RootOutsideInodeTable);
    }
    EndsAtDirectoryTable(sb, deviceSize);
    var extent := InodeTableEnd(sb) - sb.inodeTable;
    if sb.inodeCount > Min(extent / 3 * (METADATA_SIZE / MIN_INODE_SIZE), U64_MAX) {
      return Some(TooManyInodes);
    }
    return None;
  }

  /// Once the layout is checked, the inode table ends where the directory table starts.
  lemma EndsAtDirectoryTable(sb: Superblock, deviceSize: u64)
    requires LaidOut(sb, deviceSize)
    ensures InodeTableEnd(sb) == sb.directoryTable
  {
    var starts := [sb.directoryTable, sb.fragmentTable, sb.exportTable, sb.idTable, sb.xattrIdTable, sb.bytesUsed];
    NearestAfterIsNearest(sb.inodeTable, starts);
    assert starts[0] == sb.directoryTable && sb.directoryTable in starts;
    var later := LaterTables(sb);
    assert later[0] == sb.fragmentTable && later[1] == sb.exportTable && later[2] == sb.idTable
        && later[3] == sb.xattrIdTable;
  }

  /// Field by field, what is accepted: 96 bytes of superblock, then the inode table, the
  /// directory table, the fragment and export tables if present, the id table and the
  /// attribute table if present, in that order and all before the image's end; the root
  /// inode inside the inode table; and no more than 512 inodes for every three bytes of it.
  lemma AcceptedByField(sb: Superblock, deviceSize: u64)
    ensures LaidOut(sb, deviceSize) && sb.inodeCount <= Room(sb.directoryTable - sb.inodeTable) <==>
            && sb.bytesUsed <= deviceSize
            && 96 <= sb.inodeTable < sb.directoryTable <= sb.idTable < sb.bytesUsed
            && (sb.fragmentTable != 0xFFFF_FFFF_FFFF_FFFF ==> sb.directoryTable <= sb.fragmentTable <= sb.idTable)
            && (sb.exportTable != 0xFFFF_FFFF_FFFF_FFFF ==> sb.directoryTable <= sb.exportTable <= sb.idTable)
            && (sb.fragmentTable != 0xFFFF_FFFF_FFFF_FFFF && sb.exportTable != 0xFFFF_FFFF_FFFF_FFFF
                ==> sb.fragmentTable <= sb.exportTable)
            && (sb.xattrIdTable != 0xFFFF_FFFF_FFFF_FFFF ==> sb.idTable <= sb.xattrIdTable < sb.bytesUsed)
            && sb.rootInodeRef / 0x1_0000 < sb.directoryTable - sb.inodeTable
            && sb.inodeCount <= (sb.directoryTable - sb.inodeTable) / 3 * 512
  {
    var later := LaterTables(sb);
    assert later[0] == sb.fragmentTable && later[1] == sb.exportTable && later[2] == sb.idTable
        && later[3] == sb.xattrIdTable;
  }

  /// The directory table's bound, by field: the nearest table start past it or the image's
  /// end, whichever comes first.
  lemma DirectoryEndByField(sb: Superblock)
    ensures var end, from := DirectoryTableEnd(sb), sb.directoryTable;
            && (sb.bytesUsed > from ==> end <= sb.bytesUsed)
            && (sb.fragmentTable > from ==> end <= sb.fragmentTable)
            && (sb.exportTable > from ==> end <= sb.exportTable)
            && (sb.idTable > from ==> end <= sb.idTable)
            && (sb.xattrIdTable > from ==> end <= sb.xattrIdTable)
            && (|| end == 0xFFFF_FFFF_FFFF_FFFF
                || (&& end > from
                    && (end == sb.bytesUsed || end == sb.fragmentTable || end == sb.exportTable || end == sb.idTable
                        || end == sb.xattrIdTable)))
  {
    var starts := [sb.fragmentTable, sb.exportTable, sb.idTable, sb.xattrIdTable, sb.bytesUsed];
    NearestAfterIsNearest(sb.directoryTable, starts);
    assert starts[0] in starts && starts[1] in starts && starts[2] in starts && starts[3] in starts
        && starts[4] in starts;
  }

  // ----- the inode count bound -----

  /// Metadata blocks one after the other from `at` up to exactly `end`.
  ghost predicate Chain(img: Image, at: nat, end: nat, blocks: seq<Pulled>)
    decreases |blocks|
  {
    if blocks == [] then at == end
    else Pull(img, at) == Ok(blocks[0]) && Chain(img, blocks[0].next, end, blocks[1..])
  }

  function ChainBytes(blocks: seq<Pulled>): seq<byte> {
    if blocks == [] then [] else blocks[0].bytes + ChainBytes(blocks[1..])
  }

  lemma {:induction false} ChainBounded(img: Image, at: nat, end: nat, blocks: seq<Pulled>)
    requires SoundCodec(img) && Chain(img, at, end, blocks)
    ensures 3 * |blocks| <= end - at && |ChainBytes(blocks)| <= METADATA_SIZE * |blocks|
    decreases |blocks|
  {
    if blocks != [] {
      PulledBounded(img, at);
      ChainBounded(img, blocks[0].next, end, blocks[1..]);
    }
  }

  /// The count bound refuses no count a table can really hold: whatever chain of metadata
  /// blocks fills the inode table, the inodes of at least 16 bytes in it are within it.
  lemma RealCountsPass(img: Image, sb: Superblock, deviceSize: u64, blocks: seq<Pulled>, n: nat)
    requires LaidOut(sb, deviceSize) && SoundCodec(img)
    requires Chain(img, sb.inodeTable, sb.directoryTable, blocks)
    requires MIN_INODE_SIZE * n <= |ChainBytes(blocks)|
    ensures n <= Room(sb.directoryTable - sb.inodeTable)
  {
    ChainBounded(img, sb.inodeTable, sb.directoryTable, blocks);
    EndsAtDirectoryTable(sb, deviceSize);
    assert |blocks| <= (sb.directoryTable - sb.inodeTable) / 3;
  }
}
