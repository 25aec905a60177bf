/// What a packed reference addresses: src/metablock.rs, and the readers that start from one.
module References {
  import opened Bytes
  import opened Image
  import opened Metadata
  import opened Cursor
  import opened Superblock
  import Modular
  import Inode
  import InodeFormat
  import FileData
  import Dir
  import Paths
  import Xattr

  // ----- a table as one flat stream -----

  /// No block of a chain is empty: the cursor refuses one that is.
  ghost predicate NonEmptyBlocks(blocks: seq<Pulled>) { forall i :: 0 <= i < |blocks| ==> blocks[i].bytes != [] }

  /// A limit that lies past every block of a chain that ends at `end`.
  ghost predicate Reaches(limit: Option<Limit>, end: nat) { limit.Some? ==> end <= limit.value.end }

  /// The stream over a chain is the chain's bytes, and then what follows the chain.
  lemma {:induction false} AheadChain(img: Image, limit: Option<Limit>, at: nat, end: nat, blocks: seq<Pulled>)
    requires Chain(img, at, end, blocks) && NonEmptyBlocks(blocks) && Reaches(limit, end)
    ensures at <= end && (blocks != [] ==> at < end)
    ensures Ahead(img, limit, at) == Prepend(ChainBytes(blocks), Ahead(img, limit, end))
    decreases |blocks|
  {
    hide Pull;
    var after := Ahead(img, limit, end);
    if blocks == [] {
      assert [] + after.bytes == after.bytes;
    } else {
      AheadChain(img, limit, blocks[0].next, end, blocks[1..]);
      PullForward(img, at);
      PrependAssociates(blocks[0].bytes, ChainBytes(blocks[1..]), after);
    }
  }

  lemma PullForward(img: Image, at: nat)
    requires Pull(img, at).Ok?
    ensures at < Pull(img, at).value.next
  {
  }

  /// A reference's block offset counts bytes on disk from the table's start to the header of
  /// a block, and its other half counts bytes inside that block: opening it is skipping, in
  /// the table's one flat stream, the bytes of the blocks before it and so many of its own.
  lemma ReferenceAddresses(img: Image, limit: Option<Limit>, table: u64, k: nat, n: nat, blocks: seq<Pulled>)
    requires Chain(img, table, table + k, blocks) && NonEmptyBlocks(blocks) && table + k <= U64_MAX
    requires limit.Some? ==> table + k < limit.value.end
    requires Pull(img, table + k).Ok?
    requires 0 < |Pull(img, table + k).value.bytes| && n <= |Pull(img, table + k).value.bytes|
    ensures var t, m := Ahead(img, limit, table), |ChainBytes(blocks)| + n;
            && m <= |t.bytes|
            && StreamAt(img, limit, MetadataRef(k, n).StartAbs(table), n) == Ok(Tail(t.bytes[m..], t.stop))
  {
    hide Pull, Ahead, ChainBytes, Chain, NonEmptyBlocks;
    AheadChain(img, limit, table, table + k, blocks);
    AheadBlock(img, limit, table + k);
    var p := Pull(img, table + k).value;
    Skipped(ChainBytes(blocks), p.bytes, Ahead(img, limit, p.next).bytes, n);
  }

  lemma AheadBlock(img: Image, limit: Option<Limit>, at: nat)
    requires Pull(img, at).Ok? && Pull(img, at).value.bytes != [] && (limit.Some? ==> at < limit.value.end)
    ensures Ahead(img, limit, at) == Prepend(Pull(img, at).value.bytes, Ahead(img, limit, Pull(img, at).value.next))
  {
    hide Pull;
  }

  lemma Skipped(before: seq<byte>, block: seq<byte>, rest: seq<byte>, n: nat)
    requires n <= |block|
    ensures (before + (block + rest))[|before| + n..] == block[n..] + rest
  {
  }

  /// The two halves of a packed reference.
  lemma PackedSplits(k: nat, n: nat)
    requires n < 0x1_0000
    ensures FromPacked(0x1_0000 * k + n) == MetadataRef(k, n)
  {
    Modular.DivUnique(0x1_0000 * k + n, 0x1_0000, k, n);
  }

  /// Byte n of the block k bytes into a table, behind `blocks`, is inside a block the
  /// table's stream goes through.
  ghost predicate Place(img: Image, limit: Option<Limit>, table: u64, blocks: seq<Pulled>, k: nat, n: nat) {
    && Chain(img, table, table + k, blocks) && NonEmptyBlocks(blocks)
    && table + k <= U64_MAX && (limit.Some? ==> table + k < limit.value.end)
    && match Pull(img, table + k)
       case Err(_) => false
       case Ok(p) => 0 < |p.bytes| && n <= |p.bytes|
  }

  /// From that place on, the table's stream is these bytes and then t.
  ghost predicate Written(img: Image, limit: Option<Limit>, table: u64, blocks: seq<Pulled>, n: nat, bytes: seq<byte>,
      t: Tail)
  {
    exists front :: |front| == |ChainBytes(blocks)| + n && Ahead(img, limit, table) == Prepend(front, Prepend(bytes, t))
  }

  lemma OpensAtWritten(img: Image, limit: Option<Limit>, table: u64, blocks: seq<Pulled>, k: nat, n: nat,
      bytes: seq<byte>, t: Tail)
    requires Place(img, limit, table, blocks, k, n) && Written(img, limit, table, blocks, n, bytes, t)
    ensures StreamAt(img, limit, MetadataRef(k, n).StartAbs(table), n) == Ok(Prepend(bytes, t))
  {
    hide Pull, StreamAt, Chain, NonEmptyBlocks, Ahead, MetadataRef.StartAbs;
    ReferenceAddresses(img, limit, table, k, n, blocks);
    var front :| |front| == |ChainBytes(blocks)| + n && Ahead(img, limit, table) == Prepend(front, Prepend(bytes, t));
    assert (front + (bytes + t.bytes))[|front|..] == bytes + t.bytes;
  }

  /// A reference to a place past the device, or past every u64, reads nothing.
  lemma PastTheDevice(img: Image, limit: Option<Limit>, table: u64, k: nat, n: nat)
    requires table + k + 2 > |img.dev|
    ensures StreamAt(img, limit, MetadataRef(k, n).StartAbs(table), n) == Err(Block)
  {
  }

  // ----- what is written at a place is read by the reference to it -----

  /// An inode written anywhere in the inode table is the one its packed reference reads.
  lemma InodesAnywhere(img: Image, sb: Superblock, blocks: seq<Pulled>, k: nat, n: nat, rec: InodeFormat.Record,
      t: Tail)
    requires InodeFormat.Legal(rec, BlockSizeOf(sb)) && n < 0x1_0000
    requires Place(img, None, sb.inodeTable, blocks, k, n)
    requires Written(img, None, sb.inodeTable, blocks, n, InodeFormat.PrintRecord(rec), t)
    ensures Inode.InodeAt(img, sb, 0x1_0000 * k + n) == Ok(InodeFormat.Meaning(rec))
  {
    hide StreamAt, Place, Written, Inode.TakeInode, BlockSizeOf, MetadataRef.StartAbs, FromPacked,
      InodeFormat.PrintRecord, InodeFormat.Meaning, Inode.BlockCount;
    PackedSplits(k, n);
    OpensAtWritten(img, None, sb.inodeTable, blocks, k, n, InodeFormat.PrintRecord(rec), t);
    InodeFormat.RecordRoundTrip(rec, BlockSizeOf(sb), t);
  }

  lemma GroupsPrinted(gs: seq<Dir.Group>)
    requires gs != [] && Dir.LegalGroups(gs)
    ensures Dir.PrintGroups(gs) != []
  {
    hide Dir.PrintEntries, Dir.LegalEntry;
  }

  /// A listing written anywhere in the directory table, before the table's end, is what a
  /// directory lists whose inode names that place and the listing's length plus three.
  lemma ListingsAnywhere(fs: FileData.Filesystem, node: Inode.Inode, blocks: seq<Pulled>, gs: seq<Dir.Group>, t: Tail)
    requires node.IsDir() && gs != [] && Dir.LegalGroups(gs)
    requires node.fileSize == |Dir.PrintGroups(gs)| + 3
    requires var limit := Some(Limit(fs.dirTableEnd, BadMetadata(PastTableEnd)));
             && Place(fs.img, limit, fs.sb.directoryTable, blocks, node.dirStartBlock, node.dirBlockOffset)
             && Written(fs.img, limit, fs.sb.directoryTable, blocks, node.dirBlockOffset, Dir.PrintGroups(gs), t)
    ensures Paths.DirListing(fs, node) == Ok(Dir.ResolveAll(gs))
  {
    hide StreamAt, Place, Written, MetadataRef.StartAbs, Dir.PrintGroups, Dir.LegalGroups, Dir.ResolveAll,
      FileData.Filesystem.BlockSize;
    var spelled := Dir.PrintGroups(gs);
    OpensAtWritten(fs.img, Some(Limit(fs.dirTableEnd, BadMetadata(PastTableEnd))), fs.sb.directoryTable, blocks,
      node.dirStartBlock, node.dirBlockOffset, spelled, t);
    GroupsPrinted(gs);
    assert Prepend(spelled, t).bytes[..|spelled|] == spelled;
    Paths.PrintedDirectoryLists(fs, node, Prepend(spelled, t), gs);
  }

  /// A set of pairs written anywhere in the attribute table is what its id reads, and the
  /// values its references name are read from wherever they are written.
  lemma SetsAnywhere(img: Image, table: Xattr.XattrTable, index: nat, blocks: seq<Pulled>, k: nat, n: nat,
      ps: seq<Xattr.RawPair>, es: seq<Xattr.XattrEntry>, t: Tail)
    requires index < |table.ids| && |ps| <= 16384 && n < 0x1_0000
    requires table.ids[index] == Xattr.XattrId(0x1_0000 * k + n, |ps|, Xattr.TotalWeight(es))
    requires Xattr.Mean(img, table, ps, es)
    requires Place(img, None, table.tableStart, blocks, k, n)
    requires Written(img, None, table.tableStart, blocks, n, Xattr.PrintPairs(ps), t)
    ensures Xattr.SetAt(img, table, index) == Ok(es)
  {
    hide StreamAt, Place, Written, MetadataRef.StartAbs, FromPacked, Xattr.Mean, Xattr.PrintPairs, Xattr.TakePairs;
    PackedSplits(k, n);
    OpensAtWritten(img, None, table.tableStart, blocks, k, n, Xattr.PrintPairs(ps), t);
    Xattr.PairsRoundTrip(img, table, ps, es, t);
  }

  /// A value written anywhere in the attribute table is what a reference to it reads.
  lemma ValuesAnywhere(img: Image, table: Xattr.XattrTable, blocks: seq<Pulled>, k: nat, n: nat, value: seq<byte>,
      t: Tail)
    requires |value| <= 65536 && n < 0x1_0000 && Place(img, None, table.tableStart, blocks, k, n)
    requires Written(img, None, table.tableStart, blocks, n, LeBytes(|value|, 4) + value, t)
    ensures Xattr.OutOfLine(img, table, 0x1_0000 * k + n) == Ok(value)
  {
    hide StreamAt, Place, Written, MetadataRef.StartAbs, FromPacked, Xattr.TakeValue;
    PackedSplits(k, n);
    OpensAtWritten(img, None, table.tableStart, blocks, k, n, LeBytes(|value|, 4) + value, t);
    Xattr.ValueFront(value, t);
  }
}
