/// An image on which the recursive listing misses an inode: two directories carry one
/// number. The root lists `a`, which is empty, and `b`, which lists the fifo `c`.
module SharedNumber {
  import opened Bytes
  import opened Image
  import opened Metadata
  import opened Cursor
  import opened Superblock
  import opened Inode
  import opened InodeFormat
  import opened FileData
  import opened Paths
  import opened Walk
  import opened Reach
  import Listings = Dir

  // ----- its inodes -----

  /// A basic directory: its number, and the length and offset of its listing.
  function DirectoryRecord(number: nat, length: nat, offset: nat): Record {
    InodeFormat.Record([1, 0, 0, 0, 0, number], [0, 2, length + 3, offset, 1], Nothing)
  }

  function FifoRecord(number: nat): Record { InodeFormat.Record([6, 0, 0, 0, 0, number], [1], Nothing) }

  function Plain(typeId: nat, number: nat): Inode {
    Inode(typeId, 0, 0, 0, 0, number, 1, 0, 0, 0, 0, INVALID_FRAGMENT, 0, [], [], 0, INVALID_XATTR)
  }

  function Directory(number: nat, length: nat, offset: nat): Inode {
    Plain(1, number).(nlink := 2, fileSize := length + 3, dirBlockOffset := offset)
  }

  function Fifo(number: nat): Inode { Plain(6, number) }

  /// A legal record of a size that stores an inode.
  ghost predicate Stores(rec: Record, i: Inode, size: nat) {
    && (forall blockSize: nat :: blockSize > 0 ==> Legal(rec, blockSize))
    && LegalHead(rec) && Meaning(rec) == i && |PrintRecord(rec)| == size
  }

  lemma {:induction false} WordsSize(vs: seq<nat>, sizes: seq<nat>)
    requires |vs| == |sizes|
    ensures |PrintWords(vs, sizes)| == OffsetOf(sizes, |sizes|)
    decreases |vs|
  {
    if vs != [] {
      WordsSize(vs[1..], sizes[1..]);
      OffsetFromFront(sizes, |sizes|);
    }
  }

  lemma RecordSize(rec: Record, layout: seq<nat>)
    requires LegalHead(rec) && rec.tail == Nothing && layout == Layout(rec.header[0]).value
    ensures |PrintRecord(rec)| == 16 + OffsetOf(layout, |layout|)
  {
    hide PrintWords, Layout;
    WordsSize(rec.header, HEADER);
    WordsSize(rec.fields, layout);
    Offsets(HEADER);
  }

  lemma DirectoryStored(number: nat, length: nat, offset: nat)
    requires number < 256 && length < 128 && offset < 256
    ensures Stores(DirectoryRecord(number, length, offset), Directory(number, length, offset), 32)
  {
    Pow256Values();
    var rec := DirectoryRecord(number, length, offset);
    assert WordsFit(rec.header, HEADER);
    assert WordsFit(rec.fields, [4, 4, 2, 2, 4]);
    RecordSize(rec, [4, 4, 2, 2, 4]);
    Offsets([4, 4, 2, 2, 4]);
  }

  lemma FifoStored(number: nat)
    requires number < 256
    ensures Stores(FifoRecord(number), Fifo(number), 20)
  {
    Pow256Values();
    var rec := FifoRecord(number);
    assert WordsFit(rec.header, HEADER);
    assert WordsFit(rec.fields, [4]);
    RecordSize(rec, [4]);
    Offsets([4]);
  }

  /// Four records in one block read as what they store, each at its offset.
  lemma FourInodes(fs: Filesystem, block: seq<byte>, next: nat, rs: seq<Record>, stored: seq<Inode>)
    requires |rs| == |stored| == 4 && Pull(fs.img, fs.sb.inodeTable) == Ok(Pulled(block, next))
    requires Stores(rs[0], stored[0], 32) && Stores(rs[1], stored[1], 32)
    requires Stores(rs[2], stored[2], 32) && Stores(rs[3], stored[3], 20)
    requires block == PrintRecord(rs[0]) + PrintRecord(rs[1]) + PrintRecord(rs[2]) + PrintRecord(rs[3])
    ensures InodeAt(fs.img, fs.sb, 0) == Ok(stored[0]) && InodeAt(fs.img, fs.sb, 32) == Ok(stored[1])
    ensures InodeAt(fs.img, fs.sb, 64) == Ok(stored[2]) && InodeAt(fs.img, fs.sb, 96) == Ok(stored[3])
  {
    hide Pull, InodeAt, PrintRecord, Meaning, Legal, BlockSizeOf;
    var r, a, b, c := PrintRecord(rs[0]), PrintRecord(rs[1]), PrintRecord(rs[2]), PrintRecord(rs[3]);
    assert block[0..] == r + (a + b + c) && block[32..] == a + (b + c) && block[64..] == b + c && block[96..] == c + [];
    InodeInBlock(fs, block, next, 0, rs[0], a + b + c);
    InodeInBlock(fs, block, next, 32, rs[1], b + c);
    InodeInBlock(fs, block, next, 64, rs[2], c);
    InodeInBlock(fs, block, next, 96, rs[3], []);
  }

  lemma InodeInBlock(fs: Filesystem, block: seq<byte>, next: nat, at: nat, rec: Record, rest: seq<byte>)
    requires Pull(fs.img, fs.sb.inodeTable) == Ok(Pulled(block, next)) && at < 0x1_0000 && at <= |block|
    requires LegalHead(rec) && Legal(rec, fs.BlockSize()) && block[at..] == PrintRecord(rec) + rest
    ensures InodeAt(fs.img, fs.sb, at) == Ok(Meaning(rec))
  {
    hide Pull, TakeInode, PrintRecord, Meaning, Legal, BlockSizeOf;
    var ahead := Ahead(fs.img, None, next);
    assert FromPacked(at) == MetadataRef(0, at);
    assert FromPacked(at).StartAbs(fs.sb.inodeTable) == fs.sb.inodeTable;
    PrependAssociates(PrintRecord(rec), rest, ahead);
    RecordRoundTrip(rec, fs.BlockSize(), Prepend(rest, ahead));
  }

  // ----- its listings -----

  function Entry(at: u16, typeId: u16, name: byte): Listings.RawEntry { Listings.RawEntry(at, 0, typeId, [name]) }

  function Listed(at: u16, typeId: u16, name: byte, number: u32): DirEntry {
    Listings.DirEntry([name], at, typeId, number)
  }

  /// A printed group that resolves to the given entries.
  predicate Prints(g: Listings.Group, es: seq<DirEntry>, bytes: seq<byte>) {
    Listings.LegalGroups([g]) && Listings.ResolveAll([g]) == es && Listings.PrintGroups([g]) == bytes
  }

  function UnderRoot(): Listings.Group { Listings.Group(0, 2, [Entry(32, 1, 0x61), Entry(64, 1, 0x62)]) }

  function UnderB(): Listings.Group { Listings.Group(0, 3, [Entry(96, 6, 0x63)]) }

  lemma OneGroup(g: Listings.Group)
    requires Listings.LegalGroup(g)
    ensures Prints(g, Listings.ResolveGroup(g, |g.entries|), Listings.PrintGroup(g))
  {
    hide Listings.PrintGroup, Listings.LegalGroup, Listings.ResolveGroup;
    assert Listings.PrintGroups([g][1..]) == [] && Listings.ResolveAll([g][1..]) == [];
  }

  lemma RootListing() returns (bytes: seq<byte>)
    ensures |bytes| == 30 && Prints(UnderRoot(), [Listed(32, 1, 0x61, 2), Listed(64, 1, 0x62, 2)], bytes)
  {
    hide Prints;
    var g := UnderRoot();
    bytes := Listings.PrintGroup(g);
    OneGroup(g);
    var e, f := Entry(32, 1, 0x61), Entry(64, 1, 0x62);
    assert [e, f][1..] == [f] && Listings.PrintEntries([f][1..]) == [];
    assert |Listings.PrintEntry(e)| == |Listings.PrintEntry(f)| == 9;
    assert Listings.ResolveGroup(g, 2) == [Listed(32, 1, 0x61, 2), Listed(64, 1, 0x62, 2)];
  }

  lemma BListing() returns (bytes: seq<byte>)
    ensures |bytes| == 21 && Prints(UnderB(), [Listed(96, 6, 0x63, 3)], bytes)
  {
    hide Prints;
    var g := UnderB();
    bytes := Listings.PrintGroup(g);
    OneGroup(g);
    var e := Entry(96, 6, 0x63);
    assert Listings.PrintEntries([e][1..]) == [] && |Listings.PrintEntry(e)| == 9;
    assert Listings.ResolveGroup(g, 1) == [Listed(96, 6, 0x63, 3)];
  }

  lemma ListingInBlock(fs: Filesystem, node: Inode, block: seq<byte>, next: nat, g: Listings.Group, es: seq<DirEntry>,
      bytes: seq<byte>)
    requires Pull(fs.img, fs.sb.directoryTable) == Ok(Pulled(block, next)) && Prints(g, es, bytes)
    requires node.IsDir() && node.dirStartBlock == 0 && node.ListingLength() == |bytes| > 0
    requires node.dirBlockOffset + |bytes| <= |block| && block[node.dirBlockOffset..][..|bytes|] == bytes
    ensures DirListing(fs, node) == Ok(es)
  {
    hide Pull, DirListing, Listings.PrintGroups, Listings.LegalGroups, Listings.ResolveAll;
    var at := node.dirBlockOffset;
    var t := Prepend(block[at..], Ahead(fs.img, Some(ListingLimit(fs)), next));
    assert t.bytes[..|bytes|] == block[at..][..|bytes|];
    PrintedDirectoryLists(fs, node, t, [g]);
  }

  // ----- the image itself -----

  /// A metadata block that is stored as it is.
  function StoredBlock(raw: seq<byte>): (b: seq<byte>)
    requires |raw| < 0x8000
    ensures |b| == |raw| + 2
  {
    LeBytes(0x8000 + |raw|, 2) + raw
  }

  lemma BlockPulled(img: Image, front: seq<byte>, raw: seq<byte>, back: seq<byte>)
    requires 0 < |raw| <= METADATA_SIZE && img.dev == front + StoredBlock(raw) + back
    ensures Pull(img, |front|) == Ok(Pulled(raw, |front| + 2 + |raw|))
  {
    hide Pull, LeBytes;
    var n, m := |front|, |raw|;
    assert img.dev[n..n + 2] == LeBytes(0x8000 + m, 2) && img.dev[n + 2..n + 2 + m] == raw;
    assert StoredAt(img, n, raw, false);
    PullExact(img, n, Pulled(raw, n + 2 + m));
  }

  /// The image of an inode block and a listing block, with nothing else in it.
  function Mounted(inodes: seq<byte>, listings: seq<byte>): (fs: Filesystem)
    requires |inodes| == 116 && |listings| == 51
  {
    var dev := Zeros(96) + StoredBlock(inodes) + StoredBlock(listings) + [0];
    Filesystem(
      Image(dev, (raw, maxOut) => Err(BadMetadata(Codec))),
      Superblock(4, 12, 0, 0, 0, 268, 267, NO_TABLE, 96, 214, NO_TABLE, NO_TABLE),
      [], 267)
  }

  lemma MountedBlocks(inodes: seq<byte>, listings: seq<byte>)
    requires |inodes| == 116 && |listings| == 51
    ensures var fs := Mounted(inodes, listings);
            && SoundCodec(fs.img) && LaidOut(fs.sb, |fs.img.dev|)
            && fs.sb.inodeCount <= Room(fs.sb.directoryTable - fs.sb.inodeTable)
            && Pull(fs.img, fs.sb.inodeTable) == Ok(Pulled(inodes, 214))
            && Pull(fs.img, fs.sb.directoryTable) == Ok(Pulled(listings, 267))
  {
    hide Pull, StoredBlock;
    var fs := Mounted(inodes, listings);
    var front, i, l := Zeros(96), StoredBlock(inodes), StoredBlock(listings);
    assert fs.img.dev == front + i + (l + [0]);
    BlockPulled(fs.img, front, inodes, l + [0]);
    BlockPulled(fs.img, front + i, listings, [0]);
  }

  // ----- what it shows -----

  /// There is an image, laid out as the reader demands, whose listing from the root ends
  /// without an error or a bound, while the path `b/c` reaches an inode on none of its lines.
  lemma ListingMissesAnInode() returns (fs: Filesystem, root: Inode, c: Inode)
    ensures SoundCodec(fs.img) && LaidOut(fs.sb, |fs.img.dev|)
            && fs.sb.inodeCount <= Room(fs.sb.directoryTable - fs.sb.inodeTable)
    ensures InodeAt(fs.img, fs.sb, fs.sb.rootInodeRef) == Ok(root) && root.IsDir()
    ensures Descend(fs, root, [[0x62], [0x63]]) == Ok(c) && !OwnNumbers(fs, root)
    ensures var report := Bounded(WalkFrom(fs, [SLASH], root), 0, 2, 1);
            report.outcome == Done && !IsListed(root, report.lines, c)
  {
    hide Pull, InodeAt, DirListing, WalkFrom, OwnNumbers, Bounded, Descend, IsListed, Mounted, PrintRecord, Stores,
         Prints, DirectoryRecord, FifoRecord, LaidOut, SoundCodec, UnderRoot, UnderB, NameLe;
    var rs := [DirectoryRecord(1, 30, 0), DirectoryRecord(2, 0, 0), DirectoryRecord(2, 21, 30), FifoRecord(3)];
    var a, b;
    root, a, b, c := Directory(1, 30, 0), Directory(2, 0, 0), Directory(2, 21, 30), Fifo(3);
    DirectoryStored(1, 30, 0);
    DirectoryStored(2, 0, 0);
    DirectoryStored(2, 21, 30);
    FifoStored(3);
    var inodes := Joined(rs, [root, a, b, c]);
    var top := RootListing();
    var under := BListing();
    fs := Mounted(inodes, top + under);
    MountedBlocks(inodes, top + under);
    MountedTables(inodes, top + under);
    FourInodes(fs, inodes, 214, rs, [root, a, b, c]);
    var ea, eb, ec := Listed(32, 1, 0x61, 2), Listed(64, 1, 0x62, 2), Listed(96, 6, 0x63, 3);
    assert (top + under)[0..][..30] == top && (top + under)[30..][..21] == under;
    ListingInBlock(fs, root, top + under, 267, UnderRoot(), [ea, eb], top);
    ListingInBlock(fs, b, top + under, 267, UnderB(), [ec], under);
    EmptyListing(fs, a);
    NamesOrdered();
    SharedNumberHidesEntries(fs, [SLASH], root, ea, eb, ec, a, b, c);
    BoundedIsPrefix(WalkFrom(fs, [SLASH], root), 0, 2, 1);
  }

  lemma MountedTables(inodes: seq<byte>, listings: seq<byte>)
    requires |inodes| == 116 && |listings| == 51
    ensures var sb := Mounted(inodes, listings).sb; sb.rootInodeRef == 0
  {
  }

  lemma Joined(rs: seq<Record>, stored: seq<Inode>) returns (block: seq<byte>)
    requires |rs| == |stored| == 4
    requires Stores(rs[0], stored[0], 32) && Stores(rs[1], stored[1], 32)
    requires Stores(rs[2], stored[2], 32) && Stores(rs[3], stored[3], 20)
    ensures block == PrintRecord(rs[0]) + PrintRecord(rs[1]) + PrintRecord(rs[2]) + PrintRecord(rs[3]) && |block| == 116
  {
    hide PrintRecord;
    block := PrintRecord(rs[0]) + PrintRecord(rs[1]) + PrintRecord(rs[2]) + PrintRecord(rs[3]);
  }

  lemma EmptyListing(fs: Filesystem, node: Inode)
    requires node.IsDir() && node.ListingLength() == 0
    ensures DirListing(fs, node) == Ok([])
  {
  }

  lemma NamesOrdered()
    ensures NameLe([0x61], [0x62])
  {
  }
}
