/// Inodes: src/inode.rs.
module Inode {
  import opened Bytes
  import opened Image
  import opened Metadata
  import opened Cursor
  import opened Superblock
  import Modular

  const INVALID_FRAGMENT: u32 := 0xFFFF_FFFF
  const INVALID_XATTR: u32 := 0xFFFF_FFFF
  const MAX_BLOCKS := 0x100_0000
  const MAX_SYMLINK := 0x1_0000

  datatype FileType = Dir | RegFile | Symlink | CharDev | BlockDev | Fifo | Socket | Unknown

  function TypeOf(id: nat): FileType {
    match id
    case 1 | 8 => Dir
    case 2 | 9 => RegFile
    case 3 | 10 => Symlink
    case 4 | 11 => BlockDev
    case 5 | 12 => CharDev
    case 6 | 13 => Fifo
    case 7 | 14 => Socket
    case _ => Unknown
  }

  datatype Inode = Inode(
    inodeType: nat,
    permissions: nat,
    uidIndex: nat,
    gidIndex: nat,
    mtime: nat,
    number: nat,
    nlink: nat,
    fileSize: nat,
    dirStartBlock: nat,
    dirBlockOffset: nat,
    blocksStart: nat,
    fragmentIndex: nat,
    fragmentOffset: nat,
    blockSizes: seq<nat>,
    symlinkTarget: seq<byte>,
    rdev: nat,
    xattrIndex: nat) {

    predicate IsDir() { TypeOf(inodeType) == Dir }

    predicate IsRegularFile() { TypeOf(inodeType) == RegFile }

    predicate HasFragment() { IsRegularFile() && fragmentIndex != INVALID_FRAGMENT }

    /// A directory stores the length of its listing plus three.
    function ListingLength(): nat { if fileSize >= 3 then fileSize - 3 else 0 }
  }

  /// How many full data blocks a file has: with a tail fragment the remainder is not one.
  function BlockCount(fileSize: nat, blockSize: nat, fragmentIndex: nat): (r: Result<nat, Error>)
    requires blockSize > 0
  {
    var n := if fragmentIndex == INVALID_FRAGMENT then (fileSize + blockSize - 1) / blockSize else fileSize / blockSize;
    if n > MAX_BLOCKS then Err(BadInode(TooManyBlocks)) else Ok(n)
  }

  /// The types by number: a basic and an extended form of each, 1 to 7 and 8 to 14.
  lemma TypesNamed(id: nat)
    ensures TypeOf(id) == Dir <==> id == 1 || id == 8
    ensures TypeOf(id) == RegFile <==> id == 2 || id == 9
    ensures TypeOf(id) == Symlink <==> id == 3 || id == 10
    ensures (TypeOf(id) == BlockDev <==> id == 4 || id == 11) && (TypeOf(id) == CharDev <==> id == 5 || id == 12)
    ensures (TypeOf(id) == Fifo <==> id == 6 || id == 13) && (TypeOf(id) == Socket <==> id == 7 || id == 14)
    ensures TypeOf(id) != Unknown <==> 1 <= id <= 14
    ensures 1 <= id <= 7 ==> TypeOf(id) == TypeOf(id + 7)
  {
  }

  /// A file without a fragment has as many blocks as cover it, one with a fragment as many
  /// as it fills, and more than 2^24 are refused.
  lemma BlockCountMeans(fileSize: nat, blockSize: nat, fragment: nat, n: nat)
    requires blockSize > 0
    ensures BlockCount(fileSize, blockSize, fragment) == Ok(n) <==>
            && n <= 0x100_0000
            && if fragment == 0xFFFF_FFFF then blockSize * n - blockSize < fileSize <= blockSize * n
               else blockSize * n <= fileSize < blockSize * n + blockSize
  {
    Modular.Floor(fileSize, blockSize, n);
    Modular.Ceiling(fileSize, blockSize, n);
  }

  /// A file of more than 2^24 blocks is refused, and so is none other.
  lemma TooManyBlocksMeans(fileSize: nat, blockSize: nat, fragment: nat)
    requires blockSize > 0
    ensures BlockCount(fileSize, blockSize, fragment).Err? <==>
            if fragment == 0xFFFF_FFFF then blockSize * 0x100_0000 < fileSize
            else blockSize * 0x100_0000 + blockSize <= fileSize
  {
    var n := if fragment == 0xFFFF_FFFF then (fileSize + blockSize - 1) / blockSize else fileSize / blockSize;
    Modular.Floor(fileSize, blockSize, n);
    Modular.Ceiling(fileSize, blockSize, n);
    Modular.Distribute(blockSize, n, 0x100_0000);
    Modular.MulBound(blockSize, n - 0x100_0000);
  }

  // ----- records on a stream -----

  /// Words of the given sizes, one after the other, until one fails.
  function TakeWords(t: Tail, sizes: seq<nat>): (k: Taken<seq<nat>>)
    ensures k.r.Ok? ==> |k.r.value| == |sizes| && forall i :: 0 <= i < |sizes| ==> k.r.value[i] < Pow256(sizes[i])
    decreases |sizes|
  {
    if sizes == [] then Taken(Ok([]), t)
    else
      var first := TakeWord(t, sizes[0]);
      match first.r
      case Err(e) => Taken(Err(e), first.rest)
      case Ok(v) =>
        var more := TakeWords(first.rest, sizes[1..]);
        Taken(match more.r case Ok(vs) => Ok([v] + vs) case Err(e) => Err(e), more.rest)
  }

  function Fours(n: nat): (s: seq<nat>)
    ensures |s| == n && forall i :: 0 <= i < n ==> s[i] == 4
  {
    seq(n, _ => 4)
  }

  /// The loop over words of the given sizes.
  method ReadWords(cursor: MetaCursor, sizes: seq<nat>) returns (r: Result<seq<nat>, Error>)
    requires cursor.Valid()
    modifies cursor, cursor.cache
    ensures cursor.Valid()
    ensures Taken(r, cursor.Contents()) == TakeWords(old(cursor.Contents()), sizes)
  {
    hide TakeWord;
    var values: seq<nat> := [];
    WordsBegin(cursor.Contents(), sizes);
    for i := 0 to |sizes|
      invariant cursor.Valid()
      invariant TakeWords(old(cursor.Contents()), sizes) == AfterWords(values, TakeWords(cursor.Contents(), sizes[i..]))
    {
      ghost var before := cursor.Contents();
      WordsStep(before, sizes[i..], values);
      assert sizes[i..][1..] == sizes[i + 1..];
      var v := cursor.ReadWord(sizes[i]);
      if v.Err? {
        return Err(v.error);
      }
      values := values + [v.value];
    }
    assert values + [] == values;
    return Ok(values);
  }

  ghost function AfterWords(done: seq<nat>, k: Taken<seq<nat>>): Taken<seq<nat>> {
    Taken(match k.r case Ok(vs) => Ok(done + vs) case Err(e) => Err(e), k.rest)
  }

  lemma WordsBegin(t: Tail, sizes: seq<nat>)
    ensures TakeWords(t, sizes) == AfterWords([], TakeWords(t, sizes[0..]))
  {
    assert sizes[0..] == sizes;
    if TakeWords(t, sizes).r.Ok? {
      assert [] + TakeWords(t, sizes).r.value == TakeWords(t, sizes).r.value;
    }
  }

  lemma WordsStep(t: Tail, sizes: seq<nat>, done: seq<nat>)
    requires sizes != []
    ensures var k := TakeWord(t, sizes[0]);
            AfterWords(done, TakeWords(t, sizes))
            == match k.r
               case Err(e) => Taken(Err(e), k.rest)
               case Ok(v) => AfterWords(done + [v], TakeWords(k.rest, sizes[1..]))
  {
    hide TakeWord;
    var k := TakeWord(t, sizes[0]);
    if k.r.Ok? && TakeWords(k.rest, sizes[1..]).r.Ok? {
      var vs := TakeWords(k.rest, sizes[1..]).r.value;
      assert done + ([k.r.value] + vs) == (done + [k.r.value]) + vs;
    }
  }

  // ----- inodes -----

  /// The word sizes of the fields that follow the common header, by inode type.
  function Layout(id: nat): Option<seq<nat>> {
    match id
    case 1 => Some([4, 4, 2, 2, 4])
    case 2 => Some([4, 4, 4, 4])
    case 3 => Some([4, 4])
    case 4 | 5 => Some([4, 4])
    case 6 | 7 => Some([4])
    case 8 => Some([4, 4, 4, 4, 2, 2, 4])
    case 9 => Some([8, 8, 8, 4, 4, 4, 4])
    case 10 => Some([4, 4])
    case 11 | 12 => Some([4, 4, 4])
    case 13 | 14 => Some([4, 4])
    case _ => None
  }

  const HEADER: seq<nat> := [2, 2, 2, 2, 4, 4]

  /// The inode of a common header and its type's fields, before anything of its own length.
  function Assemble(h: seq<nat>, f: seq<nat>): (i: Inode)
    requires |h| == 6 && Layout(h[0]).Some? && |f| == |Layout(h[0]).value|
  {
    var i := Inode(h[0], h[1], h[2], h[3], h[4], h[5], 1, 0, 0, 0, 0, INVALID_FRAGMENT, 0, [], [], 0, INVALID_XATTR);
    match h[0]
    case 1 => i.(dirStartBlock := f[0], nlink := f[1], fileSize := f[2], dirBlockOffset := f[3])
    case 2 => i.(blocksStart := f[0], fragmentIndex := f[1], fragmentOffset := f[2], fileSize := f[3])
    case 3 => i.(nlink := f[0], fileSize := f[1])
    case 4 | 5 => i.(nlink := f[0], rdev := f[1])
    case 6 | 7 => i.(nlink := f[0])
    case 8 => i.(nlink := f[0], fileSize := f[1], dirStartBlock := f[2], dirBlockOffset := f[5], xattrIndex := f[6])
    case 9 => i.(blocksStart := f[0], fileSize := f[1], nlink := f[3], fragmentIndex := f[4], fragmentOffset := f[5],
        xattrIndex := f[6])
    case 10 => i.(nlink := f[0], fileSize := f[1])
    case 11 | 12 => i.(nlink := f[0], rdev := f[1], xattrIndex := f[2])
    case _ => i.(nlink := f[0], xattrIndex := f[1])
  }

  /// What follows the fields: a file's block sizes, a symlink's target and, for the
  /// extended symlink, its attribute index.
  function TakeBody(t: Tail, i: Inode, blockSize: nat): (r: Result<Inode, Error>)
    requires blockSize > 0
  {
    if i.IsRegularFile() then
      match BlockCount(i.fileSize, blockSize, i.fragmentIndex)
      case Err(e) => Err(e)
      case Ok(n) =>
        match TakeWords(t, Fours(n)).r
        case Err(e) => Err(e)
        case Ok(sizes) => Ok(i.(blockSizes := sizes))
    else if TypeOf(i.inodeType) == Symlink then
      if i.fileSize > MAX_SYMLINK then Err(BadInode(SymlinkTooLong))
      else
        var target := Take(t, i.fileSize);
        match target.r
        case Err(e) => Err(e)
        case Ok(bytes) =>
          if i.inodeType == 3 then Ok(i.(symlinkTarget := bytes))
          else
            match TakeWord(target.rest, 4).r
            case Err(e) => Err(e)
            case Ok(x) => Ok(i.(symlinkTarget := bytes, xattrIndex := x))
    else Ok(i)
  }

  function TakeInode(t: Tail, blockSize: nat): (r: Result<Inode, Error>)
    requires blockSize > 0
  {
    var h := TakeWords(t, HEADER);
    match h.r
    case Err(e) => Err(e)
    case Ok(common) =>
      match Layout(common[0])
      case None => Err(BadInode(if common[0] == 0 then TypeZero else UnknownType))
      case Some(sizes) =>
        var f := TakeWords(h.rest, sizes);
        match f.r
        case Err(e) => Err(e)
        case Ok(fields) => TakeBody(f.rest, Assemble(common, fields), blockSize)
  }

  /// The inode a packed reference names, without any cache.
  function InodeAt(img: Image, sb: Superblock, packed: nat): (r: Result<Inode, Error>) {
    var ref := FromPacked(packed);
    match StreamAt(img, None, ref.StartAbs(sb.inodeTable), ref.inBlock)
    case Err(e) => Err(e)
    case Ok(t) => TakeInode(t, BlockSizeOf(sb))
  }

  /// What every inode that was read satisfies, and all that reading its data relies on.
  predicate WellFormed(i: Inode, blockSize: nat)
    requires blockSize > 0
  {
    && i.fileSize <= U64_MAX && i.blocksStart <= U64_MAX && i.fragmentIndex <= U64_MAX
        && i.fragmentOffset < 0x1_0000_0000
    && (forall k :: 0 <= k < |i.blockSizes| ==> i.blockSizes[k] < 0x1_0000_0000)
    && (i.IsRegularFile() ==> BlockCount(i.fileSize, blockSize, i.fragmentIndex) == Ok(|i.blockSizes|))
  }

  lemma FieldsSmall(id: nat, f: seq<nat>)
    requires Layout(id).Some? && |f| == |Layout(id).value|
    requires forall k :: 0 <= k < |f| ==> f[k] < Pow256(Layout(id).value[k])
    ensures forall k :: 0 <= k < |f| ==> f[k] <= U64_MAX && (Layout(id).value[k] <= 4 ==> f[k] < 0x1_0000_0000)
  {
    Pow256Values();
    forall k | 0 <= k < |f| ensures f[k] <= U64_MAX && (Layout(id).value[k] <= 4 ==> f[k] < 0x1_0000_0000) {
      var n := Layout(id).value[k];
      assert n == 2 || n == 4 || n == 8;
    }
  }

  /// Every inode that reads is well formed.
  lemma ReadInodesWellFormed(t: Tail, blockSize: nat)
    requires blockSize > 0 && TakeInode(t, blockSize).Ok?
    ensures WellFormed(TakeInode(t, blockSize).value, blockSize)
  {
    hide TakeWords, BlockCount, Take, TakeWord;
    var h := TakeWords(t, HEADER);
    var common := h.r.value;
    var f := TakeWords(h.rest, Layout(common[0]).value);
    FieldsSmall(common[0], f.r.value);
    var i := Assemble(common, f.r.value);
    if i.IsRegularFile() {
      var n := BlockCount(i.fileSize, blockSize, i.fragmentIndex).value;
      var sizes := TakeWords(f.rest, Fours(n)).r.value;
      Pow256Values();
      assert forall k :: 0 <= k < n ==> sizes[k] < Pow256(Fours(n)[k]);
    }
  }

  lemma WellFormedStart(i: Inode, blockSize: nat)
    requires blockSize > 0 && WellFormed(i, blockSize)
    ensures i.blocksStart <= U64_MAX
  {
  }

  /// Inode numbers are 32-bit words.
  lemma NumberFits(img: Image, sb: Superblock, packed: nat)
    requires InodeAt(img, sb, packed).Ok?
    ensures InodeAt(img, sb, packed).value.number < 0x1_0000_0000
  {
    hide StreamAt, TakeWords, BlockCount, Take, TakeWord;
    var ref := FromPacked(packed);
    var t := StreamAt(img, None, ref.StartAbs(sb.inodeTable), ref.inBlock).value;
    var common := TakeWords(t, HEADER).r.value;
    Pow256Values();
    assert common[5] < Pow256(HEADER[5]);
  }

  /// `Inode::read`: the fields off a cursor at the reference, through the cache if any.
  method ReadInode(img: Image, sb: Superblock, packed: nat, cache: MetaCache?) returns (r: Result<Inode, Error>)
    requires CacheValid(img, cache) && SoundCodec(img)
    modifies cache
    ensures CacheValid(img, cache)
    ensures r == InodeAt(img, sb, packed)
  {
    hide TakeWords, BlockCount, Take, TakeWord, Layout, StreamAt;
    var ref := FromPacked(packed);
    var start := Open(img, ref.StartAbs(sb.inodeTable), ref.inBlock, cache);
    if start.Err? {
      return Err(start.error);
    }
    var cursor := start.value;
    var common := ReadWords(cursor, HEADER);
    if common.Err? {
      return Err(common.error);
    }
    var layout := Layout(common.value[0]);
    if layout.None? {
      return Err(BadInode(if common.value[0] == 0 then TypeZero else UnknownType));
    }
    var fields := ReadWords(cursor, layout.value);
    if fields.Err? {
      return Err(fields.error);
    }
    r := ReadBody(cursor, Assemble(common.value, fields.value), BlockSizeOf(sb));
  }

  method ReadBody(cursor: MetaCursor, i: Inode, blockSize: nat) returns (r: Result<Inode, Error>)
    requires cursor.Valid() && blockSize > 0
    modifies cursor, cursor.cache
    ensures cursor.Valid()
    ensures r == TakeBody(old(cursor.Contents()), i, blockSize)
  {
    hide TakeWords, BlockCount, Take, TakeWord;
    if i.IsRegularFile() {
      var n := BlockCount(i.fileSize, blockSize, i.fragmentIndex);
      if n.Err? {
        return Err(n.error);
      }
      var sizes := ReadWords(cursor, Fours(n.value));
      return if sizes.Ok? then Ok(i.(blockSizes := sizes.value)) else Err(sizes.error);
    }
    if TypeOf(i.inodeType) == Symlink {
      if i.fileSize > MAX_SYMLINK {
        return Err(BadInode(SymlinkTooLong));
      }
      var target := cursor.ReadExact(i.fileSize);
      if target.Err? {
        return Err(target.error);
      }
      if i.inodeType == 3 {
        return Ok(i.(symlinkTarget := target.value));
      }
      var x := cursor.ReadWord(4);
      return if x.Ok? then Ok(i.(symlinkTarget := target.value, xattrIndex := x.value)) else Err(x.error);
    }
    return Ok(i);
  }
}
