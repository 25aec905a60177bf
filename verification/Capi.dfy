/// Reading by path, as the C interface of src/capi.rs does: the last path that was read is
/// kept with what it resolved to.
module Capi {
  import opened Bytes
  import opened Image
  import opened Metadata
  import opened Cursor
  import opened Superblock
  import opened Inode
  import opened FileData
  import opened Paths
  import Xattr
  import References

  // ----- every inode a path reaches was read from the image -----

  lemma InodesWellFormed(fs: Filesystem, packed: nat)
    requires InodeAt(fs.img, fs.sb, packed).Ok?
    ensures WellFormed(InodeAt(fs.img, fs.sb, packed).value, fs.BlockSize())
  {
    hide StreamAt, TakeInode;
    var ref := FromPacked(packed);
    ReadInodesWellFormed(StreamAt(fs.img, None, ref.StartAbs(fs.sb.inodeTable), ref.inBlock).value, fs.BlockSize());
  }

  lemma {:induction false} DescentsWellFormed(fs: Filesystem, node: Inode, names: seq<seq<byte>>)
    requires WellFormed(node, fs.BlockSize()) && Descend(fs, node, names).Ok?
    ensures WellFormed(Descend(fs, node, names).value, fs.BlockSize())
    decreases |names|
  {
    hide WellFormed, InodeAt, DirListing;
    if names != [] {
      var e := FirstNamed(DirListing(fs, node).value, names[0]).value;
      InodesWellFormed(fs, e.inodeRef);
      DescentsWellFormed(fs, Child(fs, node, names[0]).value, names[1..]);
    }
  }

  lemma ResolvedWellFormed(fs: Filesystem, path: seq<byte>)
    requires Resolve(fs, path).Ok?
    ensures WellFormed(Resolve(fs, path).value, fs.BlockSize())
  {
    hide WellFormed, InodeAt, Descend;
    InodesWellFormed(fs, fs.sb.rootInodeRef);
    DescentsWellFormed(fs, InodeAt(fs.img, fs.sb, fs.sb.rootInodeRef).value, Components(path));
  }

  // ----- the handle -----

  /// A path, the inode it resolves to and, for a file, its block map.
  datatype ResolvedFile = ResolvedFile(path: seq<byte>, inode: Inode, offsets: seq<u64>)

  predicate IsResolved(fs: Filesystem, f: ResolvedFile) {
    && Resolve(fs, f.path) == Ok(f.inode) && f.inode.blocksStart <= U64_MAX
    && if f.inode.IsRegularFile() then IsBlockMap(f.inode, f.offsets) else f.offsets == []
  }

  datatype ReadFault = Unresolved(error: Error) | NotRegular | Unread(error: Error)

  /// A read that keeps nothing between calls: what the file a path resolves to holds.
  ghost predicate StatelessRead(fs: Filesystem, path: seq<byte>, offset: nat, length: nat,
      r: Result<seq<byte>, ReadFault>)
    requires SoundCodec(fs.img)
  {
    match Resolve(fs, path)
    case Err(e) => r == Err(Unresolved(e))
    case Ok(i) =>
      ResolvedWellFormed(fs, path);
      if !i.IsRegularFile() then r == Err(NotRegular)
      else
        match r
        case Ok(bytes) => Reads(fs, i, offset, length, Ok(bytes))
        case Err(fault) => fault.Unread? && Reads(fs, i, offset, length, Err(fault.error))
  }

  /// Bounding a request by the file's size changes no answer.
  lemma LengthBound(fs: Filesystem, i: Inode, offset: nat, length: nat, r: Result<seq<byte>, Error>)
    requires SoundCodec(fs.img) && IsFile(fs, i)
    ensures Reads(fs, i, offset, Min(length, i.fileSize), r) <==> Reads(fs, i, offset, length, r)
  {
    hide WellFormed, SoundCodec, HoldsAll, Fails, Available;
    assert Covered(i, offset, Min(length, i.fileSize)) == Covered(i, offset, length);
  }

  /// The answer and the caller's buffer after a read: what a stateless read gives is at the
  /// front of the buffer, and nothing behind it has changed.
  ghost predicate Delivered(fs: Filesystem, path: seq<byte>, offset: nat, before: seq<byte>, after: seq<byte>,
      r: Result<nat, ReadFault>)
    requires SoundCodec(fs.img) && |after| == |before|
  {
    match r
    case Ok(n) => n <= |after| && StatelessRead(fs, path, offset, |after|, Ok(after[..n])) && after[n..] == before[n..]
    case Err(fault) => StatelessRead(fs, path, offset, |after|, Err(fault)) && (fault.Unread? || after == before)
  }

  lemma Refused(fs: Filesystem, path: seq<byte>, offset: nat, length: nat)
    requires SoundCodec(fs.img)
    ensures match Resolve(fs, path)
            case Err(e) => StatelessRead(fs, path, offset, length, Err(Unresolved(e)))
            case Ok(i) => !i.IsRegularFile() ==> StatelessRead(fs, path, offset, length, Err(NotRegular))
  {
  }

  lemma Answered(fs: Filesystem, path: seq<byte>, i: Inode, offset: nat, length: nat, n: Result<seq<byte>, Error>)
    requires SoundCodec(fs.img) && Resolve(fs, path) == Ok(i) && IsFile(fs, i)
        && Reads(fs, i, offset, Min(length, i.fileSize), n)
    ensures StatelessRead(fs, path, offset, length, match n case Ok(bytes) => Ok(bytes) case Err(e) => Err(Unread(e)))
  {
    hide Reads, Resolve, WellFormed, SoundCodec;
    LengthBound(fs, i, offset, length, n);
  }

  /// A stateless read has one answer.
  lemma StatelessReadsOneWay(fs: Filesystem, path: seq<byte>, offset: nat, length: nat,
      r: Result<seq<byte>, ReadFault>, s: Result<seq<byte>, ReadFault>)
    requires SoundCodec(fs.img) && StatelessRead(fs, path, offset, length, r)
        && StatelessRead(fs, path, offset, length, s)
    ensures r == s
  {
    hide Resolve, Reads, WellFormed, SoundCodec;
    if Resolve(fs, path).Ok? && Resolve(fs, path).value.IsRegularFile() {
      ResolvedWellFormed(fs, path);
      var a: Result<seq<byte>, Error> := match r case Ok(bytes) => Ok(bytes) case Err(fault) => Err(fault.error);
      var b: Result<seq<byte>, Error> := match s case Ok(bytes) => Ok(bytes) case Err(fault) => Err(fault.error);
      ReadsOneWay(fs, Resolve(fs, path).value, offset, length, a, b);
    }
  }

  /// `list_xattrs`: an image without the table, or an inode without a set, has none.
  function Attributes(fs: Filesystem, table: Option<Xattr.XattrTable>, i: Inode)
    : (r: Result<seq<Xattr.XattrEntry>, Error>)
  {
    if table.None? || i.xattrIndex == INVALID_XATTR then Ok([]) else Xattr.SetAt(fs.img, table.value, i.xattrIndex)
  }

  /// An inode whose attribute index is all ones has no attributes, and no inode has any when
  /// the image has no table.
  lemma NoAttributes(fs: Filesystem, table: Option<Xattr.XattrTable>, i: Inode)
    requires table.None? || i.xattrIndex == 0xFFFF_FFFF
    ensures Attributes(fs, table, i) == Ok([])
  {
  }

  /// For every other inode, pairs written for the set its index names, wherever that lies,
  /// come out as what they mean.
  lemma WrittenAttributesListed(fs: Filesystem, table: Xattr.XattrTable, i: Inode, blocks: seq<Pulled>, k: nat, n: nat,
      ps: seq<Xattr.RawPair>, es: seq<Xattr.XattrEntry>, t: Tail)
    requires i.xattrIndex != 0xFFFF_FFFF && i.xattrIndex < |table.ids| && |ps| <= 16384 && n < 0x1_0000
    requires table.ids[i.xattrIndex] == Xattr.XattrId(0x1_0000 * k + n, |ps|, Xattr.TotalWeight(es))
    requires Xattr.Mean(fs.img, table, ps, es) && References.Place(fs.img, None, table.tableStart, blocks, k, n)
    requires References.Written(fs.img, None, table.tableStart, blocks, n, Xattr.PrintPairs(ps), t)
    ensures Attributes(fs, Some(table), i) == Ok(es)
  {
    hide References.Place, References.Written, Xattr.Mean, Xattr.SetAt, Xattr.PrintPairs, Xattr.TotalWeight;
    References.SetsAnywhere(fs.img, table, i.xattrIndex, blocks, k, n, ps, es, t);
  }

  class Handle {
    const fs: Filesystem
    const meta: MetaCache
    const data: DataCache
    var last: Option<ResolvedFile>

    ghost predicate Valid()
      reads this, meta, data
    {
      && SoundCodec(fs.img) && meta.Valid(fs.img) && data.Valid(fs)
      && (last.Some? ==> IsResolved(fs, last.value))
    }

    constructor (fs: Filesystem, metaBlocks: nat, dataBlocks: nat)
      requires SoundCodec(fs.img)
      ensures Valid() && this.fs == fs && last == None && fresh(meta) && fresh(data)
    {
      this.fs, last := fs, None;
      meta := new MetaCache(metaBlocks);
      data := new DataCache(dataBlocks);
    }

    /// `resolve_for_read`: the last path's answer again, or a fresh one that is kept.
    method ResolveForRead(path: seq<byte>) returns (r: Result<ResolvedFile, Error>)
      requires Valid()
      modifies this, meta
      ensures Valid()
      ensures match Resolve(fs, path)
              case Err(e) => r == Err(e) && last == old(last)
              case Ok(i) =>
                r.Ok? && r.value.path == path && r.value.inode == i && IsResolved(fs, r.value) && last == Some(r.value)
    {
      hide Resolve, SoundCodec, WellFormed, IsBlockMap, Pull, Decoded;
      if last.Some? && last.value.path == path {
        return Ok(last.value);
      }
      var found := LookupPath(fs, path, meta);
      if found.Err? {
        return Err(found.error);
      }
      ResolvedWellFormed(fs, path);
      WellFormedStart(found.value, fs.BlockSize());
      var offsets: seq<u64> := [];
      if found.value.IsRegularFile() {
        offsets := BlockOffsets(found.value);
      }
      var resolved := ResolvedFile(path, found.value, offsets);
      last := Some(resolved);
      return Ok(resolved);
    }

    /// `fs_squashfs_read_file`: whatever was read before, and through all three caches, the
    /// answer is a stateless read's and lands at the front of the caller's buffer.
    method ReadFileAt(path: seq<byte>, offset: nat, buf: array<byte>) returns (r: Result<nat, ReadFault>)
      requires Valid()
      modifies this, meta, data, buf
      ensures Valid()
      ensures Delivered(fs, path, offset, old(buf[..]), buf[..], r)
    {
      hide Resolve, SoundCodec, WellFormed, Reads, IsBlockMap, StatelessRead;
      Refused(fs, path, offset, buf.Length);
      var resolved := ResolveForRead(path);
      if resolved.Err? {
        return Err(Unresolved(resolved.error));
      }
      var i := resolved.value.inode;
      if !i.IsRegularFile() {
        return Err(NotRegular);
      }
      r := ReadResolved(path, resolved.value, offset, buf);
    }

    /// `fs_squashfs_listxattr`: the size every name of the path's attributes needs, and as
    /// many of them as fit.
    method ListXattr(table: Option<Xattr.XattrTable>, path: seq<byte>, buf: array<byte>) returns (r: Result<nat, Error>)
      requires Valid()
      modifies meta, buf
      ensures Valid()
      ensures match Resolve(fs, path)
              case Err(e) => r == Err(e) && buf[..] == old(buf[..])
              case Ok(i) =>
                match Attributes(fs, table, i)
                case Err(e) => r == Err(e) && buf[..] == old(buf[..])
                case Ok(es) => r == Ok(Xattr.NamesSize(es)) && exists n :: Xattr.NamesCopied(es, n, old(buf[..]),
                    buf[..])
    {
      hide Resolve, SoundCodec, IsResolved, Pull, Decoded, Xattr.SetAt, Xattr.NamesSize, Xattr.NamesCopied;
      var found := LookupPath(fs, path, meta);
      if found.Err? {
        return Err(found.error);
      }
      var entries: Result<seq<Xattr.XattrEntry>, Error> := Ok([]);
      if table.Some? && found.value.xattrIndex != INVALID_XATTR {
        entries := Xattr.ReadSet(fs.img, table.value, found.value.xattrIndex, meta);
        if entries.Err? {
          return Err(entries.error);
        }
      }
      var required, n := Xattr.CopyNames(entries.value, buf);
      return Ok(required);
    }

    /// The read itself, asked for no more than the file's size.
    method ReadResolved(path: seq<byte>, resolved: ResolvedFile, offset: nat, buf: array<byte>)
        returns (r: Result<nat, ReadFault>)
      requires Valid() && IsResolved(fs, resolved) && resolved.path == path && resolved.inode.IsRegularFile()
      modifies data, buf
      ensures Valid()
      ensures Delivered(fs, path, offset, old(buf[..]), buf[..], r)
    {
      hide Resolve, SoundCodec, WellFormed, Reads, IsBlockMap, StatelessRead;
      ResolvedWellFormed(fs, path);
      var i := resolved.inode;
      var length := Min(buf.Length, i.fileSize);
      var n := ReadFile(fs, i, resolved.offsets, offset, buf, length, data);
      if n.Err? {
        Answered(fs, path, i, offset, buf.Length, Err(n.error));
        return Err(Unread(n.error));
      }
      assert buf[..][..n.value] == buf[..n.value] && buf[..][n.value..] == old(buf[..])[n.value..];
      Answered(fs, path, i, offset, buf.Length, Ok(buf[..n.value]));
      return Ok(n.value);
    }
  }
}
