/// File contents: the block map, the decoded-data cache and the read loop of src/fs.rs.
module FileData {
  import opened Bytes
  import opened Image
  import opened Cache
  import opened Superblock
  import opened Inode
  import Modular

  /// A fragment block: where it lies and its size word.
  datatype FragmentEntry = FragmentEntry(start: nat, size: nat)

  /// What a mount holds besides its caches.
  datatype Filesystem = Filesystem(img: Image, sb: Superblock, fragments: seq<FragmentEntry>, dirTableEnd: u64) {
    function BlockSize(): (n: nat)
      ensures n > 0
    {
      BlockSizeOf(sb)
    }
  }

  /// The low 24 bits of a size word: the block's length on disk.
  function OnDisk(sizeWord: nat): nat { sizeWord % 0x100_0000 }

  /// Bit 24 clear: the block is compressed.
  predicate IsCompressed(sizeWord: nat) { sizeWord / 0x100_0000 % 2 == 0 }

  // ----- one decoded block -----

  /// The whole request a decode answers.
  datatype DataKey = DataKey(offset: nat, sizeWord: nat, maxOut: nat)

  /// `decode_data_block`: the device read and the codec.
  function Decoded(fs: Filesystem, key: DataKey): (r: Result<seq<byte>, Error>) {
    if OnDisk(key.sizeWord) > fs.BlockSize() then Err(BadInode(OnDiskTooLarge))
    else
      match ReadAt(fs.img.dev, key.offset, OnDisk(key.sizeWord))
      case Err(e) => Err(e)
      case Ok(raw) =>
        if IsCompressed(key.sizeWord) then fs.img.decode(raw, key.maxOut)
        else if |raw| > key.maxOut then Err(BadInode(StoredTooLarge))
        else Ok(raw)
  }

  /// Decoded blocks by request; eviction is left open as in `MetaCache`.
  class DataCache {
    var capacity: nat
    var entries: map<DataKey, seq<byte>>
    var hits: nat
    var misses: nat
    /// The lookups made while the cache was on, since the last resize.
    ghost var lookups: nat

    ghost predicate Valid(fs: Filesystem)
      reads this
    {
      && |entries| <= capacity
      && hits + misses == lookups
      && forall key :: key in entries ==> Decoded(fs, key) == Ok(entries[key])
    }

    ghost function State(): CacheState<DataKey, seq<byte>>
      reads this
    {
      CacheState(capacity, entries, hits, misses, lookups)
    }

    constructor (capacity: nat)
      ensures forall fs :: Valid(fs)
      ensures State() == Emptied(capacity)
    {
      this.capacity, entries, hits, misses, lookups := capacity, map[], 0, 0, 0;
    }

    method SetCapacity(capacity: nat)
      modifies this
      ensures forall fs :: Valid(fs)
      ensures State() == Emptied(capacity)
    {
      this.capacity, entries, hits, misses, lookups := capacity, map[], 0, 0, 0;
    }

    method Get(ghost fs: Filesystem, key: DataKey) returns (hit: Option<seq<byte>>)
      requires Valid(fs)
      modifies this
      ensures Valid(fs)
      ensures hit == Found(old(State()), key) && State() == LookedUp(old(State()), key)
    {
      if capacity == 0 {
        return None;
      }
      lookups := lookups + 1;
      if key in entries {
        hits := hits + 1;
        return Some(entries[key]);
      }
      misses := misses + 1;
      return None;
    }

    method Insert(ghost fs: Filesystem, key: DataKey, block: seq<byte>)
      requires Valid(fs) && Decoded(fs, key) == Ok(block)
      modifies this`entries
      ensures Valid(fs)
      ensures Inserted(old(State()), State(), key, block)
    {
      if capacity == 0 {
        return;
      }
      var none: set<DataKey> := {};
      assert none <= entries.Keys - {key} && |none| < capacity;
      var kept: set<DataKey> :| kept <= entries.Keys - {key} && |kept| < capacity;
      var rest := map k | k in kept :: entries[k];
      assert rest.Keys == kept;
      entries := rest[key := block];
      assert entries.Keys == kept + {key};
    }

    /// `read_data_block`: what an uncached decode gives; failures are not kept.
    method Read(fs: Filesystem, key: DataKey) returns (r: Result<seq<byte>, Error>)
      requires Valid(fs)
      modifies this
      ensures Valid(fs) && capacity == old(capacity) && lookups == old(lookups) + (if capacity > 0 then 1 else 0)
      ensures r == Decoded(fs, key)
    {
      var hit := Get(fs, key);
      if hit.Some? {
        return Ok(hit.value);
      }
      r := Decoded(fs, key);
      if r.Ok? {
        Insert(fs, key, r.value);
      }
    }
  }

  /// The key has to be the whole request: the same offset and size word under a smaller
  /// bound is a refusal, and an entry found by offset and size word alone would turn it
  /// into a read.
  lemma OffsetAloneIsNoKey(fs: Filesystem, offset: nat, sizeWord: nat, bound: nat)
    requires !IsCompressed(sizeWord) && 0 < OnDisk(sizeWord) <= fs.BlockSize()
    requires offset + OnDisk(sizeWord) <= |fs.img.dev|
    ensures Decoded(fs, DataKey(offset, sizeWord, OnDisk(sizeWord))).Ok?
    ensures bound < OnDisk(sizeWord) <==> Decoded(fs, DataKey(offset, sizeWord, bound)) == Err(BadInode(StoredTooLarge))
  {
  }

  // ----- the block map -----

  function TotalOnDisk(sizes: seq<nat>, n: nat): nat
    requires n <= |sizes|
  {
    if n == 0 then 0 else TotalOnDisk(sizes, n - 1) + OnDisk(sizes[n - 1])
  }

  /// Where a full data block starts; a sum past a u64 stays at its end.
  function BlockStart(i: Inode, n: nat): u64
    requires n <= |i.blockSizes| && i.blocksStart <= U64_MAX
  {
    Min(i.blocksStart + TotalOnDisk(i.blockSizes, n), U64_MAX)
  }

  /// `offsets` is the inode's block map.
  predicate IsBlockMap(i: Inode, offsets: seq<u64>)
    requires i.blocksStart <= U64_MAX
  {
    |offsets| == |i.blockSizes| && forall k :: 0 <= k < |offsets| ==> offsets[k] == BlockStart(i, k)
  }

  /// `block_offsets`: the running sum, saturating at every step.
  method BlockOffsets(i: Inode) returns (offs: seq<u64>)
    requires i.blocksStart <= U64_MAX
    ensures IsBlockMap(i, offs)
  {
    offs := [];
    var cursor: u64 := i.blocksStart;
    for n := 0 to |i.blockSizes|
      invariant |offs| == n && cursor == BlockStart(i, n)
      invariant forall k :: 0 <= k < n ==> offs[k] == BlockStart(i, k)
    {
      offs := offs + [cursor];
      cursor := Min(cursor + OnDisk(i.blockSizes[n]), U64_MAX);
    }
  }

  // ----- one logical block -----

  /// A file's logical block: a full data block, a hole, or the tail in a fragment.
  function LogicalBlock(fs: Filesystem, i: Inode, n: nat): (r: Result<seq<byte>, Error>)
    requires WellFormed(i, fs.BlockSize()) && i.IsRegularFile() && n * fs.BlockSize() < i.fileSize
  {
    var bs, full := fs.BlockSize(), |i.blockSizes|;
    if n < full then
      var len := Min(bs, i.fileSize - n * bs);
      if OnDisk(i.blockSizes[n]) == 0 then Ok(Zeros(len))
      else
        match Decoded(fs, DataKey(BlockStart(i, n), i.blockSizes[n], len))
        case Err(e) => Err(e)
        case Ok(block) => if |block| != len then Err(BadInode(WrongLength)) else Ok(block)
    else if i.HasFragment() then
      if i.fragmentIndex >= |fs.fragments| then Err(BadInode(FragmentIndex))
      else
        var frag := fs.fragments[i.fragmentIndex];
        match Decoded(fs, DataKey(frag.start, frag.size, bs))
        case Err(e) => Err(e)
        case Ok(block) =>
          var end := i.fragmentOffset + (i.fileSize - full * bs);
          if end > U64_MAX then Err(BadInode(FragmentOverflow))
          else if i.fragmentOffset <= end <= |block| then Ok(block[i.fragmentOffset..end])
          else Err(BadInode(FragmentPastEnd))
    else Err(OutOfRange)
  }

  predicate IsFile(fs: Filesystem, i: Inode) { WellFormed(i, fs.BlockSize()) && i.IsRegularFile() }

  lemma BlockIndexBound(size: nat, bs: nat, n: nat)
    requires bs > 0 && n * bs < size
    ensures n < (size + bs - 1) / bs && n <= size / bs
    ensures n == size / bs ==> size - n * bs == size % bs
  {
    Modular.DivBound(size + bs - 1, bs, n + 1);
    Modular.DivBound(size, bs, n);
    Modular.Distribute(bs, n, 1);
    assert bs * n == n * bs && bs * (n + 1) == n * bs + bs;
  }

  lemma DecodedError(fs: Filesystem, key: DataKey)
    requires SoundCodec(fs.img)
    ensures match Decoded(fs, key)
            case Ok(out) => true
            case Err(e) => e != OutOfRange && e != BadInode(BlockShorterThanOffset)
  {
  }

  /// A logical block inside a file is as long as the file's geometry says, and asking for
  /// it never falls outside the file.
  lemma BlockLength(fs: Filesystem, i: Inode, n: nat)
    requires SoundCodec(fs.img) && IsFile(fs, i) && n * fs.BlockSize() < i.fileSize
    ensures var r := LogicalBlock(fs, i, n);
            && r != Err(OutOfRange) && r != Err(BadInode(BlockShorterThanOffset))
            && (r.Ok? ==> |r.value| == Min(fs.BlockSize(), i.fileSize - n * fs.BlockSize()))
  {
    hide BlockSizeOf, BlockStart, ReadAt;
    var bs := fs.BlockSize();
    BlockIndexBound(i.fileSize, bs, n);
    forall key { DecodedError(fs, key); }
  }

  // ----- what a read returns -----

  /// The block that byte x of a file lies in.
  function BlockOf(fs: Filesystem, x: nat): (n: nat)
    ensures n * fs.BlockSize() <= x < (n + 1) * fs.BlockSize() && x % fs.BlockSize() == x - n * fs.BlockSize()
  {
    Modular.Quotient(x, fs.BlockSize());
    NextBlock(fs.BlockSize(), x / fs.BlockSize());
    x / fs.BlockSize()
  }

  /// The logical block that byte x lies in.
  function BlockAt(fs: Filesystem, i: Inode, x: nat): (r: Result<seq<byte>, Error>)
    requires IsFile(fs, i) && x < i.fileSize
  {
    LogicalBlock(fs, i, BlockOf(fs, x))
  }

  /// Byte x of the file is v.
  ghost predicate Holds(fs: Filesystem, i: Inode, x: nat, v: byte)
    requires SoundCodec(fs.img) && IsFile(fs, i) && x < i.fileSize
  {
    match BlockAt(fs, i, x)
    case Err(_) => false
    case Ok(block) => x % fs.BlockSize() < |block| && block[x % fs.BlockSize()] == v
  }

  /// From `from` on the file holds these bytes.
  ghost predicate HoldsAll(fs: Filesystem, i: Inode, from: nat, bytes: seq<byte>)
    requires SoundCodec(fs.img) && IsFile(fs, i) && (bytes != [] ==> from + |bytes| <= i.fileSize)
  {
    forall k :: 0 <= k < |bytes| ==> Holds(fs, i, from + k, bytes[k])
  }

  /// How much of the file a read of len bytes at offset covers.
  function Covered(i: Inode, offset: nat, len: nat): nat {
    if offset >= i.fileSize then 0 else Min(len, i.fileSize - offset)
  }

  /// A read gives every byte it covers, or the error of the first block it cannot have.
  ghost predicate Reads(fs: Filesystem, i: Inode, offset: nat, len: nat, r: Result<seq<byte>, Error>)
    requires SoundCodec(fs.img) && IsFile(fs, i)
  {
    var m := Covered(i, offset, len);
    match r
    case Ok(bytes) => |bytes| == m && HoldsAll(fs, i, offset, bytes)
    case Err(e) => exists x :: offset <= x < offset + m && Fails(fs, i, x, e)
                               && forall y :: offset <= y < x ==> Available(fs, i, y)
  }

  ghost predicate Fails(fs: Filesystem, i: Inode, x: nat, e: Error)
    requires IsFile(fs, i) && x < i.fileSize
  {
    BlockAt(fs, i, x) == Err(e)
  }

  ghost predicate Available(fs: Filesystem, i: Inode, x: nat)
    requires IsFile(fs, i) && x < i.fileSize
  {
    BlockAt(fs, i, x).Ok?
  }

  /// There is one such answer.
  lemma ReadsOneWay(fs: Filesystem, i: Inode, offset: nat, len: nat, r: Result<seq<byte>, Error>,
      s: Result<seq<byte>, Error>)
    requires SoundCodec(fs.img) && IsFile(fs, i)
    requires Reads(fs, i, offset, len, r) && Reads(fs, i, offset, len, s)
    ensures r == s
  {
    hide BlockAt, Holds, Fails, Available, SoundCodec, WellFormed;
    var m := Covered(i, offset, len);
    if r.Ok? && s.Ok? {
      forall k | 0 <= k < m ensures r.value[k] == s.value[k] {
        OneByte(fs, i, offset + k, r.value[k], s.value[k]);
      }
      assert r.value == s.value;
    } else if r.Ok? || s.Ok? {
      var bytes, e := if r.Ok? then r.value else s.value, if r.Ok? then s.error else r.error;
      var x :| offset <= x < offset + m && Fails(fs, i, x, e);
      assert Holds(fs, i, offset + (x - offset), bytes[x - offset]);
      NoByte(fs, i, x, bytes[x - offset], e);
    } else {
      var x :|
        offset <= x < offset + m && Fails(fs, i, x, r.error) && forall z :: offset <= z < x ==> Available(fs, i, z);
      var y :|
        offset <= y < offset + m && Fails(fs, i, y, s.error) && forall z :: offset <= z < y ==> Available(fs, i, z);
      OneError(fs, i, x, y, r.error, s.error);
    }
  }

  lemma OneByte(fs: Filesystem, i: Inode, x: nat, v: byte, w: byte)
    requires SoundCodec(fs.img) && IsFile(fs, i) && x < i.fileSize
    ensures Holds(fs, i, x, v) && Holds(fs, i, x, w) ==> v == w
  {
  }

  lemma NoByte(fs: Filesystem, i: Inode, x: nat, v: byte, e: Error)
    requires SoundCodec(fs.img) && IsFile(fs, i) && x < i.fileSize
    ensures !(Holds(fs, i, x, v) && Fails(fs, i, x, e))
  {
  }

  lemma OneError(fs: Filesystem, i: Inode, x: nat, y: nat, e: Error, f: Error)
    requires SoundCodec(fs.img) && IsFile(fs, i) && x < i.fileSize && y < i.fileSize
    requires Fails(fs, i, x, e) && Fails(fs, i, y, f)
    requires (x < y ==> Available(fs, i, x)) && (y < x ==> Available(fs, i, y))
    ensures e == f
  {
    assert x == y;
  }

  /// The whole file, when every block can be had.
  function FileFrom(fs: Filesystem, i: Inode, n: nat): (r: Result<seq<byte>, Error>)
    requires SoundCodec(fs.img) && IsFile(fs, i)
    decreases i.fileSize - n * fs.BlockSize()
  {
    if n * fs.BlockSize() >= i.fileSize then Ok([])
    else
      NextBlock(fs.BlockSize(), n);
      match LogicalBlock(fs, i, n)
      case Err(e) => Err(e)
      case Ok(block) =>
        match FileFrom(fs, i, n + 1)
        case Err(e) => Err(e)
        case Ok(rest) => Ok(block + rest)
  }

  lemma NextBlock(bs: nat, n: nat)
    ensures (n + 1) * bs == n * bs + bs
  {
  }

  lemma {:induction false} FileFromHolds(fs: Filesystem, i: Inode, n: nat, x: nat)
    requires SoundCodec(fs.img) && IsFile(fs, i) && FileFrom(fs, i, n).Ok?
    requires n * fs.BlockSize() <= x < i.fileSize
    ensures |FileFrom(fs, i, n).value| == i.fileSize - n * fs.BlockSize()
    ensures Holds(fs, i, x, FileFrom(fs, i, n).value[x - n * fs.BlockSize()])
    decreases i.fileSize - n * fs.BlockSize()
  {
    hide LogicalBlock, SoundCodec, WellFormed, BlockSizeOf;
    var bs := fs.BlockSize();
    NextBlock(bs, n);
    BlockLength(fs, i, n);
    var block := LogicalBlock(fs, i, n).value;
    if i.fileSize > (n + 1) * bs {
      FileFromHolds(fs, i, n + 1, Max(x, (n + 1) * bs));
    }
    if x < (n + 1) * bs {
      Modular.DivUnique(x, bs, n, x - n * bs);
    }
  }

  function Max(a: int, b: int): int { if a >= b then a else b }

  /// When the whole file can be had, a read is that slice of it and no more.
  lemma ReadIsSlice(fs: Filesystem, i: Inode, offset: nat, len: nat, r: Result<seq<byte>, Error>)
    requires SoundCodec(fs.img) && IsFile(fs, i) && FileFrom(fs, i, 0).Ok? && Reads(fs, i, offset, len, r)
    ensures var content := FileFrom(fs, i, 0).value;
            |content| == i.fileSize
                && r == Ok(if offset >= i.fileSize then [] else content[offset..offset + Covered(i, offset, len)])
  {
    hide LogicalBlock, SoundCodec, WellFormed, FileFrom, Holds;
    var m := Covered(i, offset, len);
    var content := FileFrom(fs, i, 0).value;
    FileLength(fs, i);
    var slice := if offset >= i.fileSize then [] else content[offset..offset + m];
    forall k | 0 <= k < |slice| ensures Holds(fs, i, offset + k, slice[k]) {
      FileFromHolds(fs, i, 0, offset + k);
    }
    ReadsOneWay(fs, i, offset, len, r, Ok(slice));
  }

  lemma FileLength(fs: Filesystem, i: Inode)
    requires SoundCodec(fs.img) && IsFile(fs, i) && FileFrom(fs, i, 0).Ok?
    ensures |FileFrom(fs, i, 0).value| == i.fileSize
  {
    if i.fileSize > 0 {
      FileFromHolds(fs, i, 0, 0);
    }
  }

  // ----- the read loop -----

  /// `read_logical_block`, through the cache.
  method ReadLogicalBlock(fs: Filesystem, i: Inode, n: nat, offsets: seq<u64>, cache: DataCache)
      returns (r: Result<seq<byte>, Error>)
    requires cache.Valid(fs) && IsFile(fs, i) && IsBlockMap(i, offsets) && n * fs.BlockSize() < i.fileSize
    modifies cache
    ensures cache.Valid(fs) && cache.capacity == old(cache.capacity)
    ensures r == LogicalBlock(fs, i, n)
  {
    hide BlockStart, Decoded, BlockSizeOf, WellFormed;
    var bs, full := fs.BlockSize(), |i.blockSizes|;
    if n < full {
      var len := Min(bs, i.fileSize - n * bs);
      if OnDisk(i.blockSizes[n]) == 0 {
        return Ok(Zeros(len));
      }
      var block := cache.Read(fs, DataKey(offsets[n], i.blockSizes[n], len));
      if block.Err? {
        return block;
      }
      return if |block.value| != len then Err(BadInode(WrongLength)) else block;
    }
    if !i.HasFragment() {
      return Err(OutOfRange);
    }
    if i.fragmentIndex >= |fs.fragments| {
      return Err(BadInode(FragmentIndex));
    }
    var frag := fs.fragments[i.fragmentIndex];
    var block := cache.Read(fs, DataKey(frag.start, frag.size, bs));
    if block.Err? {
      return block;
    }
    var start := i.fragmentOffset;
    var end := start + (i.fileSize - full * bs);
    if end > U64_MAX {
      return Err(BadInode(FragmentOverflow));
    }
    if end > |block.value| {
      return Err(BadInode(FragmentPastEnd));
    }
    TailFits(fs, i, n);
    return Ok(block.value[start..end]);
  }

  /// Past the full blocks of a file with a fragment lies the rest of the file.
  lemma TailFits(fs: Filesystem, i: Inode, n: nat)
    requires IsFile(fs, i) && i.HasFragment() && |i.blockSizes| <= n && n * fs.BlockSize() < i.fileSize
    ensures |i.blockSizes| * fs.BlockSize() <= i.fileSize
  {
    var bs, full := fs.BlockSize(), |i.blockSizes|;
    Modular.Distribute(bs, n, full);
    Modular.MulBound(bs, n - full);
  }

  /// `copy_from_slice` at an offset.
  method CopyInto(buf: array<byte>, at: nat, part: seq<byte>)
    requires at + |part| <= buf.Length
    modifies buf
    ensures buf[..at + |part|] == old(buf[..at]) + part
    ensures buf[at + |part|..] == old(buf[at..])[|part|..]
  {
    forall k | 0 <= k < |part| {
      buf[at + k] := part[k];
    }
  }

  /// The block a position lies in, and how far into it the position is.
  method BlockHolding(fs: Filesystem, i: Inode, pos: nat, offsets: seq<u64>, cache: DataCache)
      returns (block: Result<seq<byte>, Error>, within: nat)
    requires SoundCodec(fs.img) && IsFile(fs, i) && IsBlockMap(i, offsets) && cache.Valid(fs) && pos < i.fileSize
    modifies cache
    ensures cache.Valid(fs) && cache.capacity == old(cache.capacity)
    ensures block == BlockAt(fs, i, pos) && within == pos % fs.BlockSize()
    ensures block.Ok? ==> within < |block.value| <= fs.BlockSize()
    ensures block != Err(OutOfRange) && block != Err(BadInode(BlockShorterThanOffset))
  {
    hide LogicalBlock, SoundCodec, WellFormed, BlockSizeOf, IsBlockMap;
    var index := BlockOf(fs, pos);
    within := pos % fs.BlockSize();
    BlockLength(fs, i, index);
    block := ReadLogicalBlock(fs, i, index, offsets, cache);
  }

  /// One turn of the read loop: what of the next block lies in the read goes behind what
  /// is already there.
  method CopyBlock(fs: Filesystem, i: Inode, offsets: seq<u64>, offset: nat, toRead: nat, written: nat,
      buf: array<byte>, cache: DataCache)
    returns (r: Result<nat, Error>)
    requires SoundCodec(fs.img) && IsFile(fs, i) && IsBlockMap(i, offsets) && cache.Valid(fs)
    requires written < toRead <= buf.Length && offset + toRead <= i.fileSize
    requires HoldsAll(fs, i, offset, buf[..written])
    modifies buf, cache
    ensures cache.Valid(fs) && cache.capacity == old(cache.capacity)
    ensures r.Ok? ==> 0 < r.value <= toRead - written && HoldsAll(fs, i, offset, buf[..written + r.value])
                      && buf[written + r.value..] == old(buf[written..])[r.value..]
    ensures r.Err? ==>
              && BlockAt(fs, i, offset + written) == Err(r.error) && buf[..] == old(buf[..])
              && r.error != OutOfRange && r.error != BadInode(BlockShorterThanOffset)
  {
    hide LogicalBlock, SoundCodec, WellFormed, BlockSizeOf, HoldsAll, IsBlockMap;
    hide BlockAt, BlockOf, Holds, Decoded;
    var pos := offset + written;
    var block, within := BlockHolding(fs, i, pos, offsets, cache);
    if block.Err? {
      return Err(block.error);
    }
    if within >= |block.value| {
      return Err(BadInode(BlockShorterThanOffset));
    }
    var take := Min(|block.value| - within, toRead - written);
    var part := block.value[within..within + take];
    SameBlock(fs, i, pos, take, block.value, within, part);
    HoldsOn(fs, i, offset, buf[..written], part);
    CopyInto(buf, written, part);
    return Ok(take);
  }

  /// `read_file_with_offsets`: fills the front of the first `len` bytes of the
  /// buffer with what the file holds at `offset`.
  method ReadFile(fs: Filesystem, i: Inode, offsets: seq<u64>, offset: nat, buf: array<byte>, len: nat,
      cache: DataCache) returns (r: Result<nat, Error>)
    requires SoundCodec(fs.img) && WellFormed(i, fs.BlockSize()) && (i.IsRegularFile() ==> IsBlockMap(i, offsets))
        && cache.Valid(fs) && len <= buf.Length
    modifies buf, cache
    ensures cache.Valid(fs) && cache.capacity == old(cache.capacity)
    ensures !i.IsRegularFile() ==> r == Err(BadInode(NotAFile)) && buf[..] == old(buf[..])
    ensures i.IsRegularFile() && r.Ok? ==>
              && r.value == Covered(i, offset, len) && Reads(fs, i, offset, len, Ok(buf[..r.value]))
              && buf[r.value..] == old(buf[r.value..])
    ensures i.IsRegularFile() && r.Err? ==>
              && Reads(fs, i, offset, len, Err(r.error)) && r.error != OutOfRange
                  && r.error != BadInode(BlockShorterThanOffset)
              && buf[Covered(i, offset, len)..] == old(buf[Covered(i, offset, len)..])
  {
    hide LogicalBlock, SoundCodec, WellFormed, BlockSizeOf, HoldsAll, IsBlockMap, Reads, BlockAt, Holds, Decoded;
    if !i.IsRegularFile() {
      return Err(BadInode(NotAFile));
    }
    HoldsNothing(fs, i, offset);
    assert buf[..0] == [];
    if offset >= i.fileSize || len == 0 {
      HoldsReads(fs, i, offset, len, []);
      return Ok(0);
    }
    var toRead := Min(len, i.fileSize - offset);
    var written := 0;
    while written < toRead
      invariant written <= toRead && cache.Valid(fs) && cache.capacity == old(cache.capacity)
      invariant HoldsAll(fs, i, offset, buf[..written])
      invariant buf[written..] == old(buf[written..])
    {
      ghost var behind := buf[written..];
      var step := CopyBlock(fs, i, offsets, offset, toRead, written, buf, cache);
      if step.Err? {
        StopsAt(fs, i, offset, len, buf[..written], step.error);
        assert buf[toRead..] == buf[written..][toRead - written..]
            && old(buf[toRead..]) == old(buf[written..])[toRead - written..];
        return Err(step.error);
      }
      assert behind[step.value..] == old(buf[written + step.value..]);
      written := written + step.value;
    }
    HoldsReads(fs, i, offset, len, buf[..written]);
    return Ok(written);
  }

  lemma SameBlock(fs: Filesystem, i: Inode, pos: nat, take: nat, block: seq<byte>, within: nat, part: seq<byte>)
    requires SoundCodec(fs.img) && IsFile(fs, i) && pos < i.fileSize && pos + take <= i.fileSize
    requires BlockAt(fs, i, pos) == Ok(block) && within == pos % fs.BlockSize()
        && within + take <= |block| <= fs.BlockSize()
    requires part == block[within..within + take]
    ensures HoldsAll(fs, i, pos, part)
  {
    hide LogicalBlock, SoundCodec, WellFormed, BlockSizeOf;
    forall k | 0 <= k < |part| ensures Holds(fs, i, pos + k, part[k]) {
      Modular.DivUnique(pos + k, fs.BlockSize(), BlockOf(fs, pos), within + k);
    }
  }

  lemma HoldsReads(fs: Filesystem, i: Inode, offset: nat, len: nat, bytes: seq<byte>)
    requires SoundCodec(fs.img) && IsFile(fs, i) && |bytes| == Covered(i, offset, len) && HoldsAll(fs, i, offset, bytes)
    ensures Reads(fs, i, offset, len, Ok(bytes))
  {
  }

  /// A block that cannot be had, straight after what was read, is what the read fails with.
  lemma StopsAt(fs: Filesystem, i: Inode, offset: nat, len: nat, bytes: seq<byte>, e: Error)
    requires SoundCodec(fs.img) && IsFile(fs, i) && |bytes| < Covered(i, offset, len) && HoldsAll(fs, i, offset, bytes)
    requires BlockAt(fs, i, offset + |bytes|) == Err(e)
    ensures Reads(fs, i, offset, len, Err(e))
  {
    hide LogicalBlock, SoundCodec, WellFormed, BlockSizeOf, BlockAt, Available;
    assert Fails(fs, i, offset + |bytes|, e);
    forall y | offset <= y < offset + |bytes| ensures Available(fs, i, y) {
      assert Holds(fs, i, offset + (y - offset), bytes[y - offset]);
      Had(fs, i, y, bytes[y - offset]);
    }
  }

  lemma Had(fs: Filesystem, i: Inode, x: nat, v: byte)
    requires SoundCodec(fs.img) && IsFile(fs, i) && x < i.fileSize
    ensures Holds(fs, i, x, v) ==> Available(fs, i, x)
  {
  }

  lemma HoldsNothing(fs: Filesystem, i: Inode, from: nat)
    requires SoundCodec(fs.img) && IsFile(fs, i)
    ensures HoldsAll(fs, i, from, [])
  {
  }

  lemma HoldsOn(fs: Filesystem, i: Inode, from: nat, a: seq<byte>, b: seq<byte>)
    requires SoundCodec(fs.img) && IsFile(fs, i) && from + |a| + |b| <= i.fileSize
    requires HoldsAll(fs, i, from, a) && HoldsAll(fs, i, from + |a|, b)
    ensures HoldsAll(fs, i, from, a + b)
  {
    hide Holds, SoundCodec, WellFormed;
    forall k | 0 <= k < |a + b| ensures Holds(fs, i, from + k, (a + b)[k]) {
      if k < |a| {
        assert Holds(fs, i, from + k, a[k]);
      } else {
        assert Holds(fs, i, from + |a| + (k - |a|), b[k - |a|]);
      }
    }
  }
}
