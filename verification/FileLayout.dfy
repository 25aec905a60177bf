/// A file as an image stores it, and that reading the file of src/fs.rs gives back exactly
/// what is stored.
module FileLayout {
  import opened Bytes
  import opened Image
  import opened Superblock
  import opened Inode
  import opened FileData
  import Modular

  /// Raw bytes of at most a block lie at `at`, and the size word is their length with bit 24
  /// set when they are the block themselves and clear when they decompress to it. The bits
  /// above are not looked at.
  ghost predicate Stored(fs: Filesystem, at: nat, sizeWord: nat, block: seq<byte>, maxOut: nat) {
    exists raw, unused :: StoredAs(fs, at, sizeWord, block, maxOut, raw, unused)
  }

  ghost predicate StoredAs(fs: Filesystem, at: nat, sizeWord: nat, block: seq<byte>, maxOut: nat, raw: seq<byte>,
      unused: nat)
  {
    && |raw| <= fs.BlockSize() && at + |raw| <= |fs.img.dev| && fs.img.dev[at..at + |raw|] == raw
    && (|| (sizeWord == |raw| + 0x200_0000 * unused && fs.img.decode(raw, maxOut) == Ok(block))
        || (sizeWord == 0x100_0000 + |raw| + 0x200_0000 * unused && block == raw && |raw| <= maxOut))
  }

  /// A hole's size word has no length.
  predicate IsHole(sizeWord: nat) { sizeWord % 0x100_0000 == 0 }

  lemma WordSplits(w: nat)
    ensures var len, flag, unused := w % 0x100_0000, w / 0x100_0000 % 2, w / 0x200_0000;
            w == len + 0x100_0000 * flag + 0x200_0000 * unused
  {
    Modular.DivDiv(w, 0x100_0000, 2);
  }

  lemma WordOf(len: nat, flag: nat, unused: nat)
    requires len < 0x100_0000 && flag < 2
    ensures var w := len + 0x100_0000 * flag + 0x200_0000 * unused;
            w % 0x100_0000 == len && w / 0x100_0000 % 2 == flag
  {
    Modular.DivUnique(len + 0x100_0000 * flag + 0x200_0000 * unused, 0x100_0000, flag + 2 * unused, len);
    Modular.DivUnique(flag + 2 * unused, 2, unused, flag);
  }

  /// A block decodes exactly where one is stored, and as what is stored there.
  lemma DecodedExact(fs: Filesystem, key: DataKey, block: seq<byte>)
    ensures Decoded(fs, key) == Ok(block) <==> Stored(fs, key.offset, key.sizeWord, block, key.maxOut)
  {
    hide BlockSizeOf;
    var w := key.sizeWord;
    BlockSizeBounded(fs.sb);
    if Decoded(fs, key) == Ok(block) {
      WordSplits(w);
      var raw := fs.img.dev[key.offset..key.offset + w % 0x100_0000];
      assert StoredAs(fs, key.offset, w, block, key.maxOut, raw, w / 0x200_0000);
    }
    forall raw, unused: nat | StoredAs(fs, key.offset, w, block, key.maxOut, raw, unused)
      ensures Decoded(fs, key) == Ok(block)
    {
      if w == |raw| + 0x200_0000 * unused {
        WordOf(|raw|, 0, unused);
      }
      if w == 0x100_0000 + |raw| + 0x200_0000 * unused {
        WordOf(|raw|, 1, unused);
      }
    }
  }

  /// The part of the content a logical block covers.
  function Piece(fs: Filesystem, content: seq<byte>, n: nat): (p: seq<byte>)
    requires n * fs.BlockSize() <= |content|
  {
    content[n * fs.BlockSize()..Min(n * fs.BlockSize() + fs.BlockSize(), |content|)]
  }

  /// A full block: a hole of zeros, or stored right behind the blocks before it.
  ghost predicate FullBlock(fs: Filesystem, i: Inode, content: seq<byte>, n: nat)
    requires n < |i.blockSizes| && n * fs.BlockSize() <= |content|
  {
    var piece := Piece(fs, content, n);
    if IsHole(i.blockSizes[n]) then piece == Zeros(|piece|)
    else Stored(fs, i.blocksStart + TotalOnDisk(i.blockSizes, n), i.blockSizes[n], piece, |piece|)
  }

  /// The tail: a stretch of a stored fragment block.
  ghost predicate TailBlock(fs: Filesystem, i: Inode, tail: seq<byte>) {
    && i.fragmentIndex < |fs.fragments|
    && exists block :: TailIn(fs, i, tail, block)
  }

  ghost predicate TailIn(fs: Filesystem, i: Inode, tail: seq<byte>, block: seq<byte>)
    requires i.fragmentIndex < |fs.fragments|
  {
    && Stored(fs, fs.fragments[i.fragmentIndex].start, fs.fragments[i.fragmentIndex].size, block, fs.BlockSize())
    && i.fragmentOffset + |tail| <= |block| && block[i.fragmentOffset..i.fragmentOffset + |tail|] == tail
  }

  /// The image stores this content for the inode.
  ghost predicate Laid(fs: Filesystem, i: Inode, content: seq<byte>) {
    |content| == i.fileSize && LaidFrom(fs, i, content, 0)
  }

  /// Every block from the n-th on is stored.
  ghost predicate LaidFrom(fs: Filesystem, i: Inode, content: seq<byte>, n: nat) {
    forall k :: n <= k && k * fs.BlockSize() < |content| ==> BlockLaid(fs, i, content, k)
  }

  ghost predicate BlockLaid(fs: Filesystem, i: Inode, content: seq<byte>, n: nat)
    requires n * fs.BlockSize() < |content|
  {
    if n < |i.blockSizes| then FullBlock(fs, i, content, n)
    else i.HasFragment() && n == |i.blockSizes| && TailBlock(fs, i, Piece(fs, content, n))
  }

  // ----- what is stored is what is read -----

  lemma FullBlockExact(fs: Filesystem, i: Inode, content: seq<byte>, n: nat)
    requires IsFile(fs, i) && |content| == i.fileSize && n < |i.blockSizes| && n * fs.BlockSize() < i.fileSize
    ensures FullBlock(fs, i, content, n) <==> LogicalBlock(fs, i, n) == Ok(Piece(fs, content, n))
  {
    hide Decoded, Stored, WellFormed, BlockSizeOf;
    var piece, w := Piece(fs, content, n), i.blockSizes[n];
    WellFormedStart(i, fs.BlockSize());
    if OnDisk(w) != 0 {
      var at := i.blocksStart + TotalOnDisk(i.blockSizes, n);
      DecodedExact(fs, DataKey(BlockStart(i, n), w, |piece|), piece);
      PastTheDevice(fs, at, w, piece);
      PastTheDevice(fs, BlockStart(i, n), w, piece);
    }
  }

  /// Nothing is stored at or past the end of a u64, where a saturated sum lies.
  lemma PastTheDevice(fs: Filesystem, at: nat, sizeWord: nat, block: seq<byte>)
    requires !IsHole(sizeWord)
    ensures at >= U64_MAX ==> !Stored(fs, at, sizeWord, block, |block|)
  {
    forall raw, unused: nat | StoredAs(fs, at, sizeWord, block, |block|, raw, unused)
      ensures at < U64_MAX
    {
      if raw == [] {
        WordOf(0, if sizeWord == 0x200_0000 * unused then 0 else 1, unused);
      }
    }
  }

  /// Only the tail lies past the full blocks, and only a file with a fragment has one.
  lemma TailIndex(fs: Filesystem, i: Inode, n: nat)
    requires IsFile(fs, i) && |i.blockSizes| <= n && n * fs.BlockSize() < i.fileSize
    ensures i.HasFragment() && n == |i.blockSizes|
  {
    BlockIndexBound(i.fileSize, fs.BlockSize(), n);
  }

  lemma TailLength(fs: Filesystem, i: Inode, n: nat)
    requires IsFile(fs, i) && |i.blockSizes| <= n && n * fs.BlockSize() < i.fileSize
    ensures i.fileSize - n * fs.BlockSize() < fs.BlockSize() && i.fragmentOffset + fs.BlockSize() <= U64_MAX
  {
    TailIndex(fs, i, n);
    BlockIndexBound(i.fileSize, fs.BlockSize(), n);
    BlockSizeBounded(fs.sb);
  }

  /// With block sizes of at most 1 MiB, the end of a tail never leaves a machine word.
  lemma FragmentNeverOverflows(fs: Filesystem, i: Inode, n: nat)
    requires SoundCodec(fs.img) && IsFile(fs, i) && n * fs.BlockSize() < i.fileSize
    ensures LogicalBlock(fs, i, n) != Err(BadInode(FragmentOverflow))
  {
    hide WellFormed, BlockSizeOf;
    if n >= |i.blockSizes| {
      TailIndex(fs, i, n);
      TailLength(fs, i, n);
    }
  }

  lemma TailExact(fs: Filesystem, i: Inode, content: seq<byte>, n: nat)
    requires IsFile(fs, i) && |content| == i.fileSize && |i.blockSizes| <= n && n * fs.BlockSize() < i.fileSize
    ensures TailBlock(fs, i, Piece(fs, content, n)) <==> LogicalBlock(fs, i, n) == Ok(Piece(fs, content, n))
  {
    hide Decoded, Stored, WellFormed, BlockSizeOf;
    TailIndex(fs, i, n);
    TailLength(fs, i, n);
    var tail := Piece(fs, content, n);
    if i.fragmentIndex < |fs.fragments| {
      var frag := fs.fragments[i.fragmentIndex];
      var key := DataKey(frag.start, frag.size, fs.BlockSize());
      forall block { DecodedExact(fs, key, block); }
      if LogicalBlock(fs, i, n) == Ok(tail) {
        assert TailIn(fs, i, tail, Decoded(fs, key).value);
      }
    }
  }

  /// A block is read as its part of the content exactly when it is stored as that.
  lemma BlockExact(fs: Filesystem, i: Inode, content: seq<byte>, n: nat)
    requires IsFile(fs, i) && |content| == i.fileSize && n * fs.BlockSize() < i.fileSize
    ensures BlockLaid(fs, i, content, n) <==> LogicalBlock(fs, i, n) == Ok(Piece(fs, content, n))
  {
    hide FullBlock, TailBlock, LogicalBlock, WellFormed;
    if n < |i.blockSizes| {
      FullBlockExact(fs, i, content, n);
    } else {
      TailIndex(fs, i, n);
      TailExact(fs, i, content, n);
    }
  }

  lemma NextPiece(fs: Filesystem, content: seq<byte>, n: nat, from: nat)
    requires from == n * fs.BlockSize() < |content|
    ensures from + fs.BlockSize() <= |content| ==>
              content[from..] == Piece(fs, content, n) + content[from + fs.BlockSize()..]
    ensures from + fs.BlockSize() >= |content| ==> content[from..] == Piece(fs, content, n)
  {
    hide BlockSizeOf;
  }

  lemma {:induction false} ContentFrom(fs: Filesystem, i: Inode, content: seq<byte>, n: nat, from: nat)
    requires SoundCodec(fs.img) && IsFile(fs, i) && |content| == i.fileSize
    requires from == n * fs.BlockSize() && from <= i.fileSize && LaidFrom(fs, i, content, n)
    ensures FileFrom(fs, i, n) == Ok(content[from..])
    decreases i.fileSize - from
  {
    hide BlockLaid, LogicalBlock, WellFormed, SoundCodec, Piece, BlockSizeOf;
    if from < i.fileSize {
      NextBlock(fs.BlockSize(), n);
      BlockExact(fs, i, content, n);
      NextPiece(fs, content, n, from);
      if from + fs.BlockSize() <= i.fileSize {
        ContentFrom(fs, i, content, n + 1, from + fs.BlockSize());
      } else {
        assert FileFrom(fs, i, n + 1) == Ok([]);
        assert content[from..] + [] == content[from..];
      }
    } else {
      assert content[from..] == [];
    }
  }

  lemma Spread(bs: nat, n: nat, k: nat)
    requires bs > 0 && n <= k
    ensures n * bs <= k * bs && (n < k ==> n * bs + bs <= k * bs)
  {
    Modular.Distribute(bs, k - n, n);
    Modular.MulBound(bs, k - n);
  }

  /// The k-th block of a file that reads is its part of the content.
  lemma {:induction false} BlocksOf(fs: Filesystem, i: Inode, n: nat, k: nat, from: nat, at: nat)
    requires SoundCodec(fs.img) && IsFile(fs, i) && FileFrom(fs, i, n).Ok? && n <= k
    requires from == n * fs.BlockSize() && at == k * fs.BlockSize() < i.fileSize
    ensures from <= at && |FileFrom(fs, i, n).value| == i.fileSize - from
    ensures LogicalBlock(fs, i, k)
            == Ok(FileFrom(fs, i, n).value[at - from..Min(at + fs.BlockSize(), i.fileSize) - from])
    decreases k - n
  {
    hide LogicalBlock, WellFormed, SoundCodec, BlockSizeOf;
    var bs := fs.BlockSize();
    Spread(bs, n, k);
    FileFromHolds(fs, i, n, from);
    BlockLength(fs, i, n);
    var block := LogicalBlock(fs, i, n).value;
    NextBlock(bs, n);
    var rest := FileFrom(fs, i, n + 1).value;
    if n < k {
      BlocksOf(fs, i, n + 1, k, from + bs, at);
      SliceBehind(block, rest, at - from - bs, Min(at + bs, i.fileSize) - from - bs);
    } else {
      assert (block + rest)[0..|block|] == block;
    }
  }

  /// The whole file can be read, and is this content, exactly when the image stores it.
  lemma WholeFileExact(fs: Filesystem, i: Inode, content: seq<byte>)
    requires SoundCodec(fs.img) && IsFile(fs, i)
    ensures FileFrom(fs, i, 0) == Ok(content) <==> Laid(fs, i, content)
  {
    hide BlockLaid, LogicalBlock, WellFormed, SoundCodec, BlockSizeOf, FileFrom;
    if FileFrom(fs, i, 0) == Ok(content) {
      FileLength(fs, i);
      forall n: nat | n * fs.BlockSize() < |content| ensures BlockLaid(fs, i, content, n) {
        BlockExact(fs, i, content, n);
        BlocksOf(fs, i, 0, n, 0, n * fs.BlockSize());
      }
    }
    if Laid(fs, i, content) {
      ContentFrom(fs, i, content, 0, 0);
      assert content[0..] == content;
    }
  }

  // ----- a file written block after block -----

  /// A data block's bytes on disk; none at all for a hole.
  datatype Chunk = Chunk(bytes: seq<byte>, compressed: bool)

  /// The size word that describes it.
  function SizeWord(c: Chunk): nat { if c.bytes == [] || c.compressed then |c.bytes| else 0x100_0000 + |c.bytes| }

  /// The chunks, one right behind the other.
  function Packed(cs: seq<Chunk>): seq<byte> { if cs == [] then [] else cs[0].bytes + Packed(cs[1..]) }

  /// A chunk stands for a piece of a file.
  predicate StandsFor(fs: Filesystem, c: Chunk, piece: seq<byte>) {
    if c.bytes == [] then piece == Zeros(|piece|)
    else
      && |c.bytes| <= fs.BlockSize()
      && if c.compressed then fs.img.decode(c.bytes, |piece|) == Ok(piece) else piece == c.bytes
  }

  /// The inode's size words are the chunks', which lie one behind the other from where its
  /// blocks start.
  ghost predicate WrittenAs(fs: Filesystem, i: Inode, cs: seq<Chunk>) {
    && |i.blockSizes| == |cs| && (forall n :: 0 <= n < |cs| ==> i.blockSizes[n] == SizeWord(cs[n]))
    && (forall n :: 0 <= n < |cs| ==> |cs[n].bytes| <= fs.BlockSize())
    && i.blocksStart + |Packed(cs)| <= |fs.img.dev|
    && fs.img.dev[i.blocksStart..i.blocksStart + |Packed(cs)|] == Packed(cs)
  }

  lemma {:induction false} PackedAt(cs: seq<Chunk>, n: nat)
    requires n < |cs|
    ensures |Packed(cs[..n])| + |cs[n].bytes| <= |Packed(cs)|
    ensures Packed(cs)[|Packed(cs[..n])|..|Packed(cs[..n])| + |cs[n].bytes|] == cs[n].bytes
  {
    if n == 0 {
      assert cs[..0] == [];
    } else {
      PackedAt(cs[1..], n - 1);
      assert cs[..n][1..] == cs[1..][..n - 1] && cs[..n][0] == cs[0];
      var k := |Packed(cs[1..][..n - 1])|;
      SliceBehind(cs[0].bytes, Packed(cs[1..]), k, k + |cs[n].bytes|);
    }
  }

  lemma {:induction false} PackedLength(cs: seq<Chunk>, n: nat)
    requires n < |cs|
    ensures |Packed(cs[..n + 1])| == |Packed(cs[..n])| + |cs[n].bytes|
  {
    if n == 0 {
      assert cs[..1][1..] == [] && cs[..0] == [];
    } else {
      PackedLength(cs[1..], n - 1);
      assert cs[..n + 1][1..] == cs[1..][..n] && cs[..n][1..] == cs[1..][..n - 1];
    }
  }

  lemma SizeWordLength(c: Chunk)
    requires |c.bytes| < 0x100_0000
    ensures OnDisk(SizeWord(c)) == |c.bytes| && (IsHole(SizeWord(c)) <==> c.bytes == [])
  {
  }

  lemma {:induction false} StartsBehind(fs: Filesystem, i: Inode, cs: seq<Chunk>, n: nat)
    requires WrittenAs(fs, i, cs) && n <= |cs|
    ensures TotalOnDisk(i.blockSizes, n) == |Packed(cs[..n])|
  {
    hide BlockSizeOf, SizeWord, OnDisk;
    if n == 0 {
      assert cs[..0] == [];
    } else {
      StartsBehind(fs, i, cs, n - 1);
      BlockSizeBounded(fs.sb);
      SizeWordLength(cs[n - 1]);
      PackedLength(cs, n - 1);
    }
  }

  /// A chunk that stands for its piece is a block laid out as the reader expects.
  lemma ChunkLaid(fs: Filesystem, i: Inode, content: seq<byte>, cs: seq<Chunk>, n: nat)
    requires WrittenAs(fs, i, cs) && n < |cs| && n * fs.BlockSize() < |content|
    requires StandsFor(fs, cs[n], Piece(fs, content, n))
    ensures FullBlock(fs, i, content, n)
  {
    hide BlockSizeOf, Packed, OnDisk;
    BlockSizeBounded(fs.sb);
    StartsBehind(fs, i, cs, n);
    SizeWordLength(cs[n]);
    if cs[n].bytes != [] {
      PackedAt(cs, n);
      var raw, k, at := cs[n].bytes, |Packed(cs[..n])|, i.blocksStart;
      SliceOfSlice(fs.img.dev, at, |Packed(cs)|, k, |raw|);
      assert StoredAs(fs, at + k, SizeWord(cs[n]), Piece(fs, content, n), |Piece(fs, content, n)|, raw, 0);
    }
  }

  /// A file written chunk after chunk, with what is left over, if anything, in a fragment,
  /// reads back as its content.
  lemma WrittenFileReads(fs: Filesystem, i: Inode, content: seq<byte>, cs: seq<Chunk>)
    requires SoundCodec(fs.img) && IsFile(fs, i) && |content| == i.fileSize && WrittenAs(fs, i, cs)
    requires forall n: nat :: n < |cs| && n * fs.BlockSize() < |content| ==>
                           StandsFor(fs, cs[n], Piece(fs, content, n))
    requires |cs| * fs.BlockSize() < |content| ==>
               i.HasFragment() && TailBlock(fs, i, Piece(fs, content, |cs|))
    ensures FileFrom(fs, i, 0) == Ok(content)
  {
    hide BlockSizeOf, WellFormed, FileFrom, StandsFor, FullBlock, TailBlock, SoundCodec, Piece;
    forall n: nat | n * fs.BlockSize() < |content| ensures BlockLaid(fs, i, content, n) {
      if n < |cs| {
        ChunkLaid(fs, i, content, cs, n);
      } else {
        TailIndex(fs, i, n);
      }
    }
    WholeFileExact(fs, i, content);
  }
}
