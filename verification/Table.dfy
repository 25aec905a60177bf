/// Indirect tables and the export table: src/table.rs.
module Table {
  import opened Bytes
  import opened Image
  import opened Metadata
  import opened Superblock
  import opened FileData
  import Modular

  const EXPORT_ENTRY_SIZE := 8

  // ----- a run of blocks named by pointers -----

  /// The pointer array at an offset.
  function PointersAt(img: Image, start: nat, n: nat): (ps: seq<nat>)
    requires start + 8 * n <= |img.dev|
    ensures |ps| == n
  {
    seq(n, k requires 0 <= k < n => LeValue(img.dev[start + 8 * k..start + 8 * k + 8]))
  }

  /// Every block of a list, or the error of the first that cannot be pulled.
  function PullAll(img: Image, ps: seq<nat>): (r: Result<seq<seq<byte>>, Error>)
    ensures r.Ok? ==> |r.value| == |ps|
  {
    if ps == [] then Ok([])
    else
      match Pull(img, ps[0])
      case Err(e) => Err(e)
      case Ok(p) =>
        match PullAll(img, ps[1..])
        case Err(e) => Err(e)
        case Ok(rest) => Ok([p.bytes] + rest)
  }

  lemma {:induction false} PulledEach(img: Image, ps: seq<nat>, k: nat)
    requires PullAll(img, ps).Ok? && k < |ps|
    ensures Pull(img, ps[k]).Ok? && Pull(img, ps[k]).value.bytes == PullAll(img, ps).value[k]
  {
    hide Pull;
    if k > 0 {
      PulledEach(img, ps[1..], k - 1);
    }
  }

  function Concat(blocks: seq<seq<byte>>): seq<byte> { if blocks == [] then [] else blocks[0] + Concat(blocks[1..]) }

  /// How many blocks hold so many bytes.
  function BlocksFor(total: nat): nat { (total + METADATA_SIZE - 1) / METADATA_SIZE }

  /// The bytes between an offset and the end of the filesystem.
  function RoomAfter(img: Image, sb: Superblock, start: nat): nat {
    var end := Min(sb.bytesUsed, |img.dev|);
    if end > start then end - start else 0
  }

  /// What an indirect table of at least `total` bytes at `start` holds.
  function IndirectTable(img: Image, sb: Superblock, start: nat, total: nat): (r: Result<seq<byte>, Error>)
    ensures r.Ok? ==> |r.value| >= total
  {
    if total == 0 then Ok([])
    else if 8 * BlocksFor(total) > RoomAfter(img, sb, start) then Err(BadMetadata(NoRoomForPointers))
    else
      match PullAll(img, PointersAt(img, start, BlocksFor(total)))
      case Err(e) => Err(e)
      case Ok(blocks) => if |Concat(blocks)| < total then Err(BadMetadata(TableTooShort)) else Ok(Concat(blocks))
  }

  /// As many blocks as are needed and no more.
  lemma BlocksForExact(total: nat)
    ensures 8192 * BlocksFor(total) - 8192 < total <= 8192 * BlocksFor(total)
  {
  }

  predicate PullsTo(img: Image, at: nat, block: seq<byte>) {
    match Pull(img, at)
    case Err(_) => false
    case Ok(p) => p.bytes == block
  }

  predicate PointersStored(img: Image, start: nat, ps: seq<nat>)
    requires start + 8 * |ps| <= |img.dev|
  {
    forall k :: 0 <= k < |ps| ==> ps[k] <= U64_MAX && img.dev[start + 8 * k..start + 8 * k + 8] == LeBytes(ps[k], 8)
  }

  /// A table as it is stored: a pointer of eight bytes to each of the blocks, as many as its
  /// size needs, all of them before the filesystem's end.
  ghost predicate TableAt(img: Image, sb: Superblock, start: nat, total: nat, ps: seq<nat>, blocks: seq<seq<byte>>) {
    && |blocks| == |ps| && 8192 * |ps| - 8192 < total <= 8192 * |ps|
    && start + 8 * |ps| <= sb.bytesUsed && start + 8 * |ps| <= |img.dev|
    && PointersStored(img, start, ps) && (forall k :: 0 <= k < |ps| ==> PullsTo(img, ps[k], blocks[k]))
  }

  lemma {:induction false} PullAllExact(img: Image, ps: seq<nat>, blocks: seq<seq<byte>>)
    ensures PullAll(img, ps) == Ok(blocks) <==>
            |blocks| == |ps| && forall k :: 0 <= k < |ps| ==> PullsTo(img, ps[k], blocks[k])
    decreases |ps|
  {
    hide Pull;
    if PullAll(img, ps) == Ok(blocks) {
      forall k | 0 <= k < |ps| ensures PullsTo(img, ps[k], blocks[k]) {
        PulledEach(img, ps, k);
      }
    }
    if |blocks| == |ps| && ps != [] && forall k :: 0 <= k < |ps| ==> PullsTo(img, ps[k], blocks[k]) {
      forall k | 0 <= k < |ps| - 1 ensures PullsTo(img, ps[1..][k], blocks[1..][k]) {
        assert PullsTo(img, ps[k + 1], blocks[k + 1]);
      }
      PullAllExact(img, ps[1..], blocks[1..]);
      assert PullsTo(img, ps[0], blocks[0]) && blocks == [blocks[0]] + blocks[1..];
    }
  }

  lemma PointersExact(img: Image, start: nat, ps: seq<nat>)
    requires start + 8 * |ps| <= |img.dev|
    ensures ps == PointersAt(img, start, |ps|) <==> PointersStored(img, start, ps)
  {
    hide LeValue, LeBytes;
    Pow256Values();
    var qs := PointersAt(img, start, |ps|);
    forall k | 0 <= k < |ps|
      ensures ps[k] == qs[k] <==> ps[k] <= U64_MAX && img.dev[start + 8 * k..start + 8 * k + 8] == LeBytes(ps[k], 8)
    {
      var eight := img.dev[start + 8 * k..start + 8 * k + 8];
      assert |eight| == 8;
      LeBytesOfValue(eight);
      if ps[k] <= U64_MAX {
        LeValueOfBytes(ps[k], 8);
      }
    }
  }

  /// A table reads exactly where one is stored, and as its blocks laid end to end.
  lemma TableExact(img: Image, sb: Superblock, start: nat, total: nat, bytes: seq<byte>)
    requires total > 0
    ensures IndirectTable(img, sb, start, total) == Ok(bytes) <==>
            exists ps, blocks ::
              TableAt(img, sb, start, total, ps, blocks) && bytes == Concat(blocks) && total <= |bytes|
  {
    hide PullAll, PullsTo, Pull, PointersAt, LeBytes, Concat, BlocksFor;
    var n := BlocksFor(total);
    BlocksForExact(total);
    if IndirectTable(img, sb, start, total) == Ok(bytes) {
      var ps := PointersAt(img, start, n);
      var blocks := PullAll(img, ps).value;
      PointersExact(img, start, ps);
      PullAllExact(img, ps, blocks);
      assert TableAt(img, sb, start, total, ps, blocks);
    }
    forall ps, blocks | TableAt(img, sb, start, total, ps, blocks) && total <= |Concat(blocks)|
      ensures IndirectTable(img, sb, start, total) == Ok(Concat(blocks))
    {
      assert |ps| == n;
      PointersExact(img, start, ps);
      PullAllExact(img, ps, blocks);
    }
  }

  lemma {:induction false} ConcatAppend(blocks: seq<seq<byte>>, block: seq<byte>)
    ensures Concat(blocks + [block]) == Concat(blocks) + block
  {
    if blocks == [] {
      assert blocks + [block] == [block] && Concat([block][1..]) == [] && block + [] == block;
    } else {
      ConcatAppend(blocks[1..], block);
      assert (blocks + [block])[1..] == blocks[1..] + [block];
      assert blocks[0] + (Concat(blocks[1..]) + block) == Concat(blocks) + block;
    }
  }

  lemma {:induction false} PullAllAppend(img: Image, ps: seq<nat>, p: nat)
    ensures PullAll(img, ps + [p]) == match PullAll(img, ps)
                                      case Err(e) => Err(e)
                                      case Ok(blocks) =>
                                        match Pull(img, p)
                                        case Err(e) => Err(e)
                                        case Ok(pulled) => Ok(blocks + [pulled.bytes])
  {
    hide Pull;
    if ps == [] {
      assert ps + [p] == [p] && PullAll(img, [p][1..]) == Ok([]);
      assert Pull(img, p).Ok? ==> [Pull(img, p).value.bytes] + [] == [] + [Pull(img, p).value.bytes];
    } else {
      PullAllAppend(img, ps[1..], p);
      assert (ps + [p])[1..] == ps[1..] + [p];
      if Pull(img, ps[0]).Ok? && PullAll(img, ps[1..]).Ok? && Pull(img, p).Ok? {
        var first, last := Pull(img, ps[0]).value.bytes, Pull(img, p).value.bytes;
        assert [first] + (PullAll(img, ps[1..]).value + [last]) == [first] + PullAll(img, ps[1..]).value + [last];
      }
    }
  }

  lemma {:induction false} PullAllFails(img: Image, ps: seq<nat>, more: seq<nat>)
    requires PullAll(img, ps).Err?
    ensures PullAll(img, ps + more) == PullAll(img, ps)
  {
    hide Pull;
    if Pull(img, ps[0]).Ok? {
      PullAllFails(img, ps[1..], more);
    }
    assert (ps + more)[1..] == ps[1..] + more;
  }

  /// `read_indirect_table`.
  method ReadIndirectTable(img: Image, sb: Superblock, start: nat, total: nat) returns (r: Result<seq<byte>, Error>)
    ensures r == IndirectTable(img, sb, start, total)
  {
    hide Pull, PullAll, LeValue, Concat;
    if total == 0 {
      return Ok([]);
    }
    var n := BlocksFor(total);
    if 8 * n > RoomAfter(img, sb, start) {
      return Err(BadMetadata(NoRoomForPointers));
    }
    var raw := ReadAt(img.dev, start, 8 * n);
    ghost var ps, blocks := PointersAt(img, start, n), [];
    var out: seq<byte> := [];
    NoBlocks(img, ps);
    for i := 0 to n
      invariant PullAll(img, ps[..i]) == Ok(blocks) && out == Concat(blocks)
    {
      var p := LeValue(raw.value[8 * i..8 * i + 8]);
      SliceOfSlice(img.dev, start, 8 * n, 8 * i, 8);
      assert ps[..i] + [ps[i]] == ps[..i + 1];
      PullAllAppend(img, ps[..i], p);
      var block := ReadBlock(img, p, null);
      if block.Err? {
        PullAllFails(img, ps[..i + 1], ps[i + 1..]);
        assert ps[..i + 1] + ps[i + 1..] == ps;
        return Err(block.error);
      }
      ConcatAppend(blocks, block.value.bytes);
      out := out + block.value.bytes;
      blocks := blocks + [block.value.bytes];
    }
    assert ps[..n] == ps;
    if |out| < total {
      return Err(BadMetadata(TableTooShort));
    }
    return Ok(out);
  }

  lemma NoBlocks(img: Image, ps: seq<nat>)
    ensures PullAll(img, ps[..0]) == Ok([]) && Concat([]) == []
  {
  }

  /// The i-th record of a size.
  function Record(bytes: seq<byte>, i: nat, size: nat): (r: seq<byte>)
    requires i * size + size <= |bytes|
    ensures |r| == size
  {
    bytes[i * size..i * size + size]
  }

  /// `read_id_table`: one 32-bit id per entry of the table, in order.
  method ReadIdTable(img: Image, sb: Superblock) returns (r: Result<seq<nat>, Error>)
    ensures match IndirectTable(img, sb, sb.idTable, sb.idCount * 4)
            case Err(e) => r == Err(e)
            case Ok(bytes) =>
              && r.Ok? && |r.value| == sb.idCount
              && forall i :: 0 <= i < sb.idCount ==> r.value[i] == LeValue(Record(bytes, i, 4))
  {
    hide IndirectTable, LeValue;
    var n: nat := sb.idCount;
    if n == 0 {
      NoTable(img, sb, sb.idTable);
      return Ok([]);
    }
    var bytes := ReadIndirectTable(img, sb, sb.idTable, n * 4);
    if bytes.Err? {
      return Err(bytes.error);
    }
    var ids: seq<nat> := [];
    for i := 0 to n
      invariant |ids| == i && forall k :: 0 <= k < i ==> ids[k] == LeValue(Record(bytes.value, k, 4))
    {
      ids := ids + [LeValue(bytes.value[i * 4..i * 4 + 4])];
    }
    return Ok(ids);
  }

  lemma NoTable(img: Image, sb: Superblock, start: nat)
    ensures IndirectTable(img, sb, start, 0) == Ok([])
  {
  }

  /// `read_fragment_table`: a start and a size word out of every 16 bytes.
  method ReadFragmentTable(img: Image, sb: Superblock) returns (r: Result<seq<FragmentEntry>, Error>)
    ensures match IndirectTable(img, sb, sb.fragmentTable, sb.fragmentCount * 16)
            case Err(e) => r == Err(e)
            case Ok(bytes) =>
              && r.Ok? && |r.value| == sb.fragmentCount
              && forall i :: 0 <= i < sb.fragmentCount ==>
                   var rec := Record(bytes, i, 16); r.value[i] == FragmentEntry(LeValue(rec[0..8]), LeValue(rec[8..12]))
  {
    hide IndirectTable, LeValue;
    var n: nat := sb.fragmentCount;
    if n == 0 {
      NoTable(img, sb, sb.fragmentTable);
      return Ok([]);
    }
    var bytes := ReadIndirectTable(img, sb, sb.fragmentTable, n * 16);
    if bytes.Err? {
      return Err(bytes.error);
    }
    var frags: seq<FragmentEntry> := [];
    for i := 0 to n
      invariant |frags| == i
      invariant forall k :: 0 <= k < i ==>
                  var rec := Record(bytes.value, k, 16);
                  frags[k] == FragmentEntry(LeValue(rec[0..8]), LeValue(rec[8..12]))
    {
      var o := i * 16;
      SliceOfSlice(bytes.value, o, 16, 0, 8);
      SliceOfSlice(bytes.value, o, 16, 8, 4);
      frags := frags + [FragmentEntry(LeValue(bytes.value[o..o + 8]), LeValue(bytes.value[o + 8..o + 12]))];
    }
    return Ok(frags);
  }

  // ----- the export table -----

  /// Where the blocks of inode references lie, and how many inodes they cover.
  datatype ExportTable = ExportTable(blockStarts: seq<nat>, inodeCount: nat)

  /// What `read_export_table` builds when there is room for it.
  predicate Built(img: Image, sb: Superblock, table: ExportTable) {
    && table.inodeCount == sb.inodeCount
    && var n := BlocksFor(EXPORT_ENTRY_SIZE * sb.inodeCount);
       sb.exportTable + 8 * n <= |img.dev| && table.blockStarts == PointersAt(img, sb.exportTable, n)
  }

  /// `read_export_table`: only the pointers, one per block of entries.
  method ReadExportTable(img: Image, sb: Superblock) returns (r: Result<Option<ExportTable>, Error>)
    ensures r == Ok(None) <==> sb.exportTable == NO_TABLE
    ensures r.Err? <==> sb.exportTable != NO_TABLE && sb.inodeCount > 0
                        && 8 * BlocksFor(8 * sb.inodeCount) > RoomAfter(img, sb, sb.exportTable)
    ensures r.Err? ==> r.error == BadMetadata(NoRoomForPointers)
    ensures r.Ok? && r.value.Some? ==>
              && r.value.value.inodeCount == sb.inodeCount
              && (sb.inodeCount > 0 ==> Built(img, sb, r.value.value))
  {
    hide LeValue;
    if sb.exportTable == NO_TABLE {
      return Ok(None);
    }
    if sb.inodeCount == 0 {
      return Ok(Some(ExportTable([], 0)));
    }
    var n := BlocksFor(EXPORT_ENTRY_SIZE * sb.inodeCount);
    if 8 * n > RoomAfter(img, sb, sb.exportTable) {
      return Err(BadMetadata(NoRoomForPointers));
    }
    var raw := ReadAt(img.dev, sb.exportTable, 8 * n);
    var starts := seq(n, i requires 0 <= i < n => LeValue(raw.value[i * 8..i * 8 + 8]));
    forall i | 0 <= i < n ensures starts[i] == PointersAt(img, sb.exportTable, n)[i] {
      SliceOfSlice(img.dev, sb.exportTable, 8 * n, 8 * i, 8);
    }
    return Ok(Some(ExportTable(starts, sb.inodeCount)));
  }

  /// The packed reference of an inode number: one entry of one block.
  function ExportAt(img: Image, table: ExportTable, number: nat): (r: Result<nat, Error>) {
    if number == 0 || number > table.inodeCount then Err(NotFound)
    else
      var at := (number - 1) * EXPORT_ENTRY_SIZE;
      var block, within := at / METADATA_SIZE, at % METADATA_SIZE;
      if block >= |table.blockStarts| then Err(BadMetadata(ExportTooShort))
      else
        match Pull(img, table.blockStarts[block])
        case Err(e) => Err(e)
        case Ok(p) =>
          if within + EXPORT_ENTRY_SIZE > |p.bytes| then Err(BadMetadata(ExportEntryPastBlock))
          else Ok(LeValue(p.bytes[within..within + EXPORT_ENTRY_SIZE]))
  }

  /// `ExportTable::lookup`, through the cache.
  method LookupExport(img: Image, table: ExportTable, number: nat, cache: MetaCache?) returns (r: Result<nat, Error>)
    requires CacheValid(img, cache)
    modifies cache
    ensures CacheValid(img, cache)
    ensures r == ExportAt(img, table, number)
  {
    hide Pull, LeValue;
    if number == 0 || number > table.inodeCount {
      return Err(NotFound);
    }
    var at := (number - 1) * EXPORT_ENTRY_SIZE;
    var block, within := at / METADATA_SIZE, at % METADATA_SIZE;
    if block >= |table.blockStarts| {
      return Err(BadMetadata(ExportTooShort));
    }
    var data := ReadBlock(img, table.blockStarts[block], cache);
    if data.Err? {
      return Err(data.error);
    }
    var end := within + EXPORT_ENTRY_SIZE;
    if end > |data.value.bytes| {
      return Err(BadMetadata(ExportEntryPastBlock));
    }
    return Ok(LeValue(data.value.bytes[within..end]));
  }

  /// A table that was read has a block for every number it covers: the lookup never finds
  /// it shorter than it claims.
  lemma NeverTooShort(img: Image, sb: Superblock, table: ExportTable, number: nat)
    requires SoundCodec(img) && Built(img, sb, table)
    ensures 0 < number <= table.inodeCount ==> (number - 1) * EXPORT_ENTRY_SIZE / METADATA_SIZE < |table.blockStarts|
    ensures ExportAt(img, table, number) != Err(BadMetadata(ExportTooShort))
  {
    hide LeValue;
  }

  /// Full blocks lie at multiples of their size.
  lemma {:induction false} BlockInConcat(blocks: seq<seq<byte>>, k: nat)
    requires k < |blocks| && forall j :: 0 <= j < k ==> |blocks[j]| == METADATA_SIZE
    ensures METADATA_SIZE * k + |blocks[k]| <= |Concat(blocks)|
    ensures Concat(blocks)[METADATA_SIZE * k..METADATA_SIZE * k + |blocks[k]|] == blocks[k]
    ensures k == |blocks| - 1 ==> |Concat(blocks)| == METADATA_SIZE * k + |blocks[k]|
  {
    var rest := Concat(blocks[1..]);
    assert Concat(blocks) == blocks[0] + rest;
    if k > 0 {
      BlockInConcat(blocks[1..], k - 1);
      var a := METADATA_SIZE * (k - 1);
      SliceBehind(blocks[0], rest, a, a + |blocks[k]|);
    } else if |blocks| == 1 {
      assert rest == [];
    }
  }

  /// Looking one number up in one block agrees with the whole table: entry number - 1 of
  /// all its blocks laid end to end, when every block but the last is full. No entry lies
  /// across two blocks, so the only other answer is for a number past the bytes there are.
  lemma LookupRefinesTable(img: Image, sb: Superblock, table: ExportTable, blocks: seq<seq<byte>>, number: nat)
    requires SoundCodec(img) && Built(img, sb, table) && 0 < number <= table.inodeCount
    requires PullAll(img, table.blockStarts) == Ok(blocks)
    requires forall k :: 0 <= k < |blocks| - 1 ==> |blocks[k]| == METADATA_SIZE
    ensures ExportAt(img, table, number)
            == if number * 8 <= |Concat(blocks)| then Ok(LeValue(Concat(blocks)[number * 8 - 8..number * 8]))
               else Err(BadMetadata(ExportEntryPastBlock))
  {
    hide LeValue, Pull, PullAll, Concat, SoundCodec, PointersAt;
    var at := (number - 1) * EXPORT_ENTRY_SIZE;
    var k, within := at / METADATA_SIZE, at % METADATA_SIZE;
    NeverTooShort(img, sb, table, number);
    BlockInConcat(blocks, k);
    BlockInConcat(blocks, |blocks| - 1);
    PulledEach(img, table.blockStarts, k);
    PulledBounded(img, table.blockStarts[k]);
    EntryPlace(number);
    if within + 8 <= |blocks[k]| {
      SliceOfSlice(Concat(blocks), METADATA_SIZE * k, |blocks[k]|, within, 8);
    } else {
      assert k == |blocks| - 1;
    }
  }

  /// An entry lies inside one block.
  lemma EntryPlace(number: nat)
    requires number > 0
    ensures var at := (number - 1) * EXPORT_ENTRY_SIZE;
            at == number * 8 - 8 == METADATA_SIZE * (at / METADATA_SIZE) + at % METADATA_SIZE
                && at % METADATA_SIZE + 8 <= METADATA_SIZE
  {
    var q, r := (number - 1) / 1024, (number - 1) % 1024;
    Modular.DivUnique((number - 1) * EXPORT_ENTRY_SIZE, METADATA_SIZE, q, 8 * r);
  }
}
